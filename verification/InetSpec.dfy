/** The texts that APPS/apps/inet_pton.c accepts as addresses, and what they denote. */
module InetSpec {
  import opened ScanSpec
  import opened SeqFacts

  const NS_INADDRSZ := 4
  const NS_IN6ADDRSZ := 16
  const NS_INT16SZ := 2

  function DigitOf(c: char): Option<nat> {
    if '0' <= c <= '9' then Some((c as int) - ('0' as int)) else None
  }

  function XDigitOf(c: char): Option<nat> {
    if '0' <= c <= '9' then Some((c as int) - ('0' as int))
    else if 'a' <= c <= 'f' then Some((c as int) - ('a' as int) + 10)
    else if 'A' <= c <= 'F' then Some((c as int) - ('A' as int) + 10)
    else None
  }

  // ----- groups and octets -----

  predicate Decimal(t: string) {
    forall i {:trigger t[i]} :: 0 <= i < |t| ==> DigitOf(t[i]).Some?
  }

  predicate Hexadecimal(t: string) {
    forall i {:trigger t[i]} :: 0 <= i < |t| ==> XDigitOf(t[i]).Some?
  }

  function DecValue(t: string): nat
    requires Decimal(t)
  {
    if t == "" then 0 else DecValue(t[..|t| - 1]) * 10 + DigitOf(t[|t| - 1]).value
  }

  function HexValue(t: string): nat
    requires Hexadecimal(t)
  {
    if t == "" then 0 else HexValue(t[..|t| - 1]) * 16 + XDigitOf(t[|t| - 1]).value
  }

  /** A decimal octet: at least one digit, any number of leading zeros, at most 255. */
  predicate Octet(t: string) {
    t != "" && Decimal(t) && DecValue(t) <= 255
  }

  /** A group: at least one hexadecimal digit, any number of leading zeros, at most 0xffff. */
  predicate Group(t: string) {
    t != "" && Hexadecimal(t) && HexValue(t) <= 0xffff
  }

  function GroupBytes(t: string): (r: seq<UChar>)
    requires Group(t)
    ensures |r| == 2
  {
    [HexValue(t) / 256, HexValue(t) % 256]
  }

  // ----- dotted quads -----

  /** Four octets with dots between them. */
  ghost predicate Quad(t: string, a: string, b: string, c: string, d: string) {
    Octet(a) && Octet(b) && Octet(c) && Octet(d) && t == a + "." + b + "." + c + "." + d
  }

  function QuadBytes(a: string, b: string, c: string, d: string): (r: seq<UChar>)
    requires Octet(a) && Octet(b) && Octet(c) && Octet(d)
  {
    [DecValue(a), DecValue(b), DecValue(c), DecValue(d)]
  }

  /** How many decimal digits `s` starts with. */
  function DigitRun(s: string): (n: nat)
    ensures n <= |s| && Decimal(s[..n]) && (n < |s| ==> DigitOf(s[n]).None?)
  {
    if s != "" && DigitOf(s[0]).Some? then
      var n := 1 + DigitRun(s[1..]);
      assert forall i {:trigger s[i]} :: 1 <= i < n ==> s[i] == s[1..][i - 1];
      n
    else 0
  }

  /** How many hexadecimal digits `s` starts with. */
  function XDigitRun(s: string): (n: nat)
    ensures n <= |s| && Hexadecimal(s[..n]) && (n < |s| ==> XDigitOf(s[n]).None?)
  {
    if s != "" && XDigitOf(s[0]).Some? then
      var n := 1 + XDigitRun(s[1..]);
      assert forall i {:trigger s[i]} :: 1 <= i < n ==> s[i] == s[1..][i - 1];
      n
    else 0
  }

  /** What the octet reader makes of `s` when it has to find `n` octets. */
  function Octets(s: string, n: nat): (r: Option<seq<UChar>>)
    requires n > 0
    ensures r.Some? ==> |r.value| == n
    decreases n
  {
    var h := DigitRun(s);
    if h == 0 || DecValue(s[..h]) > 255 then None
    else if n == 1 then if h == |s| then Some([DecValue(s[..h])]) else None
    else if h == |s| || s[h] != '.' then None
    else
      match Octets(s[h + 1..], n - 1)
      case None => None
      case Some(rest) => Some([DecValue(s[..h])] + rest)
  }

  function Quad4(s: string): Option<seq<UChar>> {
    Octets(s, NS_INADDRSZ)
  }

  lemma RunOf(t: string, rest: string)
    requires Decimal(t) && (rest != "" ==> DigitOf(rest[0]).None?)
    ensures DigitRun(t + rest) == |t| && (t + rest)[..|t|] == t
  {
    hide Decimal, DigitOf;
    var s := t + rest;
    assert s[..|t|] == t;
    RunAtLeast(s, |t|);
    if rest != "" {
      assert s[|t|] == rest[0];
    }
  }

  lemma XRunOf(t: string, rest: string)
    requires Hexadecimal(t) && (rest != "" ==> XDigitOf(rest[0]).None?)
    ensures XDigitRun(t + rest) == |t| && (t + rest)[..|t|] == t
  {
    hide Hexadecimal, XDigitOf;
    var s := t + rest;
    assert s[..|t|] == t;
    XRunAtLeast(s, |t|);
    if rest != "" {
      assert s[|t|] == rest[0];
    }
  }

  /** Everything `Octets` accepts starts with an octet and a dot, and continues with what it accepts there. */
  lemma OctetFirst(a: string, rest: string, n: nat)
    requires n > 1 && Octet(a)
    ensures Octets(a + "." + rest, n) == match Octets(rest, n - 1)
                                         case None => None
                                         case Some(r) => Some([DecValue(a)] + r)
  {
    assert a + "." + rest == a + ("." + rest);
    RunOf(a, "." + rest);
    assert (a + "." + rest)[|a| + 1..] == rest;
    assert (a + "." + rest)[|a|] == '.';
  }

  lemma OctetAlone(d: string)
    requires Octet(d)
    ensures Octets(d, 1) == Some([DecValue(d)])
  {
    RunOf(d, "");
    assert d + "" == d && d[..|d|] == d;
  }

  lemma FourJoined(a: string, b: string, c: string, d: string)
    ensures a + "." + b + "." + c + "." + d == a + "." + (b + "." + (c + "." + d))
  {
    assert a + "." + b + "." + (c + "." + d) == a + "." + (b + "." + (c + "." + d));
    assert a + "." + b + "." + c + "." + d == a + "." + b + "." + (c + "." + d);
  }

  lemma FourBytes(w: UChar, x: UChar, y: UChar, z: UChar)
    ensures [w] + ([x] + ([y] + [z])) == [w, x, y, z]
  {
  }

  /** Every dotted quad is read as its four octets. */
  lemma QuadIsRead(t: string, a: string, b: string, c: string, d: string)
    requires Quad(t, a, b, c, d)
    ensures Quad4(t) == Some(QuadBytes(a, b, c, d))
  {
    hide Octets, DecValue, Decimal;
    FourJoined(a, b, c, d);
    OctetFirst(a, b + "." + (c + "." + d), 4);
    OctetFirst(b, c + "." + d, 3);
    OctetFirst(c, d, 2);
    OctetAlone(d);
    FourBytes(DecValue(a), DecValue(b), DecValue(c), DecValue(d));
  }

  lemma OctetSplit(s: string, n: nat) returns (a: string, rest: string)
    requires n > 1 && Octets(s, n).Some?
    ensures Octet(a) && s == a + "." + rest
    ensures Octets(rest, n - 1).Some? && Octets(s, n).value == [DecValue(a)] + Octets(rest, n - 1).value
  {
    var h := DigitRun(s);
    a, rest := s[..h], s[h + 1..];
    assert s == s[..h] + [s[h]] + s[h + 1..];
    assert "." == ['.'];
  }

  /** Only dotted quads are read as quads. */
  lemma ReadIsQuad(t: string) returns (a: string, b: string, c: string, d: string)
    requires Quad4(t).Some?
    ensures Quad(t, a, b, c, d) && Quad4(t).value == QuadBytes(a, b, c, d)
  {
    hide Octets, DecValue, Decimal;
    var u, v;
    a, u := OctetSplit(t, 4);
    b, v := OctetSplit(u, 3);
    c, d := OctetSplit(v, 2);
    LastOctet(d);
    FourJoined(a, b, c, d);
    FourBytes(DecValue(a), DecValue(b), DecValue(c), DecValue(d));
  }

  lemma LastOctet(d: string)
    requires Octets(d, 1).Some?
    ensures Octet(d) && Octets(d, 1).value == [DecValue(d)]
  {
    assert d[..|d|] == d;
  }

  // ----- values grow digit by digit -----

  lemma DecNext(t: string, n: nat)
    requires n < |t| && Decimal(t[..n + 1])
    ensures Decimal(t[..n]) && DigitOf(t[n]).Some?
    ensures DecValue(t[..n + 1]) == DecValue(t[..n]) * 10 + DigitOf(t[n]).value
  {
    assert t[..n + 1][n] == t[n];
    assert t[..n + 1][..n] == t[..n];
    forall i {:trigger t[..n][i]} | 0 <= i < n
      ensures DigitOf(t[..n][i]).Some?
    {
      assert t[..n][i] == t[..n + 1][i];
    }
  }

  lemma HexNext(t: string, n: nat)
    requires n < |t| && Hexadecimal(t[..n + 1])
    ensures Hexadecimal(t[..n]) && XDigitOf(t[n]).Some?
    ensures HexValue(t[..n + 1]) == HexValue(t[..n]) * 16 + XDigitOf(t[n]).value
  {
    assert t[..n + 1][n] == t[n];
    assert t[..n + 1][..n] == t[..n];
    forall i {:trigger t[..n][i]} | 0 <= i < n
      ensures XDigitOf(t[..n][i]).Some?
    {
      assert t[..n][i] == t[..n + 1][i];
    }
  }

  lemma {:induction false} DecGrows(t: string, m: nat, n: nat)
    requires m <= n <= |t| && Decimal(t[..n])
    ensures Decimal(t[..m]) && DecValue(t[..m]) <= DecValue(t[..n])
    decreases n - m
  {
    if m < n {
      DecNext(t, n - 1);
      DecGrows(t, m, n - 1);
    }
  }

  lemma {:induction false} HexGrows(t: string, m: nat, n: nat)
    requires m <= n <= |t| && Hexadecimal(t[..n])
    ensures Hexadecimal(t[..m]) && HexValue(t[..m]) <= HexValue(t[..n])
    decreases n - m
  {
    if m < n {
      HexNext(t, n - 1);
      HexGrows(t, m, n - 1);
    }
  }

  lemma {:induction false} RunAtLeast(s: string, n: nat)
    requires n <= |s| && Decimal(s[..n])
    ensures DigitRun(s) >= n
    ensures n < |s| && DigitOf(s[n]).None? ==> DigitRun(s) == n
    decreases n
  {
    hide DigitOf, XDigitOf;
    if n > 0 {
      assert s[..n][0] == s[0];
      var t := s[1..];
      forall i {:trigger t[..n - 1][i]} | 0 <= i < n - 1
        ensures DigitOf(t[..n - 1][i]).Some?
      {
        assert t[..n - 1][i] == s[..n][i + 1];
      }
      RunAtLeast(t, n - 1);
    }
  }

  lemma {:induction false} XRunAtLeast(s: string, n: nat)
    requires n <= |s| && Hexadecimal(s[..n])
    ensures XDigitRun(s) >= n
    ensures n < |s| && XDigitOf(s[n]).None? ==> XDigitRun(s) == n
    decreases n
  {
    hide DigitOf, XDigitOf;
    if n > 0 {
      assert s[..n][0] == s[0];
      var t := s[1..];
      forall i {:trigger t[..n - 1][i]} | 0 <= i < n - 1
        ensures XDigitOf(t[..n - 1][i]).Some?
      {
        assert t[..n - 1][i] == s[..n][i + 1];
      }
      XRunAtLeast(t, n - 1);
    }
  }
}
