/** The address readers of APPS/apps/inet_pton.c. A C string is a sequence of the characters before its end. */
module InetPton {
  import opened ScanSpec
  import opened InetSpec
  import opened Inet6Spec
  import opened SeqFacts

  // ----- dotted quads -----

  /** Octets `k` on are still to be read, from place `st`. */
  ghost predicate Ahead(src: string, done: seq<UChar>, st: nat)
    requires st <= |src| && |done| < NS_INADDRSZ
  {
    Quad4(src) == match Octets(src[st..], NS_INADDRSZ - |done|)
                  case None => None
                  case Some(r) => Some(done + r)
  }

  lemma TooBig(src: string, done: seq<UChar>, st: nat, i: nat)
    requires st <= i < |src| && |done| < NS_INADDRSZ && Ahead(src, done, st)
    requires Decimal(src[st..i + 1]) && DecValue(src[st..i + 1]) > 255
    ensures Quad4(src).None?
  {
    var s, n := src[st..], i + 1 - st;
    assert s[..n] == src[st..i + 1];
    RunAtLeast(s, n);
    DecGrows(s, n, DigitRun(s));
  }

  /** An octet ended by a character that is not a digit. */
  lemma OctetsStop(s: string, n: nat, m: nat)
    requires n < |s| && m > 0 && Decimal(s[..n]) && DigitOf(s[n]).None?
    ensures n == 0 || s[n] != '.' || m == 1 ==> Octets(s, m).None?
    ensures n > 0 && s[n] == '.' && m > 1 && DecValue(s[..n]) <= 255 ==>
              Octets(s, m) == match Octets(s[n + 1..], m - 1)
                              case None => None
                              case Some(r) => Some([DecValue(s[..n])] + r)
  {
    RunAtLeast(s, n);
    hide DecValue, Decimal, DigitOf;
  }

  lemma Stopped(src: string, done: seq<UChar>, st: nat, i: nat)
    requires st <= i < |src| && |done| < NS_INADDRSZ && Ahead(src, done, st)
    requires Decimal(src[st..i]) && DigitOf(src[i]).None?
    ensures i == st || src[i] != '.' || |done| == NS_INADDRSZ - 1 ==> Quad4(src).None?
    ensures i > st && src[i] == '.' && |done| < NS_INADDRSZ - 1 && DecValue(src[st..i]) <= 255 ==>
              Ahead(src, done + [DecValue(src[st..i])], i + 1)
  {
    hide Decimal, DecValue, Octets, Quad4, DigitOf;
    var s, n := src[st..], i - st;
    assert s[..n] == src[st..i] && s[n] == src[i] && s[n + 1..] == src[i + 1..];
    OctetsStop(s, n, NS_INADDRSZ - |done|);
    if i > st && src[i] == '.' && |done| < NS_INADDRSZ - 1 && DecValue(src[st..i]) <= 255 {
      var rest := Octets(src[i + 1..], NS_INADDRSZ - |done| - 1);
      if rest.Some? {
        assert done + ([DecValue(src[st..i])] + rest.value) == (done + [DecValue(src[st..i])]) + rest.value;
      }
    }
  }

  lemma AheadStart(src: string)
    ensures Ahead(src, [], 0)
  {
    hide Octets;
    assert src[0..] == src;
    if Quad4(src).Some? {
      assert [] + Quad4(src).value == Quad4(src).value;
    }
  }

  lemma Ended(src: string, done: seq<UChar>, st: nat)
    requires st <= |src| && |done| < NS_INADDRSZ && Ahead(src, done, st)
    requires Decimal(src[st..])
    ensures st == |src| || |done| < NS_INADDRSZ - 1 ==> Quad4(src).None?
    ensures st < |src| && |done| == NS_INADDRSZ - 1 && DecValue(src[st..]) <= 255 ==>
              Quad4(src) == Some(done + [DecValue(src[st..])])
  {
    var s := src[st..];
    assert s[..|s|] == s;
    RunAtLeast(s, |s|);
  }

  /** Reads a dotted quad into `dst` from place `off`; `dst` is untouched unless the answer is true. */
  method InetPton4(src: string, dst: array<UChar>, off: nat) returns (ok: bool)
    requires off + NS_INADDRSZ <= dst.Length
    modifies dst
    ensures ok == Quad4(src).Some?
    ensures dst[..] == if ok then old(dst[..off]) + Quad4(src).value + old(dst[off + NS_INADDRSZ..]) else old(dst[..])
  {
    hide Octets, Quad4, DigitOf, Ahead;
    var saw_digit, octets := false, 0;
    var tmp := new UChar[NS_INADDRSZ](_ => 0);
    var tp := 0;
    var i := 0;
    ghost var st := 0;
    AheadStart(src);
    assert tmp[..tp] == [];
    while i < |src|
      invariant tp < NS_INADDRSZ && st <= i <= |src|
      invariant saw_digit == (i > st) && octets == tp + if saw_digit then 1 else 0
      invariant Decimal(src[st..i]) && tmp[tp] == DecValue(src[st..i])
      invariant Ahead(src, tmp[..tp], st)
      invariant fresh(tmp) && tmp.Length == NS_INADDRSZ && dst[..] == old(dst[..])
    {
      var ch := src[i];
      if DigitOf(ch).Some? {
        assert src[st..i + 1] == src[st..i] + [ch];
        var new_ := tmp[tp] * 10 + DigitOf(ch).value;
        if new_ > 255 {
          TooBig(src, tmp[..tp], st, i);
          return false;
        }
        tmp[tp] := new_;
        if !saw_digit {
          octets := octets + 1;
          saw_digit := true;
        }
      } else if ch == '.' && saw_digit {
        Stopped(src, tmp[..tp], st, i);
        if octets == 4 {
          return false;
        }
        ghost var done := tmp[..tp];
        tp := tp + 1;
        tmp[tp] := 0;
        assert tmp[..tp] == done + [tmp[tp - 1]];
        st := i + 1;
        saw_digit := false;
      } else {
        Stopped(src, tmp[..tp], st, i);
        return false;
      }
      i := i + 1;
    }
    assert src[st..i] == src[st..];
    Ended(src, tmp[..tp], st);
    if octets < 4 {
      return false;
    }
    assert tmp[..] == tmp[..tp] + [tmp[tp]];
    forall k | 0 <= k < NS_INADDRSZ {
      dst[off + k] := tmp[k];
    }
    ok := true;
  }

  // ----- IPv6 -----

  lemma ReadTooBig(s: string, n: nat, b: seq<UChar>, gap: Option<nat>)
    requires |b| <= NS_IN6ADDRSZ && (gap.Some? ==> gap.value <= |b|)
    requires n <= |s| && Hexadecimal(s[..n]) && HexValue(s[..n]) > 0xffff
    ensures Read(s, b, gap).None?
  {
    XRunAtLeast(s, n);
    HexGrows(s, n, XDigitRun(s));
    assert n > 0;
  }

  /** A run of digits ended by some other character. */
  lemma ReadStop(s: string, n: nat, b: seq<UChar>, gap: Option<nat>)
    requires |b| <= NS_IN6ADDRSZ && (gap.Some? ==> gap.value <= |b|)
    requires n < |s| && Hexadecimal(s[..n]) && HexValue(s[..n]) <= 0xffff && XDigitOf(s[n]).None?
    ensures s[n] == ':' && n == 0 ==> Read(s, b, gap) == if gap.Some? then None else Read(s[1..], b, Some(|b|))
    ensures s[n] == ':' && n > 0 ==>
              Read(s, b, gap) == if n + 1 == |s| || |b| + NS_INT16SZ > NS_IN6ADDRSZ then None
                                 else Read(s[n + 1..], b + GroupBytes(s[..n]), gap)
    ensures s[n] == '.' ==>
              Read(s, b, gap) == if |b| + NS_INADDRSZ <= NS_IN6ADDRSZ && Quad4(s).Some? then Finish(b + Quad4(s).value, gap)
                                 else None
    ensures s[n] != ':' && s[n] != '.' ==> Read(s, b, gap) == None
  {
    XRunAtLeast(s, n);
    hide XDigitOf, HexValue, Hexadecimal, Quad4, Finish;
  }

  lemma ReadEnd(s: string, b: seq<UChar>, gap: Option<nat>)
    requires |b| <= NS_IN6ADDRSZ && (gap.Some? ==> gap.value <= |b|)
    requires Hexadecimal(s) && HexValue(s) <= 0xffff
    ensures Read(s, b, gap) == if s == "" then Finish(b, gap)
                               else if |b| + NS_INT16SZ > NS_IN6ADDRSZ then None
                               else Finish(b + GroupBytes(s), gap)
  {
    assert s[..|s|] == s;
    XRunAtLeast(s, |s|);
    hide HexValue, Hexadecimal, Finish;
  }

  lemma Shifted(was: seq<UChar>, now: seq<UChar>, c: nat, tp: nat)
    requires |was| == |now| == NS_IN6ADDRSZ && c <= tp < NS_IN6ADDRSZ
    requires forall p :: 0 <= p < c ==> now[p] == was[p]
    requires forall p :: c <= p < c + NS_IN6ADDRSZ - tp ==> now[p] == 0
    requires forall p :: c + NS_IN6ADDRSZ - tp <= p < NS_IN6ADDRSZ ==> now[p] == was[p - (NS_IN6ADDRSZ - tp)]
    ensures now == was[..c] + Zeros(NS_IN6ADDRSZ - tp) + was[c..tp]
  {
  }

  /** The bytes from `c` to `tp` moved to the end of the address, with zeros left behind, in place. */
  method ShiftTail(tmp: array<UChar>, c: nat, tp: nat)
    requires tmp.Length == NS_IN6ADDRSZ && c <= tp < NS_IN6ADDRSZ
    requires forall p :: tp <= p < NS_IN6ADDRSZ ==> tmp[p] == 0
    modifies tmp
    ensures tmp[..] == old(tmp[..c]) + Zeros(NS_IN6ADDRSZ - tp) + old(tmp[c..tp])
  {
    var n := tp - c;
    var i := 1;
    while i <= n
      invariant 1 <= i <= n + 1
      invariant forall p :: 0 <= p <= tp - i ==> tmp[p] == old(tmp[p])
      invariant forall p :: tp - i < p <= NS_IN6ADDRSZ - i ==> tmp[p] == 0
      invariant forall p :: NS_IN6ADDRSZ - i < p < NS_IN6ADDRSZ ==> tmp[p] == old(tmp[p - (NS_IN6ADDRSZ - tp)])
    {
      tmp[NS_IN6ADDRSZ - i] := tmp[c + n - i];
      tmp[c + n - i] := 0;
      i := i + 1;
    }
    Shifted(old(tmp[..]), tmp[..], c, tp);
    assert old(tmp[..])[..c] == old(tmp[..c]) && old(tmp[..])[c..tp] == old(tmp[c..tp]);
  }

  /** What the reader state still has to become. */
  ghost predicate Pending(src: string, st: nat, b: seq<UChar>, gap: Option<nat>)
    requires st <= |src| && |b| <= NS_IN6ADDRSZ && (gap.Some? ==> gap.value <= |b|)
  {
    Pton6(src) == Read(src[st..], b, gap)
  }

  /** A group stored as two bytes, high byte first. */
  method StoreGroup(tmp: array<UChar>, tp: nat, val: nat, ghost t: string)
    requires tmp.Length == NS_IN6ADDRSZ && tp + NS_INT16SZ <= NS_IN6ADDRSZ && Group(t) && val == HexValue(t)
    modifies tmp
    ensures tmp[..tp + 2] == old(tmp[..tp]) + GroupBytes(t)
    ensures forall p :: tp + 2 <= p < NS_IN6ADDRSZ ==> tmp[p] == old(tmp[p])
  {
    tmp[tp] := val / 256 % 256;
    tmp[tp + 1] := val % 256;
  }

  /** Ends the reading with `tp` bytes in `tmp`. */
  method Conclude(tmp: array<UChar>, colonp: Option<nat>, tp: nat, dst: array<UChar>) returns (ok: bool)
    requires tmp.Length == NS_IN6ADDRSZ && tp <= NS_IN6ADDRSZ && (colonp.Some? ==> colonp.value <= tp)
    requires forall p :: tp <= p < NS_IN6ADDRSZ ==> tmp[p] == 0
    requires dst.Length == NS_IN6ADDRSZ && dst != tmp
    modifies tmp, dst
    ensures ok == Finish(old(tmp[..tp]), colonp).Some?
    ensures dst[..] == if ok then Finish(old(tmp[..tp]), colonp).value else old(dst[..])
  {
    if colonp.Some? {
      if tp == NS_IN6ADDRSZ {
        return false;
      }
      ghost var b := tmp[..tp];
      assert b[..colonp.value] == tmp[..colonp.value] && b[colonp.value..] == tmp[colonp.value..tp];
      ShiftTail(tmp, colonp.value, tp);
    } else {
      if tp != NS_IN6ADDRSZ {
        return false;
      }
    }
    forall k | 0 <= k < NS_IN6ADDRSZ {
      dst[k] := tmp[k];
    }
    assert dst[..] == tmp[..];
    ok := true;
  }

  lemma PendingStart(src: string)
    ensures src == "" || src[0] != ':' ==> Pending(src, 0, [], None)
    ensures src != "" && src[0] == ':' && (|src| == 1 || src[1] != ':') ==> Pton6(src).None?
    ensures |src| > 1 && src[0] == ':' && src[1] == ':' ==> Pending(src, 1, [], None)
  {
    hide Read;
    assert src[0..] == src;
  }

  /** Reads an IPv6 address; `dst` is untouched unless the answer is true. */
  method InetPton6(src: string, dst: array<UChar>) returns (ok: bool)
    requires dst.Length == NS_IN6ADDRSZ
    modifies dst
    ensures ok == Pton6(src).Some?
    ensures dst[..] == if ok then Pton6(src).value else old(dst[..])
  {
    hide Read, Pton6, Finish, Quad4, Hexadecimal, HexValue, XDigitOf, GroupBytes, Zeros, XDigitRun, DigitRun, Group;
    var tmp := new UChar[NS_IN6ADDRSZ](_ => 0);
    var tp := 0;
    var colonp: Option<nat> := None;
    PendingStart(src);
    var i := 0;
    if src != "" && src[0] == ':' {
      i := 1;
      if |src| == 1 || src[1] != ':' {
        return false;
      }
    }
    var curtok := i;
    var saw_xdigit, val := false, 0;
    NoDigitsYet();
    assert src[curtok..i] == "" && tmp[..tp] == [];
    while i < |src|
      invariant curtok <= i <= |src| && tp <= NS_IN6ADDRSZ && (colonp.Some? ==> colonp.value <= tp)
      invariant fresh(tmp) && tmp.Length == NS_IN6ADDRSZ && dst[..] == old(dst[..])
      invariant saw_xdigit == (i > curtok)
      invariant Hexadecimal(src[curtok..i]) && val == HexValue(src[curtok..i]) <= 0xffff
      invariant forall p :: tp <= p < NS_IN6ADDRSZ ==> tmp[p] == 0
      invariant Pending(src, curtok, tmp[..tp], colonp)
    {
      var ch := src[i];
      ghost var s, n := src[curtok..], i - curtok;
      assert s[..n] == src[curtok..i] && s[n] == ch;
      if XDigitOf(ch).Some? {
        assert s[..n + 1] == src[curtok..i + 1];
        OneMore(s, n);
        val := val * 16 + XDigitOf(ch).value;
        if val > 0xffff {
          ReadTooBig(s, n + 1, tmp[..tp], colonp);
          return false;
        }
        saw_xdigit := true;
        i := i + 1;
        continue;
      }
      ReadStop(s, n, tmp[..tp], colonp);
      if ch == ':' {
        assert s[n + 1..] == src[i + 1..];
        ghost var t := src[curtok..i];
        curtok := i + 1;
        if !saw_xdigit {
          if colonp.Some? {
            return false;
          }
          colonp := Some(tp);
          i := i + 1;
          NoDigitsYet();
          assert src[curtok..i] == "";
          continue;
        } else if i + 1 == |src| {
          return false;
        }
        if tp + NS_INT16SZ > NS_IN6ADDRSZ {
          return false;
        }
        StoreGroup(tmp, tp, val, t);
        tp := tp + 2;
        saw_xdigit := false;
        val := 0;
        i := i + 1;
        NoDigitsYet();
        assert src[curtok..i] == "";
        continue;
      }
      if ch == '.' && tp + NS_INADDRSZ <= NS_IN6ADDRSZ {
        ghost var b := tmp[..tp];
        var quad := InetPton4(src[curtok..], tmp, tp);
        if quad {
          assert tmp[..tp + NS_INADDRSZ] == b + Quad4(s).value;
          tp := tp + NS_INADDRSZ;
          ok := Conclude(tmp, colonp, tp, dst);
          return;
        }
      }
      return false;
    }
    assert src[curtok..i] == src[curtok..];
    ReadEnd(src[curtok..], tmp[..tp], colonp);
    if saw_xdigit {
      if tp + NS_INT16SZ > NS_IN6ADDRSZ {
        return false;
      }
      StoreGroup(tmp, tp, val, src[curtok..]);
      tp := tp + 2;
    }
    ok := Conclude(tmp, colonp, tp, dst);
  }

  lemma NoDigitsYet()
    ensures Hexadecimal("") && HexValue("") == 0
  {
  }

  lemma OneMore(s: string, n: nat)
    requires n < |s| && Hexadecimal(s[..n]) && XDigitOf(s[n]).Some?
    ensures Hexadecimal(s[..n + 1]) && HexValue(s[..n + 1]) == HexValue(s[..n]) * 16 + XDigitOf(s[n]).value
  {
    forall i {:trigger s[..n + 1][i]} | 0 <= i < n + 1
      ensures XDigitOf(s[..n + 1][i]).Some?
    {
      if i < n {
        assert s[..n + 1][i] == s[..n][i];
      }
    }
    HexNext(s, n);
  }
}
