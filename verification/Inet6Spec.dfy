/** The IPv6 texts that APPS/apps/inet_pton.c accepts: a grammar, the reader of the code as a function, and their
    agreement. */
module Inet6Spec {
  import opened ScanSpec
  import opened InetSpec
  import opened SeqFacts

  // ----- the grammar -----

  datatype Dotted = Dotted(a: string, b: string, c: string, d: string)

  /** Groups separated by colons, of which a dotted quad may be the last. */
  datatype Items = Items(groups: seq<string>, quad: Option<Dotted>)

  /** An address in full, or with `::` between two runs of items. */
  datatype Tree = Full(all: Items) | Short(left: seq<string>, right: Items)

  function Joined(ts: seq<string>): string {
    if ts == [] then "" else if |ts| == 1 then ts[0] else ts[0] + ":" + Joined(ts[1..])
  }

  predicate Groups(ts: seq<string>) {
    ts == [] || (Group(ts[0]) && Groups(ts[1..]))
  }

  predicate Octets4(q: Dotted) {
    Octet(q.a) && Octet(q.b) && Octet(q.c) && Octet(q.d)
  }

  predicate ItemsOk(i: Items) {
    Groups(i.groups) && (i.quad.Some? ==> Octets4(i.quad.value))
  }

  function DottedText(q: Dotted): string {
    q.a + "." + q.b + "." + q.c + "." + q.d
  }

  function ItemsText(i: Items): string {
    Joined(i.groups + if i.quad.Some? then [DottedText(i.quad.value)] else [])
  }

  function GroupsBytes(ts: seq<string>): (r: seq<UChar>)
    requires Groups(ts)
    ensures |r| == 2 * |ts|
  {
    if ts == [] then [] else GroupBytes(ts[0]) + GroupsBytes(ts[1..])
  }

  function ItemsBytes(i: Items): (r: seq<UChar>)
    requires ItemsOk(i)
    ensures |r| == 2 * |i.groups| + if i.quad.Some? then 4 else 0
  {
    GroupsBytes(i.groups) +
    match i.quad
    case None => []
    case Some(q) => QuadBytes(q.a, q.b, q.c, q.d)
  }

  function Zeros(n: nat): (r: seq<UChar>)
    ensures |r| == n
  {
    seq(n, _ => 0)
  }

  /** Sixteen bytes in full, or at least one group of zeros for the `::`. */
  predicate TreeOk(t: Tree) {
    match t
    case Full(all) => ItemsOk(all) && |ItemsBytes(all)| == NS_IN6ADDRSZ
    case Short(left, right) =>
      Groups(left) && ItemsOk(right) && |GroupsBytes(left)| + |ItemsBytes(right)| <= NS_IN6ADDRSZ - 2
  }

  function Text(t: Tree): string {
    match t
    case Full(all) => ItemsText(all)
    case Short(left, right) => Joined(left) + "::" + ItemsText(right)
  }

  function Bytes(t: Tree): (r: seq<UChar>)
    requires TreeOk(t)
    ensures |r| == NS_IN6ADDRSZ
  {
    match t
    case Full(all) => ItemsBytes(all)
    case Short(left, right) =>
      GroupsBytes(left) + Zeros(NS_IN6ADDRSZ - |GroupsBytes(left)| - |ItemsBytes(right)|) + ItemsBytes(right)
  }

  // ----- the reader -----

  /** What becomes of the bytes read, with the `::` seen after the first `gap` of them. */
  function Finish(b: seq<UChar>, gap: Option<nat>): Option<seq<UChar>>
    requires |b| <= NS_IN6ADDRSZ && (gap.Some? ==> gap.value <= |b|)
  {
    match gap
    case None => if |b| == NS_IN6ADDRSZ then Some(b) else None
    case Some(c) =>
      if |b| == NS_IN6ADDRSZ then None else Some(b[..c] + Zeros(NS_IN6ADDRSZ - |b|) + b[c..])
  }

  /** Reads on at a place where an item may start. */
  function Read(s: string, b: seq<UChar>, gap: Option<nat>): Option<seq<UChar>>
    requires |b| <= NS_IN6ADDRSZ && (gap.Some? ==> gap.value <= |b|)
    decreases |s|
  {
    var h := XDigitRun(s);
    if h > 0 && HexValue(s[..h]) > 0xffff then None
    else if h == |s| then
      if h == 0 then Finish(b, gap)
      else if |b| + NS_INT16SZ > NS_IN6ADDRSZ then None
      else Finish(b + GroupBytes(s[..h]), gap)
    else if s[h] == ':' then
      if h == 0 then if gap.Some? then None else Read(s[1..], b, Some(|b|))
      else if h + 1 == |s| || |b| + NS_INT16SZ > NS_IN6ADDRSZ then None
      else Read(s[h + 1..], b + GroupBytes(s[..h]), gap)
    else if s[h] == '.' && |b| + NS_INADDRSZ <= NS_IN6ADDRSZ && Quad4(s).Some? then Finish(b + Quad4(s).value, gap)
    else None
  }

  function Pton6(src: string): Option<seq<UChar>> {
    if src != "" && src[0] == ':' then
      if |src| == 1 || src[1] != ':' then None else Read(src[1..], [], None)
    else Read(src, [], None)
  }

  // ----- reading a group, a quad and items -----

  function Cat<T>(a: seq<T>, b: seq<T>): (r: seq<T>)
    ensures |r| == |a| + |b|
    ensures a != [] ==> r[0] == a[0]
  {
    a + b
  }

  function Colon(s: string): (r: string)
    ensures |r| == |s| + 1 && r[0] == ':'
  {
    ":" + s
  }

  lemma ColonTail(s: string)
    ensures Colon(s)[1..] == s
  {
  }

  lemma Joins(ts: seq<string>)
    requires |ts| > 1
    ensures Joined(ts) == Cat(ts[0], Colon(Joined(ts[1..]))) && ts[1..] != []
  {
    assert ts[0] + ":" + Joined(ts[1..]) == ts[0] + (":" + Joined(ts[1..]));
  }

  /** A group and a colon with something behind it. */
  lemma ReadGroup(t: string, rest: string, b: seq<UChar>, gap: Option<nat>)
    requires Group(t) && rest != "" && |b| + 2 <= NS_IN6ADDRSZ && (gap.Some? ==> gap.value <= |b|)
    ensures Read(Cat(t, Colon(rest)), b, gap) == Read(rest, Cat(b, GroupBytes(t)), gap)
  {
    ColonTail(rest);
    hide Colon;
    XRunOf(t, Colon(rest));
    var s := t + Colon(rest);
    assert s[|t| + 1..] == Colon(rest)[1..];
    assert s[|t|] == ':' && s[|t| + 1..] == rest;
  }

  lemma ReadLastGroup(t: string, b: seq<UChar>, gap: Option<nat>)
    requires Group(t) && |b| + 2 <= NS_IN6ADDRSZ && (gap.Some? ==> gap.value <= |b|)
    ensures Read(t, b, gap) == Finish(b + GroupBytes(t), gap)
  {
    XRunOf(t, "");
    assert t + "" == t && t[..|t|] == t;
  }

  lemma {:induction false} OctetIsHex(t: string)
    requires Decimal(t)
    ensures Hexadecimal(t) && (DecValue(t) <= 9 ==> HexValue(t) == DecValue(t))
    ensures DecValue(t) <= 99 ==> HexValue(t) <= 0x99
    ensures DecValue(t) <= 255 ==> HexValue(t) <= 0x999
  {
    if t != "" {
      DecNext(t, |t| - 1);
      assert t[..|t|] == t;
      var u := t[..|t| - 1];
      OctetIsHex(u);
      assert XDigitOf(t[|t| - 1]) == DigitOf(t[|t| - 1]);
    }
  }

  lemma ReadDot(s: string, h: nat, b: seq<UChar>, gap: Option<nat>)
    requires |b| + 4 <= NS_IN6ADDRSZ && (gap.Some? ==> gap.value <= |b|)
    requires h < |s| && XDigitRun(s) == h && s[h] == '.' && HexValue(s[..h]) <= 0xffff && Quad4(s).Some?
    ensures Read(s, b, gap) == Finish(b + Quad4(s).value, gap)
  {
    hide Quad4, Finish;
  }

  /** A dotted quad after its first octet. */
  function Behind(q: Dotted): (r: string)
    ensures r != "" && r[0] == '.'
  {
    "." + (q.b + "." + (q.c + "." + q.d))
  }

  lemma DottedStarts(q: Dotted)
    ensures DottedText(q) == q.a + Behind(q)
  {
    FourJoined(q.a, q.b, q.c, q.d);
    var x := q.b + "." + (q.c + "." + q.d);
    assert q.a + "." + x == q.a + ("." + x);
  }

  lemma ReadQuad(q: Dotted, b: seq<UChar>, gap: Option<nat>)
    requires Octets4(q) && |b| + 4 <= NS_IN6ADDRSZ && (gap.Some? ==> gap.value <= |b|)
    ensures Read(DottedText(q), b, gap) == Finish(b + QuadBytes(q.a, q.b, q.c, q.d), gap)
  {
    var s := DottedText(q);
    QuadIsRead(s, q.a, q.b, q.c, q.d);
    OctetIsHex(q.a);
    DottedStarts(q);
    hide Read, Finish, Quad4, Decimal, Hexadecimal, DecValue, HexValue, XDigitRun, DottedText, Behind;
    DotIsNoDigit(Behind(q));
    XRunOf(q.a, Behind(q));
    ReadDot(s, |q.a|, b, gap);
  }

  lemma DotIsNoDigit(rest: string)
    requires rest != "" && rest[0] == '.'
    ensures XDigitOf(rest[0]).None?
  {
  }

  // ----- everything the grammar allows is read -----

  function QuadSeq(i: Items): seq<string> {
    if i.quad.Some? then [DottedText(i.quad.value)] else []
  }

  lemma ItemsStart(i: Items)
    ensures i.groups == [] && i.quad.None? ==> ItemsText(i) == ""
    ensures i.groups == [] && i.quad.Some? ==> ItemsText(i) == DottedText(i.quad.value)
    ensures |i.groups| == 1 && i.quad.None? ==> ItemsText(i) == i.groups[0]
    ensures |i.groups| > 1 || (|i.groups| == 1 && i.quad.Some?) ==>
              ItemsText(i) == i.groups[0] + Colon(ItemsText(Items(i.groups[1..], i.quad)))
  {
    hide DottedText;
    var ts := i.groups + QuadSeq(i);
    if i.groups == [] {
      assert ts == QuadSeq(i);
    } else {
      assert ts[1..] == i.groups[1..] + QuadSeq(i);
      if |ts| > 1 {
        Joins(ts);
      } else {
        assert ts == i.groups;
      }
    }
  }

  lemma ItemsNonempty(i: Items)
    requires ItemsOk(i) && (i.groups != [] || i.quad.Some?)
    ensures ItemsText(i) != ""
  {
    ItemsStart(i);
    if i.quad.Some? {
      DottedStarts(i.quad.value);
    }
    hide Joined, DottedText;
  }

  /** Items that fit are read as their bytes. */
  lemma {:induction false} ReadItems(i: Items, b: seq<UChar>, gap: Option<nat>)
    requires ItemsOk(i) && |b| + |ItemsBytes(i)| <= NS_IN6ADDRSZ && (gap.Some? ==> gap.value <= |b|)
    ensures Read(ItemsText(i), b, gap) == Finish(Cat(b, ItemsBytes(i)), gap)
    decreases |i.groups|
  {
    ItemsStart(i);
    hide Finish, DottedText, Joined, Octet, Group, HexValue, Hexadecimal, Decimal, DecValue;
    if i.groups == [] {
      assert b + ItemsBytes(i) == b + QuadPart(i);
      if i.quad.Some? {
        ReadQuad(i.quad.value, b, gap);
      } else {
        assert b + [] == b;
      }
    } else {
      var t, rest := i.groups[0], Items(i.groups[1..], i.quad);
      assert b + ItemsBytes(i) == (b + GroupBytes(t)) + ItemsBytes(rest) by {
        assert ItemsBytes(i) == GroupBytes(t) + ItemsBytes(rest);
      }
      if |i.groups| == 1 && i.quad.None? {
        assert ItemsBytes(rest) == [];
        assert (b + GroupBytes(t)) + [] == b + GroupBytes(t);
        ReadLastGroup(t, b, gap);
      } else {
        ItemsNonempty(rest);
        ReadGroup(t, ItemsText(rest), b, gap);
        ReadItems(rest, b + GroupBytes(t), gap);
      }
    }
  }

  function QuadPart(i: Items): seq<UChar>
    requires ItemsOk(i)
  {
    match i.quad
    case None => []
    case Some(q) => QuadBytes(q.a, q.b, q.c, q.d)
  }

  lemma ReadGap(rest: string, b: seq<UChar>)
    requires |b| <= NS_IN6ADDRSZ
    ensures Read(Colon(rest), b, None) == Read(rest, b, Some(|b|))
  {
    ColonTail(rest);
    hide Colon;
    var s := Colon(rest);
    assert XDigitRun(s) == 0;
    hide HexValue;
  }

  /** The groups before a `::` are read as their bytes. */
  lemma {:induction false} ReadLeft(left: seq<string>, rest: string, b: seq<UChar>)
    requires Groups(left) && left != [] && |b| + 2 * |left| <= NS_IN6ADDRSZ
    ensures Read(Cat(Joined(left), Colon(Colon(rest))), b, None)
         == Read(rest, Cat(b, GroupsBytes(left)), Some(|b| + 2 * |left|))
    decreases |left|
  {
    var t, more := left[0], left[1..];
    LeftHead(left, b);
    if more == [] {
      ReadLeftLast(t, rest, b);
    } else {
      ReadLeft(more, rest, Cat(b, GroupBytes(t)));
      Joins(left);
      hide Read, Group, Colon, GroupsBytes, Joined, GroupBytes, Cat, Groups;
      ReadLeftMore(t, Joined(more), rest, b);
    }
  }

  lemma ReadLeftLast(t: string, rest: string, b: seq<UChar>)
    requires Group(t) && |b| + 2 <= NS_IN6ADDRSZ
    ensures Read(Cat(t, Colon(Colon(rest))), b, None) == Read(rest, Cat(b, GroupBytes(t)), Some(|b| + 2))
  {
    hide Read, Group, Colon, GroupBytes, Cat;
    ReadGroup(t, Colon(rest), b, None);
    ReadGap(rest, Cat(b, GroupBytes(t)));
  }

  lemma ReadLeftMore(t: string, more: string, rest: string, b: seq<UChar>)
    requires Group(t) && |b| + 2 <= NS_IN6ADDRSZ
    ensures Read(Cat(Cat(t, Colon(more)), Colon(Colon(rest))), b, None)
         == Read(Cat(more, Colon(Colon(rest))), Cat(b, GroupBytes(t)), None)
  {
    hide Read, Group, Colon, GroupBytes, Cat;
    ColonLater(t, more, Colon(Colon(rest)));
    ReadGroup(t, Cat(more, Colon(Colon(rest))), b, None);
  }

  lemma LeftHead(left: seq<string>, b: seq<UChar>)
    requires Groups(left) && left != []
    ensures Cat(b, GroupsBytes(left)) == Cat(Cat(b, GroupBytes(left[0])), GroupsBytes(left[1..]))
    ensures left[1..] == [] ==> Joined(left) == left[0] && Cat(b, GroupsBytes(left)) == Cat(b, GroupBytes(left[0]))
  {
    hide GroupBytes;
    if left[1..] == [] {
      assert GroupsBytes(left[1..]) == [];
      assert GroupBytes(left[0]) + [] == GroupBytes(left[0]);
    }
    assert b + (GroupBytes(left[0]) + GroupsBytes(left[1..])) == (b + GroupBytes(left[0])) + GroupsBytes(left[1..]);
  }

  lemma ColonLater(t: string, u: string, v: string)
    ensures Cat(Cat(t, Colon(u)), v) == Cat(t, Colon(Cat(u, v)))
  {
    assert (t + (":" + u)) + v == t + (":" + (u + v));
  }

  lemma TextStarts(t: Tree)
    requires TreeOk(t)
    ensures t.Full? || t.left != [] ==> Text(t) != "" && XDigitOf(Text(t)[0]).Some?
    ensures t.Short? ==> Text(t) == Cat(Joined(t.left), Colon(Colon(ItemsText(t.right))))
    ensures t.Short? && t.left == [] ==> Text(t) == Colon(Colon(ItemsText(t.right)))
  {
    match t
    case Full(all) =>
      ItemsStart(all);
      assert all.groups != [];
    case Short(left, right) =>
      assert "" + "::" == "::";
      assert Joined(left) + "::" + ItemsText(right) == Joined(left) + Colon(Colon(ItemsText(right)));
      if |left| > 1 {
        Joins(left);
      }
  }

  lemma FullIsRead(all: Items)
    requires TreeOk(Full(all))
    ensures Pton6(Text(Full(all))) == Some(Bytes(Full(all)))
  {
    ColonIsNoDigit();
    TextStarts(Full(all));
    TextFull(all);
    PtonPlain(ItemsText(all));
    CatNothing(ItemsBytes(all));
    ReadItems(all, [], None);
    FinishFull(ItemsBytes(all));
    hide Read, Finish, ItemsText, ItemsBytes, Pton6, Text, Cat;
  }

  lemma ShortIsRead(left: seq<string>, right: Items)
    requires TreeOk(Short(left, right))
    ensures Pton6(Text(Short(left, right))) == Some(Bytes(Short(left, right)))
  {
    var b := GroupsBytes(left);
    var rest := ItemsText(right);
    TextStarts(Short(left, right));
    FinishGap(b, ItemsBytes(right));
    hide Read, Joined, DottedText, Octet, Group, Colon, Finish, Cat, Pton6, Text, ItemsText;
    if left == [] {
      NoGroups();
      PtonColons(rest);
      ReadGap(rest, []);
    } else {
      ColonIsNoDigit();
      PtonPlain(Text(Short(left, right)));
      CatNothing(b);
      ReadLeft(left, rest, []);
    }
    ReadItems(right, b, Some(|b|));
  }

  /** Every text of the grammar is read as the bytes it denotes. */
  lemma EveryTreeIsRead(t: Tree)
    requires TreeOk(t)
    ensures Pton6(Text(t)) == Some(Bytes(t))
  {
    hide Pton6, Text, Bytes, TreeOk;
    match t
    case Full(all) => FullIsRead(all);
    case Short(left, right) => ShortIsRead(left, right);
  }

  lemma TextFull(all: Items)
    ensures Text(Full(all)) == ItemsText(all)
  {
  }

  lemma CatNothing<T>(a: seq<T>)
    ensures Cat([], a) == a && Cat(a, []) == a
  {
  }

  lemma FinishFull(b: seq<UChar>)
    requires |b| == NS_IN6ADDRSZ
    ensures Finish(b, None) == Some(b)
  {
  }

  lemma NoGroups()
    ensures GroupsBytes([]) == []
  {
  }

  lemma ColonIsNoDigit()
    ensures XDigitOf(':').None?
  {
  }

  lemma FinishGap(b: seq<UChar>, r: seq<UChar>)
    requires |b| + |r| <= NS_IN6ADDRSZ - 2
    ensures Finish(Cat(b, r), Some(|b|)) == Some(b + Zeros(NS_IN6ADDRSZ - |b| - |r|) + r)
  {
    assert (b + r)[..|b|] == b && (b + r)[|b|..] == r;
  }

  // ----- only what the grammar allows is read -----

  /** A text that is read starts with one of five things. */
  lemma ReadCases(s: string, b: seq<UChar>, gap: Option<nat>) returns (h: nat)
    requires |b| <= NS_IN6ADDRSZ && (gap.Some? ==> gap.value <= |b|) && Read(s, b, gap).Some?
    ensures h <= |s| && (h > 0 ==> Group(s[..h]))
    ensures h == |s| && h == 0 ==> Read(s, b, gap) == Finish(b, gap)
    ensures h == |s| && h > 0 ==> |b| + 2 <= NS_IN6ADDRSZ && Read(s, b, gap) == Finish(b + GroupBytes(s[..h]), gap)
    ensures h < |s| ==> s[h] == ':' || s[h] == '.'
    ensures h < |s| && s[h] == ':' && h == 0 ==> gap.None? && Read(s, b, gap) == Read(s[1..], b, Some(|b|))
    ensures h < |s| && s[h] == ':' && h > 0 ==>
              h + 1 < |s| && |b| + 2 <= NS_IN6ADDRSZ && Read(s, b, gap) == Read(s[h + 1..], b + GroupBytes(s[..h]), gap)
    ensures h < |s| && s[h] == '.' ==>
              |b| + 4 <= NS_IN6ADDRSZ && Quad4(s).Some? && Read(s, b, gap) == Finish(b + Quad4(s).value, gap)
  {
    h := XDigitRun(s);
    hide Quad4, Finish, HexValue, Hexadecimal;
  }

  lemma SplitAt(s: string, h: nat)
    requires h < |s| && s[h] == ':'
    ensures s == s[..h] + Colon(s[h + 1..])
  {
    assert s == s[..h] + [s[h]] + s[h + 1..];
  }

  /** After a `::` only items are read. */
  lemma {:induction false} ReadIsItems(s: string, b: seq<UChar>, gap: Option<nat>) returns (i: Items)
    requires |b| <= NS_IN6ADDRSZ && gap.Some? && gap.value <= |b| && Read(s, b, gap).Some?
    ensures ItemsOk(i) && s == ItemsText(i) && |b| + |ItemsBytes(i)| <= NS_IN6ADDRSZ
    ensures Read(s, b, gap) == Finish(b + ItemsBytes(i), gap)
    decreases |s|
  {
    var h := ReadCases(s, b, gap);
    hide Read, Finish, Group, Colon, Quad4, DottedText, GroupBytes, Octet;
    if h == |s| {
      i := if h == 0 then Items([], None) else Items([s], None);
      assert s[..h] == s;
      if h > 0 {
        OneGroup(s);
      }
      ItemsStart(i);
      OneItem(i, b);
    } else if s[h] == ':' {
      var more := ReadIsItems(s[h + 1..], b + GroupBytes(s[..h]), gap);
      SplitAt(s, h);
      i := GroupFirst(s[..h], more, b);
    } else {
      i := QuadItem(s, b);
    }
  }

  lemma OneItem(i: Items, b: seq<UChar>)
    requires ItemsOk(i) && i.quad.None? && |i.groups| <= 1
    ensures i.groups == [] ==> b + ItemsBytes(i) == b
    ensures i.groups != [] ==> b + ItemsBytes(i) == b + GroupBytes(i.groups[0])
  {
    hide GroupBytes;
    if i.groups != [] {
      assert GroupsBytes(i.groups[1..]) == [];
    }
  }

  lemma GroupFirst(t: string, more: Items, b: seq<UChar>) returns (i: Items)
    requires Group(t) && ItemsOk(more) && ItemsText(more) != ""
    ensures ItemsOk(i) && ItemsText(i) == t + Colon(ItemsText(more))
    ensures b + ItemsBytes(i) == (b + GroupBytes(t)) + ItemsBytes(more)
  {
    hide Group, GroupBytes, Colon, Octet;
    i := Items([t] + more.groups, more.quad);
    assert i.groups[1..] == more.groups;
    ItemsStart(i);
    if more.groups == [] && more.quad.None? {
      ItemsStart(more);
      assert false;
    }
    hide DottedText, Joined;
    assert Items(i.groups[1..], i.quad) == more;
    assert ItemsBytes(i) == GroupBytes(t) + ItemsBytes(more);
  }

  lemma QuadItem(s: string, b: seq<UChar>) returns (i: Items)
    requires Quad4(s).Some?
    ensures ItemsOk(i) && ItemsText(i) == s && |ItemsBytes(i)| == 4 && b + ItemsBytes(i) == b + Quad4(s).value
  {
    var w, x, y, z := ReadIsQuad(s);
    i := Items([], Some(Dotted(w, x, y, z)));
    ItemsStart(i);
    hide Quad4, Octet, DecValue;
    assert [] + QuadPart(i) == QuadPart(i);
  }

  /** Before any `::` either items are read to the end, or groups up to a `::` and items after it. */
  lemma {:induction false} ReadIsTree(s: string, b: seq<UChar>) returns (short: bool, left: seq<string>, i: Items)
    requires |b| <= NS_IN6ADDRSZ && Read(s, b, None).Some?
    ensures ItemsOk(i) && Groups(left) && |b| + 2 * |left| + |ItemsBytes(i)| <= NS_IN6ADDRSZ
    ensures !short ==> left == [] && s == ItemsText(i) && Read(s, b, None) == Finish(b + ItemsBytes(i), None)
    ensures short ==> s == if left == [] then Colon(ItemsText(i)) else Joined(left) + Colon(Colon(ItemsText(i)))
    ensures short ==> Read(s, b, None) == Finish(b + GroupsBytes(left) + ItemsBytes(i), Some(|b| + 2 * |left|))
    decreases |s|
  {
    var h := ReadCases(s, b, None);
    hide Read, Finish, Group, Colon, Quad4, DottedText, GroupBytes, Octet, Joined, ItemsText, ItemsBytes, GroupsBytes, Groups,
         ItemsOk;
    NoLeft(b);
    short, left := false, [];
    if h == |s| {
      i := if h == 0 then Items([], None) else Items([s], None);
      assert s[..h] == s;
      if h > 0 {
        OneGroup(s);
      }
      ItemsStart(i);
      OneItem(i, b);
    } else if s[h] == '.' {
      i := QuadItem(s, b);
    } else if h == 0 {
      SplitAt(s, 0);
      assert s[..0] + Colon(s[1..]) == Colon(s[1..]);
      short := true;
      i := ReadIsItems(s[1..], b, Some(|b|));
      assert b + [] == b;
    } else {
      var t := s[..h];
      SplitAt(s, h);
      var l;
      short, l, i := ReadIsTree(s[h + 1..], b + GroupBytes(t));
      if short {
        left := [t] + l;
        LeftMore(t, l, b, ItemsText(i));
      } else {
        i := GroupFirst(t, i, b);
      }
    }
  }

  lemma NoLeft(b: seq<UChar>)
    ensures Groups([]) && GroupsBytes([]) == [] && b + [] == b
  {
  }

  lemma LeftMore(t: string, l: seq<string>, b: seq<UChar>, rest: string)
    requires Group(t) && Groups(l)
    ensures Groups([t] + l) && b + GroupsBytes([t] + l) == (b + GroupBytes(t)) + GroupsBytes(l)
    ensures t + Colon(if l == [] then Colon(rest) else Joined(l) + Colon(Colon(rest)))
         == Joined([t] + l) + Colon(Colon(rest))
  {
    hide Group, Colon, GroupBytes;
    var left := [t] + l;
    assert left[1..] == l;
    LeftHead(left, b);
    if l != [] {
      Joins(left);
      ColonLater(t, Joined(l), Colon(Colon(rest)));
    }
  }

  /** Only texts of the grammar are read. */
  lemma OnlyTreesAreRead(src: string) returns (t: Tree)
    requires Pton6(src).Some?
    ensures TreeOk(t) && Text(t) == src && Pton6(src) == Some(Bytes(t))
  {
    hide Read, Group, Colon, DottedText, GroupBytes, Octet, Joined;
    if src != "" && src[0] == ':' {
      SplitAt(src, 0);
      assert src[..0] + Colon(src[1..]) == Colon(src[1..]);
      var short, left, i := ReadIsTree(src[1..], []);
      t := TreeOf(src, src[1..], short, left, i, true);
    } else {
      var short, left, i := ReadIsTree(src, []);
      t := TreeOf(src, src, short, left, i, false);
    }
  }

  lemma TreeOf(src: string, s: string, short: bool, left: seq<string>, i: Items, colon: bool) returns (t: Tree)
    requires ItemsOk(i) && Groups(left) && 2 * |left| + |ItemsBytes(i)| <= NS_IN6ADDRSZ
    requires Read(s, [], None).Some?
    requires !short ==> left == [] && s == ItemsText(i) && Read(s, [], None) == Finish([] + ItemsBytes(i), None)
    requires short ==> s == if left == [] then Colon(ItemsText(i)) else Joined(left) + Colon(Colon(ItemsText(i)))
    requires short ==> Read(s, [], None) == Finish([] + GroupsBytes(left) + ItemsBytes(i), Some(2 * |left|))
    requires if colon then src == Colon(s) && s != "" && s[0] == ':' else src == s && (s != "" ==> s[0] != ':')
    ensures TreeOk(t) && Text(t) == src && Read(s, [], None) == Some(Bytes(t))
  {
    hide Read, Group, Colon, DottedText, GroupBytes, Octet, Joined, Finish, ItemsText, ItemsBytes, GroupsBytes, Groups;
    if !short {
      if colon {
        ColonFirst(i);
        assert false;
      }
      t := Full(i);
      assert [] + ItemsBytes(i) == ItemsBytes(i);
      FullFits(ItemsBytes(i));
      FinishFull(ItemsBytes(i));
    } else {
      t := Short(left, i);
      assert [] + GroupsBytes(left) == GroupsBytes(left);
      EvenBytes(i);
      ShortFits(GroupsBytes(left), ItemsBytes(i));
      FinishGap(GroupsBytes(left), ItemsBytes(i));
      TextStarts(t);
      ColonIsNoDigit();
      if left != [] {
        GroupsEnd(left);
      }
    }
  }

  lemma OneGroup(s: string)
    requires Group(s)
    ensures Groups([s])
  {
    hide Group;
    assert [s][1..] == [];
  }

  lemma EvenBytes(i: Items)
    requires ItemsOk(i)
    ensures |ItemsBytes(i)| % 2 == 0
  {
  }

  lemma FullFits(b: seq<UChar>)
    requires |b| <= NS_IN6ADDRSZ && Finish(b, None).Some?
    ensures |b| == NS_IN6ADDRSZ
  {
  }

  /** Text that starts with groups does not start with a colon. */
  lemma GroupsEnd(left: seq<string>)
    requires Groups(left) && left != []
    ensures Joined(left) != "" && Joined(left)[0] != ':'
  {
    ColonIsNoDigit();
    if |left| > 1 {
      Joins(left);
    }
  }

  lemma ColonFirst(i: Items)
    requires ItemsOk(i)
    ensures ItemsText(i) != "" ==> ItemsText(i)[0] != ':'
  {
    ItemsStart(i);
    ColonIsNoDigit();
    if i.groups == [] && i.quad.Some? {
      DottedStarts(i.quad.value);
    }
  }

  lemma ShortFits(b: seq<UChar>, r: seq<UChar>)
    requires |b| + |r| <= NS_IN6ADDRSZ && |b| % 2 == 0 && |r| % 2 == 0 && Finish(b + r, Some(|b|)).Some?
    ensures |b| + |r| <= NS_IN6ADDRSZ - 2
  {
  }

  /** A `::` in an address that is already full is refused, not ignored. */
  lemma GapInFullAddress(left: seq<string>, right: Items)
    requires Groups(left) && ItemsOk(right) && |GroupsBytes(left)| + |ItemsBytes(right)| == NS_IN6ADDRSZ
    ensures Pton6(Text(Short(left, right))) == None
  {
    var b, rest := GroupsBytes(left), ItemsText(right);
    GapText(left, right);
    hide Text, Read, Group, Colon, DottedText, GroupBytes, Octet, Joined, ItemsText, ItemsBytes, GroupsBytes, Groups, Pton6,
         Finish, Cat;
    if left == [] {
      NoGroups();
      PtonColons(rest);
      ReadGap(rest, []);
    } else {
      GroupsEnd(left);
      PtonPlain(Cat(Joined(left), Colon(Colon(rest))));
      CatNothing(b);
      ReadLeft(left, rest, []);
    }
    ReadItems(right, b, Some(|b|));
    NoRoom(Cat(b, ItemsBytes(right)), |b|);
  }

  lemma PtonColons(s: string)
    ensures Pton6(Colon(Colon(s))) == Read(Colon(s), [], None)
  {
    ColonTail(Colon(s));
    hide Colon, Read;
  }

  lemma PtonPlain(s: string)
    requires s != "" && s[0] != ':'
    ensures Pton6(s) == Read(s, [], None)
  {
  }

  lemma NoRoom(b: seq<UChar>, gap: nat)
    requires |b| == NS_IN6ADDRSZ && gap <= |b|
    ensures Finish(b, Some(gap)) == None
  {
  }

  lemma GapText(left: seq<string>, right: Items)
    ensures Text(Short(left, right)) == Cat(Joined(left), Colon(Colon(ItemsText(right))))
    ensures left == [] ==> Text(Short(left, right)) == Colon(Colon(ItemsText(right)))
  {
    hide Joined, ItemsText;
    var rest := ItemsText(right);
    assert "::" + rest == Colon(Colon(rest));
    assert Joined(left) + "::" + rest == Joined(left) + ("::" + rest);
    if left == [] {
      EmptyJoin();
    }
  }

  lemma EmptyJoin()
    ensures Joined([]) == ""
  {
  }
}
