/** The bit-at-a-time CRC model of APPS/crc/crcmodel.c and the table generator of APPS/crc/buildcrc.c. */
module CrcModel {
  import opened CrcBits
  import opened WordBits

  /** The bottom `b` bits in the opposite order, the others unchanged. */
  ghost predicate Reflected(v: bv32, r: bv32, b: nat) {
    && (forall k :: 0 <= k < b ==> (Bit(r, k) <==> Bit(v, b - 1 - k)))
    && (forall k :: b <= k < 32 ==> (Bit(r, k) <==> Bit(v, k)))
  }

  /** `t` is `v` moved down by `i` bits. */
  ghost predicate Moved(v: bv32, t: bv32, i: nat) {
    forall k {:trigger Bit(t, k)} :: 0 <= k < 32 - i ==> (Bit(t, k) <==> Bit(v, k + i))
  }

  /** The lowest `i` bits of `v` have reached their places among the bottom `b` bits of `r`. */
  ghost predicate Placed(v: bv32, r: bv32, i: nat, b: nat) {
    && (forall k {:trigger Bit(r, k)} :: 0 <= k < 32 && b - i <= k < b ==> (Bit(r, k) <==> Bit(v, b - 1 - k)))
    && (forall k {:trigger Bit(r, k)} :: 0 <= k < 32 && !(b - i <= k < b) ==> (Bit(r, k) <==> Bit(v, k)))
  }

  lemma MovedOn(v: bv32, t: bv32, i: nat)
    requires i < 32 && Moved(v, t, i)
    ensures Moved(v, Half(t), i + 1)
  {
    hide Bit, Half;
    forall k {:trigger Bit(Half(t), k)} | 0 <= k < 31 - i
      ensures Bit(Half(t), k) <==> Bit(v, k + (i + 1))
    {
      BitOfHalf(t, k);
    }
  }

  lemma PlacedAt(was: bv32, m: bv32, top: bool, j: nat, k: nat)
    requires j < 32 && k < 32
    requires m == if top then SetMask(was, Bitmask(j)) else ClearMask(was, Bitmask(j))
    ensures Bit(m, k) <==> if k == j then top else Bit(was, k)
  {
    hide Bit, Bitmask, SetMask, ClearMask;
    BitOfSet(was, j, k);
  }

  lemma PlacedOne(v: bv32, was: bv32, r: bv32, t: bv32, i: nat, b: nat)
    requires i < b <= 32 && Moved(v, t, i) && Placed(v, was, i, b)
    requires r == if And(t, 1) != 0 then SetMask(was, Bitmask(b - 1 - i)) else ClearMask(was, Bitmask(b - 1 - i))
    ensures Placed(v, r, i + 1, b)
  {
    hide Bit, Bitmask, And, SetMask, ClearMask, Placed;
    BottomBit(t);
    assert Bit(t, 0) <==> Bit(v, 0 + i);
    forall k | 0 <= k < 32
      ensures Bit(r, k) <==> if k == b - 1 - i then Bit(v, i) else Bit(was, k)
    {
      PlacedAt(was, r, And(t, 1) != 0, b - 1 - i, k);
    }
    PlacedMore(v, was, r, i, b);
  }

  lemma PlacedMore(v: bv32, was: bv32, r: bv32, i: nat, b: nat)
    requires i < b <= 32 && Placed(v, was, i, b)
    requires forall k :: 0 <= k < 32 ==> (Bit(r, k) <==> if k == b - 1 - i then Bit(v, i) else Bit(was, k))
    ensures Placed(v, r, i + 1, b)
  {
    hide Bit;
  }

  /** The value with its bottom `b` bits reflected, bit by bit. */
  method Reflect(v: bv32, b: nat) returns (r: bv32)
    requires b <= 32
    ensures Reflected(v, r, b)
  {
    hide Bit, Bitmask, And, SetMask, ClearMask, Half, Moved, Placed;
    r := v;
    var t := v;
    var i := 0;
    StartOver(v, b);
    while i < b
      invariant 0 <= i <= b
      invariant Moved(v, t, i)
      invariant Placed(v, r, i, b)
    {
      ghost var was := r;
      if And(t, 1) != 0 {
        r := SetMask(r, Bitmask(b - 1 - i));
      } else {
        r := ClearMask(r, Bitmask(b - 1 - i));
      }
      PlacedOne(v, was, r, t, i, b);
      MovedOn(v, t, i);
      t := Half(t);
      i := i + 1;
    }
    AllPlaced(v, r, b);
  }

  lemma StartOver(v: bv32, b: nat)
    ensures Moved(v, v, 0) && Placed(v, v, 0, b)
  {
  }

  lemma AllPlaced(v: bv32, r: bv32, b: nat)
    requires b <= 32 && Placed(v, r, b, b)
    ensures Reflected(v, r, b)
  {
    hide Bit;
  }

  lemma BottomBit(t: bv32)
    ensures Bit(t, 0) <==> And(t, 1) != 0
  {
  }

  // ----- reflection is mirroring -----

  lemma MirrorAnd(v: bv32, m: bv32)
    ensures And(Mirror(v), m) == Mirror(And(v, Mirror(m)))
  {
  }

  lemma MirrorNothing(v: bv32)
    ensures Mirror(v) == 0 <==> v == 0
  {
    MirrorOfMirror(v);
    assert Mirror(0) == 0;
  }

  lemma MirrorDouble(m: bv32)
    requires And(m, 0x80000000) == 0
    ensures Mirror(Double(m)) == Half(Mirror(m))
  {
    MirrorEven(m);
  }

  lemma {:induction false} MirrorMask(i: nat)
    requires i < 32
    ensures Mirror(Bitmask(i)) == Bitmask(31 - i)
  {
    if i == 0 {
      Mask31();
      assert Mirror(1) == 0x80000000;
    } else {
      MirrorMask(i - 1);
      LowMask(i - 1);
      LowMask(31 - i);
      hide Mirror, And, Half, Double;
      MirrorDouble(Bitmask(i - 1));
      HalfAgainstDouble(0, Bitmask(31 - i));
    }
  }

  lemma BitOfMirror(v: bv32, i: nat)
    requires i < 32
    ensures Bit(Mirror(v), i) <==> Bit(v, 31 - i)
  {
    hide Mirror, And, Bitmask;
    MirrorAnd(v, Bitmask(i));
    MirrorMask(i);
    MirrorNothing(And(v, Bitmask(31 - i)));
  }

  /** Reflecting all 32 bits is mirroring. */
  lemma ReflectedWord(v: bv32, r: bv32)
    requires Reflected(v, r, 32)
    ensures r == Mirror(v)
  {
    hide Bit, Mirror;
    forall i: nat | i < 32
      ensures Bit(r, i) <==> Bit(Mirror(v), i)
    {
      BitOfMirror(v, i);
    }
    SameBits(r, Mirror(v));
  }

  lemma ByteBits(v: bv32, i: nat)
    requires v < 256 && 8 <= i < 32
    ensures !Bit(v, i)
  {
    SmallAgainstUpper(v);
    hide And, Bitmask;
    NoBitAbove(v, 8, i);
  }

  lemma SmallAgainstUpper(v: bv32)
    requires v < 256
    ensures And(v, Upper(8)) == 0
  {
  }

  lemma {:induction false} NoBitAbove(v: bv32, n: nat, i: nat)
    requires And(v, Upper(n)) == 0 && n <= i
    ensures And(v, Bitmask(i)) == 0
    decreases i - n
  {
    UpperSplits(n);
    AndSet(v, Upper(n + 1), Bitmask(n));
    NothingInUnion(And(v, Upper(n + 1)), And(v, Bitmask(n)));
    hide And, SetMask, Upper, Bitmask;
    if n < i {
      NoBitAbove(v, n + 1, i);
    }
  }

  lemma NothingInUnion(a: bv32, b: bv32)
    ensures SetMask(a, b) == 0 ==> a == 0 && b == 0
  {
  }

  /** A reflected byte, moved to the top of the word, is the byte's mirror image. */
  lemma ReflectedByte(v: bv32, r: bv32)
    requires v < 256 && Reflected(v, r, 8)
    ensures Shl(r, 24) == Mirror(v)
  {
    hide Bit, Mirror, Shl;
    forall i: nat | i < 32
      ensures Bit(Shl(r, 24), i) <==> Bit(Mirror(v), i)
    {
      BitOfShl(r, 24, i);
      BitOfMirror(v, i);
      if i < 24 {
        ByteBits(v, 31 - i);
      }
    }
    SameBits(Shl(r, 24), Mirror(v));
  }

  // ----- words narrower than 32 bits, kept at the top of a word -----

  /** The low `w` bits of a word moved to the top. */
  function Aligned(v: bv32, w: nat): bv32
    requires w <= 32
  {
    Shl(v, 32 - w)
  }

  function Less(v: bv32): bv32 {
    v - 1
  }

  /** The word whose low `w` bits are set, computed without shifting by the whole width. */
  function WidMask(w: nat): bv32
    requires 1 <= w
  {
    SetMask(Double(Less(Bitmask(w - 1))), 1)
  }

  ghost predicate InWidth(v: bv32, w: nat)
    requires 1 <= w
  {
    And(v, WidMask(w)) == v
  }

  lemma {:induction false} ShlXor(a: bv32, b: bv32, n: nat)
    ensures Shl(Xor(a, b), n) == Xor(Shl(a, n), Shl(b, n))
  {
    if n > 0 {
      hide Double, Xor;
      ShlXor(a, b, n - 1);
      DoubleXor(Shl(a, n - 1), Shl(b, n - 1));
    }
  }

  lemma {:induction false} ShlAdd(a: bv32, m: nat, n: nat)
    ensures Shl(Shl(a, m), n) == Shl(a, m + n)
  {
    if n > 0 {
      hide Double;
      ShlAdd(a, m, n - 1);
    }
  }

  lemma DoubleIsShl(a: bv32)
    ensures Shl(a, 1) == Double(a)
  {
    hide Double;
    assert Shl(a, 0) == a;
  }

  lemma ShlDouble(a: bv32, n: nat)
    ensures Shl(Double(a), n) == Double(Shl(a, n))
  {
    hide Double;
    DoubleIsShl(a);
    DoubleIsShl(Shl(a, n));
    ShlAdd(a, 1, n);
    ShlAdd(a, n, 1);
  }

  lemma DoubleXor(a: bv32, b: bv32)
    ensures Double(Xor(a, b)) == Xor(Double(a), Double(b))
  {
  }

  lemma DoubleLess(x: bv32)
    ensures Less(Double(x)) == SetMask(Double(Less(x)), 1)
  {
  }

  lemma BitOfSetOne(x: bv32, k: nat)
    requires k < 32
    ensures Bit(SetMask(Double(x), 1), k) <==> k == 0 || Bit(x, k - 1)
  {
    hide Double;
    BitOfSet(Double(x), 0, k);
    BitOfDouble(x, k);
  }

  lemma {:induction false} BitOfLess(n: nat, k: nat)
    requires n < 32 && k < 32
    ensures Bit(Less(Bitmask(n)), k) <==> k < n
  {
    hide Double, SetMask, Less, Bit;
    if n == 0 {
      LessOne();
      NoBits(k);
    } else {
      DoubleLess(Bitmask(n - 1));
      BitOfSetOne(Less(Bitmask(n - 1)), k);
      if k > 0 {
        BitOfLess(n - 1, k - 1);
      }
    }
  }

  lemma LessOne()
    ensures Less(Bitmask(0)) == 0
  {
  }

  lemma NoBits(k: nat)
    ensures !Bit(0, k)
  {
    hide Bitmask;
  }

  /** The width mask has exactly the bits below the width. */
  lemma BitOfWidMask(w: nat, k: nat)
    requires 1 <= w <= 32 && k < 32
    ensures Bit(WidMask(w), k) <==> k < w
  {
    hide Double, SetMask, Less, Bit;
    BitOfSetOne(Less(Bitmask(w - 1)), k);
    if k > 0 {
      BitOfLess(w - 1, k - 1);
    }
  }

  lemma AndTwo(x: bv32, y: bv32, m: bv32)
    ensures And(And(x, y), m) == And(And(x, m), And(y, m))
  {
  }

  lemma AndSame(m: bv32)
    ensures And(m, m) == m && And(m, 0) == 0 && And(0, m) == 0
  {
  }

  lemma BitOfAnd(x: bv32, y: bv32, k: nat)
    requires k < 32
    ensures Bit(And(x, y), k) <==> Bit(x, k) && Bit(y, k)
  {
    hide And, Bitmask;
    AndTwo(x, y, Bitmask(k));
    MaskOrNothing(x, k);
    MaskOrNothing(y, k);
    AndSame(Bitmask(k));
    AndSame(0);
  }

  lemma BitOfMasked(v: bv32, w: nat, k: nat)
    requires 1 <= w <= 32 && k < 32
    ensures Bit(And(v, WidMask(w)), k) <==> k < w && Bit(v, k)
  {
    hide And, WidMask, Bit;
    BitOfAnd(v, WidMask(w), k);
    BitOfWidMask(w, k);
  }

  /** Masking to the width only drops what alignment drops anyway. */
  lemma AlignedMasked(v: bv32, w: nat)
    requires 1 <= w <= 32
    ensures Aligned(And(v, WidMask(w)), w) == Aligned(v, w)
  {
    hide And, WidMask, Bit, Shl;
    var m := And(v, WidMask(w));
    forall k: nat {:trigger Bit(Shl(m, 32 - w), k)} | k < 32
      ensures Bit(Shl(m, 32 - w), k) <==> Bit(Shl(v, 32 - w), k)
    {
      BitOfShl(m, 32 - w, k);
      BitOfShl(v, 32 - w, k);
      if k >= 32 - w {
        BitOfMasked(v, w, k - (32 - w));
      }
    }
    SameBits(Shl(m, 32 - w), Shl(v, 32 - w));
  }

  lemma MaskedInWidth(v: bv32, w: nat)
    requires 1 <= w
    ensures InWidth(And(v, WidMask(w)), w)
  {
    hide WidMask;
    AndTwice(v, WidMask(w));
  }

  lemma AndTwice(v: bv32, m: bv32)
    ensures And(And(v, m), m) == And(v, m)
  {
  }

  /** Within its width a word can be read back from its aligned form. */
  lemma AlignedInjective(u: bv32, v: bv32, w: nat)
    requires 1 <= w <= 32 && InWidth(u, w) && InWidth(v, w) && Aligned(u, w) == Aligned(v, w)
    ensures u == v
  {
    hide And, WidMask, Bit, Shl;
    forall k: nat | k < 32
      ensures Bit(u, k) <==> Bit(v, k)
    {
      BitOfMasked(u, w, k);
      BitOfMasked(v, w, k);
      if k < w {
        BitOfShl(u, 32 - w, k + (32 - w));
        BitOfShl(v, 32 - w, k + (32 - w));
      }
    }
    SameBits(u, v);
  }

  /** Reflecting the `w` bits of a register and dropping the rest is mirroring its aligned form. */
  lemma ReflectedRegister(v: bv32, r: bv32, w: nat)
    requires 1 <= w <= 32 && Reflected(v, r, w)
    ensures And(r, WidMask(w)) == Mirror(Aligned(v, w))
  {
    hide And, WidMask, Bit, Shl, Mirror;
    var m := And(r, WidMask(w));
    forall k: nat | k < 32
      ensures Bit(m, k) <==> Bit(Mirror(Shl(v, 32 - w)), k)
    {
      BitOfMasked(r, w, k);
      BitOfMirror(Shl(v, 32 - w), k);
      BitOfShl(v, 32 - w, 31 - k);
    }
    SameBits(m, Mirror(Shl(v, 32 - w)));
  }

  lemma ReflectedInWidth(v: bv32, r: bv32, w: nat)
    requires 1 <= w <= 32 && Reflected(v, r, w) && InWidth(v, w)
    ensures InWidth(r, w)
  {
    hide And, WidMask, Bit;
    forall k: nat | k < 32
      ensures Bit(And(r, WidMask(w)), k) <==> Bit(r, k)
    {
      BitOfMasked(r, w, k);
      BitOfMasked(v, w, k);
    }
    SameBits(And(r, WidMask(w)), r);
  }

  // ----- one division step at any width -----

  lemma StepIs(r: bv32, poly: bv32)
    ensures Step(r, poly) == if And(r, 0x80000000) != 0 then Xor(Double(r), poly) else Double(r)
  {
    hide Xor, Double;
    if And(r, 0x80000000) != 0 {
      StepOver(r, poly);
    } else {
      StepUnder(r, poly);
    }
  }

  lemma StepOver(r: bv32, poly: bv32)
    requires And(r, 0x80000000) != 0
    ensures Step(r, poly) == Xor(Double(r), poly)
  {
    assert r & 0x80000000 != 0;
    hide And;
  }

  lemma StepUnder(r: bv32, poly: bv32)
    requires And(r, 0x80000000) == 0
    ensures Step(r, poly) == Double(r)
  {
  }

  lemma TopBit(r: bv32, w: nat)
    requires 1 <= w <= 32
    ensures And(r, Bitmask(w - 1)) != 0 <==> And(Aligned(r, w), 0x80000000) != 0
  {
    hide And, Bitmask, Shl;
    BitOfShl(r, 32 - w, 31);
    Mask31();
  }

  lemma AlignedStep(r: bv32, poly: bv32, w: nat, next: bv32)
    requires 1 <= w <= 32
    requires next == if And(r, Bitmask(w - 1)) != 0 then Xor(Double(r), poly) else Double(r)
    ensures Aligned(next, w) == Step(Aligned(r, w), Aligned(poly, w))
  {
    hide And, Bitmask, Shl, Double, Xor, Step;
    TopBit(r, w);
    StepIs(Aligned(r, w), Aligned(poly, w));
    ShlDouble(r, 32 - w);
    ShlXor(Double(r), poly, 32 - w);
  }

  // ----- a byte -----

  /** A byte where its bits enter the register: reflected or not, at the top of the aligned word. */
  function Lead(d: bv8, refin: bool): bv32 {
    if refin then Mirror(d as bv32) else Shl(d as bv32, 24)
  }

  lemma ByteFits(d: bv8)
    ensures (d as bv32) < 256
  {
  }

  /** The aligned register after a byte. */
  function Fed(r: bv32, poly: bv32, lead: bv32): bv32 {
    Steps(Xor(r, lead), poly, 8)
  }

  /** The aligned register after a block. */
  function FedAll(r: bv32, poly: bv32, refin: bool, buf: seq<bv8>): bv32 {
    if buf == [] then r else Fed(FedAll(r, poly, refin, buf[..|buf| - 1]), poly, Lead(buf[|buf| - 1], refin))
  }

  lemma ByteLeads(uch: bv32, d: bv8, refin: bool, w: nat)
    requires 8 <= w <= 32
    requires if refin then Reflected(d as bv32, uch, 8) else uch == d as bv32
    ensures Aligned(Shl(uch, w - 8), w) == Lead(d, refin)
  {
    hide Shl, Mirror, Reflected;
    ShlAdd(uch, w - 8, 32 - w);
    ByteFits(d);
    if refin {
      ReflectedByte(d as bv32, uch);
    }
  }

  /** The parameters of the Rocksoft model and its register. */
  class Cm {
    const cm_width: nat
    const cm_poly: bv32
    const cm_init: bv32
    const cm_refin: bool
    const cm_refot: bool
    const cm_xorot: bv32
    var cm_reg: bv32

    ghost predicate Valid() {
      8 <= cm_width <= 32
    }

    constructor (width: nat, poly: bv32, init: bv32, refin: bool, refot: bool, xorot: bv32)
      requires 8 <= width <= 32
      ensures Valid()
      ensures cm_width == width && cm_poly == poly && cm_init == init
      ensures cm_refin == refin && cm_refot == refot && cm_xorot == xorot
    {
      cm_width, cm_poly, cm_init, cm_refin, cm_refot, cm_xorot := width, poly, init, refin, refot, xorot;
      cm_reg := 0;
    }

    ghost function Poly(): bv32
      requires Valid()
    {
      Aligned(cm_poly, cm_width)
    }

    ghost function Reg(): bv32
      requires Valid()
      reads this
    {
      Aligned(cm_reg, cm_width)
    }

    method Ini()
      modifies this
      ensures cm_reg == cm_init
    {
      cm_reg := cm_init;
    }

    method ReflectByte(d: bv8) returns (uch: bv32)
      ensures if cm_refin then Reflected(d as bv32, uch, 8) else uch == d as bv32
    {
      uch := d as bv32;
      if cm_refin {
        uch := Reflect(uch, 8);
      }
    }

    method Nxt(d: bv8)
      requires Valid()
      modifies this
      ensures Reg() == Fed(old(Reg()), Poly(), Lead(d, cm_refin))
      ensures InWidth(cm_reg, cm_width)
    {
      hide Bitmask, And, Shl, Double, Xor, Reflected, Mirror, Step, WidMask, Lead;
      var topbit := Bitmask(cm_width - 1);
      var uch := ReflectByte(d);
      ByteLeads(uch, d, cm_refin, cm_width);
      ShlXor(cm_reg, Shl(uch, cm_width - 8), 32 - cm_width);
      cm_reg := Xor(cm_reg, Shl(uch, cm_width - 8));
      ghost var start := Reg();
      var i := 0;
      while i < 8
        invariant 0 <= i <= 8
        invariant Reg() == Steps(start, Poly(), i)
        invariant i > 0 ==> InWidth(cm_reg, cm_width)
      {
        ghost var was := cm_reg;
        if And(cm_reg, topbit) != 0 {
          cm_reg := Xor(Double(cm_reg), cm_poly);
        } else {
          cm_reg := Double(cm_reg);
        }
        AlignedStep(was, cm_poly, cm_width, cm_reg);
        AlignedMasked(cm_reg, cm_width);
        MaskedInWidth(cm_reg, cm_width);
        cm_reg := And(cm_reg, WidMask(cm_width));
        i := i + 1;
      }
    }

    method Blk(blk: seq<bv8>)
      requires Valid()
      modifies this
      ensures Reg() == FedAll(old(Reg()), Poly(), cm_refin, blk)
      ensures blk == [] ==> cm_reg == old(cm_reg)
      ensures blk != [] ==> InWidth(cm_reg, cm_width)
    {
      hide Fed, Lead, InWidth;
      ghost var start := Reg();
      var i := 0;
      assert blk[..0] == [];
      while i < |blk|
        invariant 0 <= i <= |blk|
        invariant Reg() == FedAll(start, Poly(), cm_refin, blk[..i])
        invariant i == 0 ==> cm_reg == old(cm_reg)
        invariant i > 0 ==> InWidth(cm_reg, cm_width)
      {
        assert blk[..i + 1][..i] == blk[..i];
        Nxt(blk[i]);
        i := i + 1;
      }
      assert blk[..i] == blk;
    }

    method Crc() returns (crc: bv32)
      requires Valid() && InWidth(cm_reg, cm_width)
      ensures crc == Xor(cm_xorot, if cm_refot then Mirror(Reg()) else cm_reg)
    {
      hide Xor, Mirror, And, WidMask, Reflected, Shl;
      if cm_refot {
        var r := Reflect(cm_reg, cm_width);
        ReflectedInWidth(cm_reg, r, cm_width);
        ReflectedRegister(cm_reg, r, cm_width);
        return Xor(cm_xorot, r);
      } else {
        return Xor(cm_xorot, cm_reg);
      }
    }

    /** One entry of the table for these parameters. */
    method Tab(index: bv8) returns (r: bv32)
      requires Valid()
      ensures InWidth(r, cm_width)
      ensures !cm_refin ==> Aligned(r, cm_width) == Steps(Shl(index as bv32, 24), Poly(), 8)
      ensures cm_refin ==> r == RSteps(index as bv32, Mirror(Poly()), 8)
    {
      hide Bitmask, And, Shl, Double, Xor, Reflected, Mirror, Step, RStep, WidMask;
      var topbit := Bitmask(cm_width - 1);
      var inbyte := ReflectByte(index);
      ByteLeads(inbyte, index, cm_refin, cm_width);
      r := Shl(inbyte, cm_width - 8);
      var i := 0;
      while i < 8
        invariant 0 <= i <= 8
        invariant Aligned(r, cm_width) == Steps(Lead(index, cm_refin), Poly(), i)
      {
        ghost var was := r;
        if And(r, topbit) != 0 {
          r := Xor(Double(r), cm_poly);
        } else {
          r := Double(r);
        }
        AlignedStep(was, cm_poly, cm_width, r);
        i := i + 1;
      }
      if cm_refin {
        ghost var was := r;
        r := Reflect(r, cm_width);
        ReflectedRegister(was, r, cm_width);
        MirrorSteps(Mirror(index as bv32), Poly(), 8);
        MirrorOfMirror(index as bv32);
      } else {
        AlignedMasked(r, cm_width);
      }
      MaskedInWidth(r, cm_width);
      r := And(r, WidMask(cm_width));
    }
  }

  // ----- the stand-alone table generator -----

  /** Bits `k >= 32 - i` of `rw` are bits `31 - k` of `b`; the others are still clear. */
  ghost predicate Raised(b: bv32, rw: bv32, i: nat) {
    forall k {:trigger Bit(rw, k)} :: 0 <= k < 32 ==> (Bit(rw, k) <==> k >= 32 - i && Bit(b, 31 - k))
  }

  lemma NothingRaised(b: bv32)
    ensures Raised(b, 0, 0)
  {
    hide Bit;
    forall k {:trigger Bit(0, k)} | 0 <= k < 32
      ensures !Bit(0, k)
    {
      NoBits(k);
    }
  }

  lemma RaisedOne(v: bv32, was: bv32, rw: bv32, t: bv32, i: nat)
    requires i < 32 && Moved(v, t, i) && Raised(v, was, i)
    requires rw == if And(t, 1) != 0 then SetMask(was, Bitmask(31 - i)) else was
    ensures Raised(v, rw, i + 1)
  {
    hide Bit, Bitmask, And, SetMask;
    BottomBit(t);
    assert Bit(t, 0) <==> Bit(v, 0 + i);
    forall k {:trigger Bit(rw, k)} | 0 <= k < 32
      ensures Bit(rw, k) <==> k >= 32 - (i + 1) && Bit(v, 31 - k)
    {
      BitOfSet(was, 31 - i, k);
      assert Bit(was, k) <==> k >= 32 - i && Bit(v, 31 - k);
    }
  }

  lemma AllRaised(v: bv32, rw: bv32)
    requires Raised(v, rw, 32)
    ensures Reflected(v, rw, 32)
  {
    hide Bit;
  }

  /** All 32 bits reflected. */
  method Reflect32(v: bv32) returns (rw: bv32)
    ensures rw == Mirror(v)
  {
    hide Bitmask, And, SetMask, Half, Moved, Raised, Mirror, Placed, Reflected;
    rw := 0;
    var b := v;
    var i := 0;
    StartOver(v, 32);
    NothingRaised(v);
    while i < 32
      invariant 0 <= i <= 32
      invariant Moved(v, b, i)
      invariant Raised(v, rw, i)
    {
      ghost var was := rw;
      if And(b, 1) != 0 {
        rw := SetMask(rw, Bitmask(31 - i));
      }
      RaisedOne(v, was, rw, b, i);
      MovedOn(v, b, i);
      b := Half(b);
      i := i + 1;
    }
    AllRaised(v, rw);
    ReflectedWord(v, rw);
  }

  /** The table entry the generator prints: eight reflected division steps on the index. */
  method BuildCrcTable(index: bv8) returns (r: bv32)
    ensures r == RSteps(index as bv32, CRC32C_REFLECTED, 8)
  {
    hide And, Double, Xor, Mirror, Step, RStep;
    var rb := Reflect32(index as bv32);
    ghost var start := rb;
    var i := 0;
    while i < 8
      invariant 0 <= i <= 8
      invariant rb == Steps(start, CRC32C_POLY, i)
    {
      StepIs(rb, CRC32C_POLY);
      if And(rb, 0x80000000) != 0 {
        rb := Xor(Double(rb), CRC32C_POLY);
      } else {
        rb := Double(rb);
      }
      i := i + 1;
    }
    MirrorSteps(start, CRC32C_POLY, 8);
    MirrorOfMirror(index as bv32);
    PolyMirrored();
    r := Reflect32(rb);
  }

  lemma PolyMirrored()
    ensures Mirror(CRC32C_POLY) == CRC32C_REFLECTED
  {
  }
}
