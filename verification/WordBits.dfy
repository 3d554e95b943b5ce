/** The single bits of a 32-bit word. */
module WordBits {
  import opened CrcBits

  function And(a: bv32, b: bv32): bv32 {
    a & b
  }

  function SetMask(v: bv32, m: bv32): bv32 {
    v | m
  }

  function ClearMask(v: bv32, m: bv32): bv32 {
    v & !m
  }

  function Half(v: bv32): bv32 {
    v >> 1
  }

  function Double(v: bv32): bv32 {
    v << 1
  }

  /** The word with bit `k` set alone, and a word shifted left by `n`. */
  function Bitmask(k: nat): bv32 {
    if k == 0 then 1 else Double(Bitmask(k - 1))
  }

  function Shl(v: bv32, n: nat): bv32 {
    if n == 0 then v else Double(Shl(v, n - 1))
  }

  /** All bits from `n` up. */
  function Upper(n: nat): bv32 {
    Shl(0xFFFFFFFF, n)
  }

  ghost predicate Bit(v: bv32, i: nat) {
    And(v, Bitmask(i)) != 0
  }

  // ----- facts about words -----

  lemma DoubleApart(x: bv32, y: bv32)
    requires And(x, y) == 0
    ensures And(Double(x), Double(y)) == 0
  {
  }

  lemma DoubleEven(x: bv32)
    ensures And(Double(x), 1) == 0 && And(1, Double(x)) == 0
  {
  }

  lemma OthersKeptBySet(v: bv32, x: bv32, y: bv32)
    requires And(x, y) == 0
    ensures And(SetMask(v, x), y) == And(v, y)
  {
    assert And(SetMask(v, x), y) == And(v, y) | And(x, y);
  }

  lemma OthersKeptByClear(v: bv32, x: bv32, y: bv32)
    requires And(x, y) == 0
    ensures And(ClearMask(v, x), y) == And(v, y)
  {
  }

  lemma SelfSet(v: bv32, x: bv32)
    ensures And(SetMask(v, x), x) == x && And(ClearMask(v, x), x) == 0
  {
  }

  lemma HalfAgainstDouble(t: bv32, m: bv32)
    requires And(m, 0x80000000) == 0
    ensures And(Half(t), m) != 0 <==> And(t, Double(m)) != 0
    ensures Half(Double(m)) == m
  {
  }

  lemma DoubleAgainstDouble(t: bv32, m: bv32)
    requires And(m, 0x80000000) == 0
    ensures And(Double(t), Double(m)) != 0 <==> And(t, m) != 0
  {
  }

  lemma OneBit(x: bv32)
    ensures And(x, 1) == 0 || And(x, 1) == 1
  {
  }

  lemma OneBitDoubled(x: bv32, m: bv32)
    ensures And(x, Double(m)) == Double(And(Half(x), m))
    ensures Double(0) == 0
  {
  }

  lemma AndXor(x: bv32, y: bv32, m: bv32)
    ensures And(Xor(x, y), m) == Xor(And(x, m), And(y, m))
  {
  }

  lemma AndSet(x: bv32, u: bv32, m: bv32)
    ensures And(x, SetMask(u, m)) == SetMask(And(x, u), And(x, m))
  {
  }

  lemma DoubleSet(u: bv32, m: bv32)
    ensures Double(SetMask(u, m)) == SetMask(Double(u), Double(m))
  {
  }

  lemma NothingSet()
    ensures SetMask(0, 0) == 0
  {
  }

  lemma AndNothing(x: bv32)
    ensures And(x, 0) == 0 && And(x, 0xFFFFFFFF) == x
  {
  }

  // ----- masks -----

  lemma Mask31()
    ensures Bitmask(31) == 0x80000000
  {
    assert Bitmask(8) == 0x100;
    assert Bitmask(16) == 0x10000;
    assert Bitmask(24) == 0x1000000;
  }

  lemma {:induction false} MaskNonzero(j: nat)
    requires j < 32
    ensures Bitmask(j) != 0
    decreases 32 - j
  {
    if j < 31 {
      MaskNonzero(j + 1);
    } else {
      Mask31();
    }
  }

  lemma {:induction false} MasksApart(j: nat, k: nat)
    requires j != k
    ensures And(Bitmask(j), Bitmask(k)) == 0
  {
    hide And, Double;
    if j > 0 && k > 0 {
      MasksApart(j - 1, k - 1);
      DoubleApart(Bitmask(j - 1), Bitmask(k - 1));
    } else if j > 0 {
      DoubleEven(Bitmask(j - 1));
    } else {
      DoubleEven(Bitmask(k - 1));
    }
  }

  lemma LowMask(k: nat)
    requires k < 31
    ensures And(Bitmask(k), 0x80000000) == 0
  {
    hide And, Bitmask;
    MasksApart(k, 31);
    Mask31();
  }

  lemma {:induction false} MaskOrNothing(x: bv32, i: nat)
    ensures And(x, Bitmask(i)) == 0 || And(x, Bitmask(i)) == Bitmask(i)
    decreases i
  {
    hide And, Double, Half;
    if i == 0 {
      OneBit(x);
    } else {
      MaskOrNothing(Half(x), i - 1);
      OneBitDoubled(x, Bitmask(i - 1));
    }
  }

  // ----- bits under the operations -----

  /** Setting or clearing one bit leaves the others alone. */
  lemma BitOfSet(v: bv32, j: nat, k: nat)
    requires j < 32 && k < 32
    ensures Bit(SetMask(v, Bitmask(j)), k) <==> j == k || Bit(v, k)
    ensures Bit(ClearMask(v, Bitmask(j)), k) <==> j != k && Bit(v, k)
  {
    hide And, Bitmask, SetMask, ClearMask;
    if j == k {
      SelfSet(v, Bitmask(j));
      MaskNonzero(j);
    } else {
      MasksApart(j, k);
      OthersKeptBySet(v, Bitmask(j), Bitmask(k));
      OthersKeptByClear(v, Bitmask(j), Bitmask(k));
    }
  }

  lemma BitOfHalf(t: bv32, k: nat)
    requires k < 31
    ensures Bit(Half(t), k) <==> Bit(t, k + 1)
  {
    hide And, Half, Double;
    LowMask(k);
    HalfAgainstDouble(t, Bitmask(k));
  }

  lemma BitOfDouble(t: bv32, k: nat)
    requires k < 32
    ensures Bit(Double(t), k) <==> k > 0 && Bit(t, k - 1)
  {
    hide And, Double;
    if k == 0 {
      DoubleEven(t);
    } else {
      LowMask(k - 1);
      DoubleAgainstDouble(t, Bitmask(k - 1));
    }
  }

  lemma {:induction false} BitOfShl(t: bv32, n: nat, k: nat)
    requires k < 32
    ensures Bit(Shl(t, n), k) <==> k >= n && Bit(t, k - n)
  {
    hide Bit, Double;
    if n > 0 {
      BitOfDouble(Shl(t, n - 1), k);
      if k > 0 {
        BitOfShl(t, n - 1, k - 1);
      }
    }
  }

  lemma BitOfXor(x: bv32, y: bv32, i: nat)
    requires Bit(Xor(x, y), i)
    ensures Bit(x, i) != Bit(y, i)
  {
    hide And, Bitmask, Xor;
    AndXor(x, y, Bitmask(i));
    MaskOrNothing(x, i);
    MaskOrNothing(y, i);
    XorSelf(Bitmask(i));
    XorSelf(0);
  }

  lemma {:induction false} UpperSplits(n: nat)
    ensures Upper(n) == SetMask(Upper(n + 1), Bitmask(n))
  {
    if n > 0 {
      hide SetMask, Double;
      UpperSplits(n - 1);
      DoubleSet(Upper(n), Bitmask(n - 1));
    }
  }

  lemma UpperEnds()
    ensures Upper(32) == 0 && Upper(0) == 0xFFFFFFFF
  {
    assert Shl(0xFFFFFFFF, 8) == 0xFFFFFF00;
    assert Shl(0xFFFFFFFF, 16) == 0xFFFF0000;
    assert Shl(0xFFFFFFFF, 24) == 0xFF000000;
  }

  lemma {:induction false} SomeBit(d: bv32, n: nat) returns (i: nat)
    requires n <= 32 && And(d, Upper(n)) != 0
    ensures n <= i < 32 && Bit(d, i)
    decreases 32 - n
  {
    hide And, SetMask, Upper, Bitmask;
    UpperEnds();
    AndNothing(d);
    if Bit(d, n) && n < 32 {
      i := n;
    } else {
      UpperSplits(n);
      AndSet(d, Upper(n + 1), Bitmask(n));
      NothingSet();
      i := SomeBit(d, n + 1);
    }
  }

  /** A word is determined by its 32 bits. */
  lemma SameBits(x: bv32, y: bv32)
    requires forall i :: 0 <= i < 32 ==> (Bit(x, i) <==> Bit(y, i))
    ensures x == y
  {
    hide Bit, Xor, Upper, And;
    XorZero(x, y);
    if x != y {
      UpperEnds();
      AndNothing(Xor(x, y));
      var i := SomeBit(Xor(x, y), 0);
      BitOfXor(x, y, i);
    }
  }
}
