/** Polynomial division steps on 32-bit words, most significant bit first and reflected. */
module CrcBits {

  const CRC32C_POLY: bv32 := 0x1EDC6F41
  const CRC32C_REFLECTED: bv32 := 0x82F63B78

  function Xor(a: bv32, b: bv32): bv32 {
    a ^ b
  }

  /** A word with its bits in the opposite order. */
  function Mirror(v: bv32): bv32 {
    var a := ((v >> 1) & 0x55555555) | ((v & 0x55555555) << 1);
    var b := ((a >> 2) & 0x33333333) | ((a & 0x33333333) << 2);
    var c := ((b >> 4) & 0x0F0F0F0F) | ((b & 0x0F0F0F0F) << 4);
    var d := ((c >> 8) & 0x00FF00FF) | ((c & 0x00FF00FF) << 8);
    (d >> 16) | (d << 16)
  }

  /** One division step with the register's top bit leading. */
  function Step(r: bv32, poly: bv32): bv32 {
    if r & 0x80000000 != 0 then (r << 1) ^ poly else r << 1
  }

  /** One division step with the register's bottom bit leading. */
  function RStep(c: bv32, q: bv32): bv32 {
    if c & 1 != 0 then (c >> 1) ^ q else c >> 1
  }

  function Steps(r: bv32, poly: bv32, n: nat): bv32 {
    if n == 0 then r else Step(Steps(r, poly, n - 1), poly)
  }

  function RSteps(c: bv32, q: bv32, n: nat): bv32 {
    if n == 0 then c else RStep(RSteps(c, q, n - 1), q)
  }

  // ----- exclusive or -----

  lemma XorAssociates(a: bv32, b: bv32, c: bv32)
    ensures Xor(Xor(a, b), c) == Xor(a, Xor(b, c))
  {
  }

  lemma XorCommutes(a: bv32, b: bv32)
    ensures Xor(a, b) == Xor(b, a)
  {
  }

  lemma XorSelf(a: bv32)
    ensures Xor(a, a) == 0 && Xor(a, 0) == a && Xor(0, a) == a
  {
  }

  lemma XorZero(a: bv32, b: bv32)
    ensures Xor(a, b) == 0 <==> a == b
  {
    hide Xor;
    XorSelf(a);
    XorSelf(b);
    if Xor(a, b) == 0 {
      XorAssociates(a, b, b);
    }
  }

  // ----- mirror images -----

  lemma MirrorOfMirror(v: bv32)
    ensures Mirror(Mirror(v)) == v
  {
  }

  lemma MirrorXor(a: bv32, b: bv32)
    ensures Mirror(Xor(a, b)) == Xor(Mirror(a), Mirror(b))
  {
  }

  lemma MirrorOdd(r: bv32, poly: bv32)
    requires r & 0x80000000 != 0
    ensures Mirror(r) & 1 != 0 && Mirror((r << 1) ^ poly) == (Mirror(r) >> 1) ^ Mirror(poly)
  {
  }

  lemma MirrorEven(r: bv32)
    requires r & 0x80000000 == 0
    ensures Mirror(r) & 1 == 0 && Mirror(r << 1) == Mirror(r) >> 1
  {
  }

  lemma MirrorStep(r: bv32, poly: bv32)
    ensures Mirror(Step(r, poly)) == RStep(Mirror(r), Mirror(poly))
  {
    hide Mirror;
    if r & 0x80000000 != 0 {
      MirrorOdd(r, poly);
    } else {
      MirrorEven(r);
    }
  }

  /** The two orders of division are mirror images, for every polynomial and any number of steps. */
  lemma {:induction false} MirrorSteps(r: bv32, poly: bv32, n: nat)
    ensures Mirror(Steps(r, poly, n)) == RSteps(Mirror(r), Mirror(poly), n)
  {
    hide Mirror, Step, RStep;
    if n > 0 {
      MirrorSteps(r, poly, n - 1);
      MirrorStep(Steps(r, poly, n - 1), poly);
    }
  }

  // ----- linearity -----

  lemma ShiftXor(a: bv32, b: bv32)
    ensures (a ^ b) >> 1 == (a >> 1) ^ (b >> 1)
  {
  }

  lemma ParityXor(a: bv32, b: bv32)
    ensures (a ^ b) & 1 != 0 <==> ((a & 1 != 0) != (b & 1 != 0))
  {
  }

  lemma OddOdd(a: bv32, b: bv32, q: bv32)
    requires a & 1 != 0 && b & 1 != 0
    ensures RStep(a ^ b, q) == RStep(a, q) ^ RStep(b, q)
  {
  }

  lemma OddEven(a: bv32, b: bv32, q: bv32)
    requires a & 1 != 0 && b & 1 == 0
    ensures RStep(a ^ b, q) == RStep(a, q) ^ RStep(b, q)
    ensures RStep(b ^ a, q) == RStep(b, q) ^ RStep(a, q)
  {
  }

  lemma EvenEven(a: bv32, b: bv32, q: bv32)
    requires a & 1 == 0 && b & 1 == 0
    ensures RStep(a ^ b, q) == RStep(a, q) ^ RStep(b, q)
  {
    ShiftXor(a, b);
    ParityXor(a, b);
  }

  lemma RStepXor(a: bv32, b: bv32, q: bv32)
    ensures RStep(Xor(a, b), q) == Xor(RStep(a, q), RStep(b, q))
  {
    hide RStep;
    if a & 1 != 0 {
      if b & 1 != 0 {
        OddOdd(a, b, q);
      } else {
        OddEven(a, b, q);
      }
    } else {
      if b & 1 != 0 {
        OddEven(b, a, q);
      } else {
        EvenEven(a, b, q);
      }
    }
  }

  /** Division is linear over exclusive or. */
  lemma {:induction false} RStepsXor(a: bv32, b: bv32, q: bv32, n: nat)
    ensures RSteps(Xor(a, b), q, n) == Xor(RSteps(a, q, n), RSteps(b, q, n))
  {
    hide Xor, RStep;
    if n > 0 {
      RStepsXor(a, b, q, n - 1);
      RStepXor(RSteps(a, q, n - 1), RSteps(b, q, n - 1), q);
    }
  }

  lemma {:induction false} RStepsAdd(c: bv32, q: bv32, m: nat, n: nat)
    ensures RSteps(RSteps(c, q, m), q, n) == RSteps(c, q, m + n)
  {
    hide RStep;
    if n > 0 {
      RStepsAdd(c, q, m, n - 1);
    }
  }

  lemma {:induction false} RStepsZero(q: bv32, n: nat)
    ensures RSteps(0, q, n) == 0
  {
    if n > 0 {
      RStepsZero(q, n - 1);
    }
  }

  // ----- nothing is lost -----

  lemma OddsInjective(a: bv32, b: bv32, q: bv32)
    requires a & 1 != 0 && b & 1 != 0 && RStep(a, q) == RStep(b, q)
    ensures a == b
  {
  }

  lemma EvensInjective(a: bv32, b: bv32, q: bv32)
    requires a & 1 == 0 && b & 1 == 0 && RStep(a, q) == RStep(b, q)
    ensures a == b
  {
  }

  lemma OddNotEven(a: bv32, b: bv32, q: bv32)
    requires q & 0x80000000 != 0 && a & 1 != 0 && b & 1 == 0
    ensures RStep(a, q) != RStep(b, q)
  {
  }

  /** A step loses nothing when the polynomial has its constant term: the bit shifted out can be read off the
      top of the result. */
  lemma RStepInjective(a: bv32, b: bv32, q: bv32)
    requires q & 0x80000000 != 0 && RStep(a, q) == RStep(b, q)
    ensures a == b
  {
    hide RStep;
    if a & 1 != 0 {
      if b & 1 != 0 {
        OddsInjective(a, b, q);
      } else {
        OddNotEven(a, b, q);
      }
    } else {
      if b & 1 != 0 {
        OddNotEven(b, a, q);
      } else {
        EvensInjective(a, b, q);
      }
    }
  }

  lemma {:induction false} RStepsInjective(a: bv32, b: bv32, q: bv32, n: nat)
    requires q & 0x80000000 != 0 && RSteps(a, q, n) == RSteps(b, q, n)
    ensures a == b
  {
    hide RStep;
    if n > 0 {
      RStepInjective(RSteps(a, q, n - 1), RSteps(b, q, n - 1), q);
      RStepsInjective(a, b, q, n - 1);
    }
  }

  // ----- a byte at a time -----

  lemma Shift0(c: bv32, q: bv32)
    requires c & 0xFF == 0
    ensures RStep(c >> 0, q) == c >> 1
  {
  }

  lemma Shift1(c: bv32, q: bv32)
    requires c & 0xFF == 0
    ensures RStep(c >> 1, q) == c >> 2
  {
  }

  lemma Shift2(c: bv32, q: bv32)
    requires c & 0xFF == 0
    ensures RStep(c >> 2, q) == c >> 3
  {
  }

  lemma Shift3(c: bv32, q: bv32)
    requires c & 0xFF == 0
    ensures RStep(c >> 3, q) == c >> 4
  {
  }

  lemma Shift4(c: bv32, q: bv32)
    requires c & 0xFF == 0
    ensures RStep(c >> 4, q) == c >> 5
  {
  }

  lemma Shift5(c: bv32, q: bv32)
    requires c & 0xFF == 0
    ensures RStep(c >> 5, q) == c >> 6
  {
  }

  lemma Shift6(c: bv32, q: bv32)
    requires c & 0xFF == 0
    ensures RStep(c >> 6, q) == c >> 7
  {
  }

  lemma Shift7(c: bv32, q: bv32)
    requires c & 0xFF == 0
    ensures RStep(c >> 7, q) == c >> 8
  {
  }

  lemma Unfold8(c: bv32, q: bv32)
    ensures RSteps(c, q, 8) == RStep(RStep(RStep(RStep(RStep(RStep(RStep(RStep(c, q), q), q), q), q), q), q), q)
  {
    hide RStep;
    assert RSteps(c, q, 1) == RStep(c, q);
    assert RSteps(c, q, 2) == RStep(RSteps(c, q, 1), q);
    assert RSteps(c, q, 3) == RStep(RSteps(c, q, 2), q);
    assert RSteps(c, q, 4) == RStep(RSteps(c, q, 3), q);
    assert RSteps(c, q, 5) == RStep(RSteps(c, q, 4), q);
    assert RSteps(c, q, 6) == RStep(RSteps(c, q, 5), q);
    assert RSteps(c, q, 7) == RStep(RSteps(c, q, 6), q);
  }

  /** Steps on a word whose low bits are clear only shift. */
  lemma ShiftOnly(c: bv32, q: bv32)
    requires c & 0xFF == 0
    ensures RSteps(c, q, 8) == c >> 8
  {
    hide RStep, RSteps;
    Unfold8(c, q);
    Shift0(c, q);
    Shift1(c, q);
    Shift2(c, q);
    Shift3(c, q);
    Shift4(c, q);
    Shift5(c, q);
    Shift6(c, q);
    Shift7(c, q);
    assert c >> 0 == c;
  }

  lemma SplitLow(c: bv32) returns (hi: bv32)
    ensures c == Xor(hi, c & 0xFF) && hi & 0xFF == 0 && hi >> 8 == c >> 8
  {
    hi := c & 0xFFFFFF00;
  }

  /** Eight steps at once: shift by a byte and look the byte up. */
  lemma ByteAtOnce(c: bv32, q: bv32)
    ensures RSteps(c, q, 8) == Xor(c >> 8, RSteps(c & 0xFF, q, 8))
  {
    hide RStep, RSteps, Xor;
    var hi := SplitLow(c);
    RStepsXor(hi, c & 0xFF, q, 8);
    ShiftOnly(hi, q);
  }
}
