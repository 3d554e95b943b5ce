/** The table-driven CRC32c of APPS/baselib/sctp_csum.c, its agreement with the bit-at-a-time model and what it
    detects. */
module SctpCsum {
  import opened CrcBits
  import opened CrcModel
  import opened CrcTable
  import opened WordBits

  /** The register after a byte, for the reflected polynomial `q`. */
  function Absorb(c: bv32, q: bv32, d: bv8): bv32 {
    RSteps(Xor(c, d as bv32), q, 8)
  }

  /** The register after a byte string. */
  function Crc(c: bv32, q: bv32, buf: seq<bv8>): bv32 {
    if buf == [] then c else Absorb(Crc(c, q, buf[..|buf| - 1]), q, buf[|buf| - 1])
  }

  // ----- the table-driven form -----

  function LowByte(x: bv32): bv8 {
    (x & 0xFF) as bv8
  }

  function Down8(x: bv32): bv32 {
    x >> 8
  }

  lemma LowByteIs(x: bv32)
    ensures LowByte(x) as bv32 == x & 0xFF
  {
  }

  lemma ByteStaysLow(c: bv32, d: bv8)
    ensures Down8(Xor(c, d as bv32)) == Down8(c)
  {
  }

  /** Shifting by a byte and adding the table word of the mixed byte is eight division steps, whatever the
      polynomial the table was made for. */
  lemma TableStep(c: bv32, d: bv8, q: bv32, word: bv32)
    requires word == RSteps(LowByte(Xor(c, d as bv32)) as bv32, q, 8)
    ensures Xor(Down8(c), word) == Absorb(c, q, d)
  {
    var x := Xor(c, d as bv32);
    LowByteIs(x);
    ByteAtOnce(x, q);
    ByteStaysLow(c, d);
    assert Down8(x) == x >> 8;
    hide RSteps, Xor, LowByte, Down8;
  }

  method UpdateCrc32(crc32: bv32, buffer: seq<bv8>) returns (r: bv32)
    ensures r == Crc(crc32, CRC32C_REFLECTED, buffer)
  {
    hide RSteps, Xor, LowByte, Down8, SctpCrcC, Absorb;
    r := crc32;
    var i := 0;
    assert buffer[..0] == [];
    while i < |buffer|
      invariant 0 <= i <= |buffer|
      invariant r == Crc(crc32, CRC32C_REFLECTED, buffer[..i])
    {
      assert buffer[..i + 1][..i] == buffer[..i];
      var x := LowByte(Xor(r, buffer[i] as bv32));
      TableIsGenerated(x);
      TableStep(r, buffer[i], CRC32C_REFLECTED, SctpCrcC(x as nat));
      r := Xor(Down8(r), SctpCrcC(x as nat));
      i := i + 1;
    }
    assert buffer[..i] == buffer;
  }

  function Complement(c: bv32): bv32 {
    !c
  }

  /** The complement, on a little-endian machine. */
  method SctpCsumFinalize(crc32: bv32) returns (r: bv32)
    ensures r == Xor(0xFFFFFFFF, crc32)
  {
    r := Complement(crc32);
  }

  // ----- agreement with the Rocksoft model -----

  lemma MirrorLead(d: bv8)
    ensures Mirror(Lead(d, true)) == d as bv32
  {
    MirrorOfMirror(d as bv32);
    hide Mirror;
  }

  /** The table-driven register is the mirror image of the model's after every byte, for every polynomial,
      width and starting value. */
  lemma {:induction false} RegisterMirrored(r: bv32, poly: bv32, buf: seq<bv8>)
    ensures Mirror(FedAll(r, poly, true, buf)) == Crc(Mirror(r), Mirror(poly), buf)
  {
    hide Mirror, Xor, Lead, Steps, RSteps;
    if buf != [] {
      var before, d := buf[..|buf| - 1], buf[|buf| - 1];
      RegisterMirrored(r, poly, before);
      var was := FedAll(r, poly, true, before);
      MirrorSteps(Xor(was, Lead(d, true)), poly, 8);
      MirrorXor(was, Lead(d, true));
      MirrorLead(d);
    }
  }

  lemma AllOnes()
    ensures Mirror(0xFFFFFFFF) == 0xFFFFFFFF
  {
  }

  lemma WholeWord(v: bv32)
    ensures Aligned(v, 32) == v && InWidth(v, 32)
  {
    hide And, WidMask, Bit;
    forall k: nat | k < 32
      ensures Bit(And(v, WidMask(32)), k) <==> Bit(v, k)
    {
      BitOfMasked(v, 32, k);
    }
    SameBits(And(v, WidMask(32)), v);
  }

  /** The checksum of section 6.8 and appendix B of RFC 4960, computed by the bit-at-a-time model and by the table. */
  method BothWays(buf: seq<bv8>) returns (model: bv32, table: bv32)
    ensures model == table == Xor(0xFFFFFFFF, Crc(0xFFFFFFFF, CRC32C_REFLECTED, buf))
  {
    hide Mirror, Xor, Lead, Steps, RSteps, Aligned, InWidth, Crc, FedAll;
    var cm := new Cm(32, CRC32C_POLY, 0xFFFFFFFF, true, true, 0xFFFFFFFF);
    cm.Ini();
    WholeWord(0xFFFFFFFF);
    WholeWord(CRC32C_POLY);
    cm.Blk(buf);
    WholeWord(cm.cm_reg);
    model := cm.Crc();
    RegisterMirrored(0xFFFFFFFF, CRC32C_POLY, buf);
    AllOnes();
    PolyMirrored();
    var c := UpdateCrc32(0xFFFFFFFF, buf);
    table := SctpCsumFinalize(c);
  }

  // ----- tables for other polynomials -----

  /** A byte as an index. */
  function Index(x: bv8): (i: nat)
    ensures i < 256
  {
    x as nat
  }

  lemma SameByte(x: bv8, y: bv8)
    requires Index(x) == Index(y)
    ensures x == y
  {
  }

  lemma NextIndex(d: bv8)
    requires d < 255
    ensures Index(d + 1) == Index(d) + 1
  {
  }

  lemma LastIndex(d: bv8)
    ensures Index(0) == 0 && (d == 255 <==> Index(d) == 255)
  {
  }

  /** The words of a table for the reflected polynomial `q`, and the first words of one. */
  ghost predicate IsTable(table: seq<bv32>, q: bv32) {
    |table| == 256 && IsPart(table, q)
  }

  ghost predicate IsPart(table: seq<bv32>, q: bv32) {
    |table| <= 256 && forall x: bv8 {:trigger Index(x)} :: Index(x) < |table| ==> table[Index(x)] == RSteps(x as bv32, q, 8)
  }

  lemma OneWord(table: seq<bv32>, r: bv32, q: bv32, d: bv8)
    requires IsPart(table, q) && Index(d) == |table| && r == RSteps(d as bv32, q, 8)
    ensures IsPart(table + [r], q)
  {
    hide RSteps, Index;
    forall x: bv8 {:trigger Index(x)} | Index(x) < |table + [r]|
      ensures (table + [r])[Index(x)] == RSteps(x as bv32, q, 8)
    {
      if Index(x) == Index(d) {
        SameByte(x, d);
      }
    }
  }

  lemma WordAt(table: seq<bv32>, q: bv32, x: bv8)
    requires IsTable(table, q)
    ensures |table| == 256 && table[Index(x)] == RSteps(x as bv32, q, 8)
  {
    hide RSteps, Index;
  }

  /** The table of the model with these parameters, entry by entry. */
  method BuildTable(cm: Cm) returns (table: seq<bv32>)
    requires cm.Valid() && cm.cm_refin
    ensures IsTable(table, Mirror(cm.Poly()))
  {
    hide RSteps, Mirror, Aligned, InWidth, IsPart, Index;
    table := [];
    assert IsPart(table, Mirror(cm.Poly())) by { NoWords(Mirror(cm.Poly())); }
    var d: bv8 := 0;
    LastIndex(d);
    while |table| < 256
      invariant |table| <= 256 && (|table| < 256 ==> Index(d) == |table|)
      invariant IsPart(table, Mirror(cm.Poly()))
    {
      var r := cm.Tab(d);
      OneWord(table, r, Mirror(cm.Poly()), d);
      table := table + [r];
      LastIndex(d);
      if d < 255 {
        NextIndex(d);
        d := d + 1;
      }
    }
  }

  lemma NoWords(q: bv32)
    ensures IsPart([], q)
  {
  }

  /** The update with any table. */
  method UpdateWith(table: seq<bv32>, ghost q: bv32, crc32: bv32, buffer: seq<bv8>) returns (r: bv32)
    requires IsTable(table, q)
    ensures r == Crc(crc32, q, buffer)
  {
    hide RSteps, Xor, LowByte, Down8, Absorb, Index, IsTable;
    r := crc32;
    var i := 0;
    assert buffer[..0] == [];
    while i < |buffer|
      invariant 0 <= i <= |buffer|
      invariant r == Crc(crc32, q, buffer[..i])
    {
      assert buffer[..i + 1][..i] == buffer[..i];
      var x := LowByte(Xor(r, buffer[i] as bv32));
      WordAt(table, q, x);
      TableStep(r, buffer[i], q, table[Index(x)]);
      r := Xor(Down8(r), table[Index(x)]);
      i := i + 1;
    }
    assert buffer[..i] == buffer;
  }

  /** For every width from 8 to 32, polynomial, initial and final word with reflection on, the bit-at-a-time model and
      the loop over its table give the same checksum of every byte string. */
  method AnyModelBothWays(width: nat, poly: bv32, init: bv32, xorot: bv32, buf: seq<bv8>) returns (model: bv32, table: bv32)
    requires 8 <= width <= 32 && InWidth(init, width)
    ensures model == table
    ensures model == Xor(xorot, Crc(Mirror(Aligned(init, width)), Mirror(Aligned(poly, width)), buf))
  {
    hide Mirror, Xor, Lead, Steps, RSteps, Aligned, InWidth, Crc, FedAll, IsTable, Reflected;
    var cm := new Cm(width, poly, init, true, true, xorot);
    cm.Ini();
    cm.Blk(buf);
    model := cm.Crc();
    RegisterMirrored(Aligned(init, width), cm.Poly(), buf);
    var words := BuildTable(cm);
    var start := Reflect(init, width);
    StartsMirrored(init, start, width);
    var c := UpdateWith(words, Mirror(cm.Poly()), start, buf);
    table := Xor(xorot, c);
  }

  lemma StartsMirrored(init: bv32, start: bv32, width: nat)
    requires 8 <= width <= 32 && InWidth(init, width) && Reflected(init, start, width)
    ensures start == Mirror(Aligned(init, width))
  {
    hide Mirror, Aligned, Reflected;
    ReflectedRegister(init, start, width);
    ReflectedInWidth(init, start, width);
  }

  // ----- composition, linearity, injectivity -----

  /** Checksumming in pieces is checksumming the whole. */
  lemma {:induction false} Composes(c: bv32, q: bv32, a: seq<bv8>, b: seq<bv8>)
    ensures Crc(c, q, a + b) == Crc(Crc(c, q, a), q, b)
    decreases |b|
  {
    hide Absorb;
    if b == [] {
      assert a + b == a;
    } else {
      var front := b[..|b| - 1];
      Composes(c, q, a, front);
      assert (a + b)[..|a + b| - 1] == a + front;
      assert (a + b)[|a + b| - 1] == b[|b| - 1];
    }
  }

  function XorBytes(a: seq<bv8>, b: seq<bv8>): seq<bv8>
    requires |a| == |b|
  {
    if a == [] then [] else XorBytes(a[..|a| - 1], b[..|b| - 1]) + [a[|a| - 1] ^ b[|b| - 1]]
  }

  lemma XorWide(x: bv8, y: bv8)
    ensures (x ^ y) as bv32 == Xor(x as bv32, y as bv32)
  {
  }

  lemma XorSwaps(a: bv32, b: bv32, x: bv32, y: bv32)
    ensures Xor(Xor(a, b), Xor(x, y)) == Xor(Xor(a, x), Xor(b, y))
  {
    hide Xor;
    XorAssociates(a, b, Xor(x, y));
    XorAssociates(b, x, y);
    XorCommutes(b, x);
    XorAssociates(x, b, y);
    XorAssociates(a, x, Xor(b, y));
  }

  lemma AbsorbXor(a: bv32, b: bv32, q: bv32, x: bv8, y: bv8)
    ensures Absorb(Xor(a, b), q, x ^ y) == Xor(Absorb(a, q, x), Absorb(b, q, y))
  {
    XorWide(x, y);
    hide Xor, RSteps;
    XorSwaps(a, b, x as bv32, y as bv32);
    RStepsXor(Xor(a, x as bv32), Xor(b, y as bv32), q, 8);
  }

  /** The update is linear in the register and the buffer together. */
  lemma {:induction false} Linear(a: bv32, b: bv32, q: bv32, s: seq<bv8>, t: seq<bv8>)
    requires |s| == |t|
    ensures |XorBytes(s, t)| == |s|
    ensures Crc(Xor(a, b), q, XorBytes(s, t)) == Xor(Crc(a, q, s), Crc(b, q, t))
  {
    hide Xor, Absorb;
    if s != [] {
      var n := |s| - 1;
      Linear(a, b, q, s[..n], t[..n]);
      var x := s[n] ^ t[n];
      assert (XorBytes(s[..n], t[..n]) + [x])[..n] == XorBytes(s[..n], t[..n]);
      AbsorbXor(Crc(a, q, s[..n]), Crc(b, q, t[..n]), q, s[n], t[n]);
    }
  }

  lemma XorInjective(a: bv32, b: bv32, x: bv32)
    requires Xor(a, x) == Xor(b, x) || Xor(x, a) == Xor(x, b)
    ensures a == b
  {
  }

  /** The same bytes never bring two different registers together. */
  lemma {:induction false} RegisterKept(a: bv32, b: bv32, q: bv32, buf: seq<bv8>)
    requires q & 0x80000000 != 0
    requires Crc(a, q, buf) == Crc(b, q, buf)
    ensures a == b
  {
    hide Xor, RSteps;
    if buf != [] {
      var n := |buf| - 1;
      var d := buf[n] as bv32;
      var u, v := Crc(a, q, buf[..n]), Crc(b, q, buf[..n]);
      RStepsInjective(Xor(u, d), Xor(v, d), q, 8);
      XorInjective(u, v, d);
      RegisterKept(a, b, q, buf[..n]);
    }
  }

  // ----- bursts -----

  /** A byte `n` places up. */
  function Place(d: bv8, n: nat): bv32 {
    if n == 0 then d as bv32 else Up8(Place(d, n - 1))
  }

  function Up8(x: bv32): bv32 {
    x << 8
  }

  /** Bytes packed into a word, the first lowest. */
  function Pack(d: seq<bv8>): bv32 {
    if d == [] then 0 else Xor(Pack(d[..|d| - 1]), Place(d[|d| - 1], |d| - 1))
  }

  lemma UpThenSteps(x: bv32, q: bv32)
    requires x & 0xFF000000 == 0
    ensures RSteps(Up8(x), q, 8) == x
  {
    UpThenDown(x);
    hide RSteps, Up8;
    ShiftOnly(Up8(x), q);
  }

  lemma UpThenDown(x: bv32)
    requires x & 0xFF000000 == 0
    ensures Up8(x) & 0xFF == 0 && Up8(x) >> 8 == x
  {
  }

  lemma PlaceFits(d: bv8, n: nat)
    requires n < 3
    ensures Place(d, n) & 0xFF000000 == 0
  {
    if n == 0 {
    } else if n == 1 {
      assert Place(d, 1) == Up8(Place(d, 0));
    } else {
      assert Place(d, 1) == Up8(Place(d, 0));
      assert Place(d, 2) == Up8(Place(d, 1));
    }
  }

  /** Dividing a placed byte brings it back down. */
  lemma {:induction false} PlacedByte(d: bv8, n: nat, q: bv32)
    requires n < 4
    ensures RSteps(Place(d, n), q, 8 * n) == d as bv32
  {
    if n > 0 {
      PlaceFits(d, n - 1);
      hide RSteps, Up8;
      UpThenSteps(Place(d, n - 1), q);
      PlacedByte(d, n - 1, q);
      RStepsAdd(Place(d, n), q, 8, 8 * (n - 1));
      assert 8 + 8 * (n - 1) == 8 * n;
    }
  }

  /** Up to four bytes can be packed into the register first and divided afterwards. */
  lemma {:induction false} AbsorbedTogether(c: bv32, q: bv32, d: seq<bv8>)
    requires |d| <= 4
    ensures Crc(c, q, d) == RSteps(Xor(c, Pack(d)), q, 8 * |d|)
  {
    if d == [] {
      XorSelf(c);
      hide Xor, RStep;
    } else {
      hide Xor, RSteps, Place;
      var n := |d| - 1;
      var front, x := d[..n], d[n];
      AbsorbedTogether(c, q, front);
      PlacedByte(x, n, q);
      RStepsXor(Xor(c, Pack(front)), Place(x, n), q, 8 * n);
      XorAssociates(c, Pack(front), Place(x, n));
      RStepsAdd(Xor(c, Pack(d)), q, 8 * n, 8);
      assert 8 * n + 8 == 8 * |d|;
    }
  }

  /** What is below place `n`, and the byte there. */
  function LowPart(v: bv32, n: nat): bv32 {
    match n
    case 0 => 0
    case 1 => v & 0xFF
    case 2 => v & 0xFFFF
    case _ => v & 0xFFFFFF
  }

  function ByteAt(v: bv32, n: nat): bv8 {
    match n
    case 0 => LowByte(v)
    case 1 => LowByte(v >> 8)
    case 2 => LowByte(v >> 16)
    case _ => LowByte(v >> 24)
  }

  lemma Recover0(a: bv32, x: bv8)
    requires Below(a, 0)
    ensures LowPart(Xor(a, Place(x, 0)), 0) == a && ByteAt(Xor(a, Place(x, 0)), 0) == x
  {
    PlaceIs(x);
    var p := Place(x, 0);
    assert p == x as bv32;
    hide Place;
  }

  lemma Recover1(a: bv32, x: bv8)
    requires Below(a, 1)
    ensures LowPart(Xor(a, Place(x, 1)), 1) == a && ByteAt(Xor(a, Place(x, 1)), 1) == x
  {
    PlaceIs(x);
    var p := Place(x, 1);
    assert p == x as bv32 << 8;
    hide Place;
  }

  lemma Recover2(a: bv32, x: bv8)
    requires Below(a, 2)
    ensures LowPart(Xor(a, Place(x, 2)), 2) == a && ByteAt(Xor(a, Place(x, 2)), 2) == x
  {
    PlaceIs(x);
    var p := Place(x, 2);
    assert p == x as bv32 << 16;
    hide Place;
  }

  lemma Recover3(a: bv32, x: bv8)
    requires Below(a, 3)
    ensures LowPart(Xor(a, Place(x, 3)), 3) == a && ByteAt(Xor(a, Place(x, 3)), 3) == x
  {
    PlaceIs(x);
    var p := Place(x, 3);
    assert p == x as bv32 << 24;
    hide Place;
  }

  lemma Recovered(a: bv32, x: bv8, n: nat)
    requires n < 4 && Below(a, n)
    ensures LowPart(Xor(a, Place(x, n)), n) == a && ByteAt(Xor(a, Place(x, n)), n) == x
  {
    hide Place, LowPart, ByteAt, Below, Xor;
    if n == 0 {
      Recover0(a, x);
    } else if n == 1 {
      Recover1(a, x);
    } else if n == 2 {
      Recover2(a, x);
    } else {
      Recover3(a, x);
    }
  }

  lemma PlaceIs(d: bv8)
    ensures Place(d, 0) == d as bv32 && Place(d, 1) == d as bv32 << 8
    ensures Place(d, 2) == d as bv32 << 16 && Place(d, 3) == d as bv32 << 24
  {
    assert Place(d, 1) == Up8(Place(d, 0));
    assert Place(d, 2) == Up8(Place(d, 1));
    assert Place(d, 3) == Up8(Place(d, 2));
  }

  /** Only the lowest `n` bytes are used. */
  predicate Below(a: bv32, n: nat) {
    match n
    case 0 => a == 0
    case 1 => a & 0xFFFFFF00 == 0
    case 2 => a & 0xFFFF0000 == 0
    case 3 => a & 0xFF000000 == 0
    case _ => true
  }

  lemma PlacedBelow(a: bv32, x: bv8, n: nat)
    requires n < 4 && Below(a, n)
    ensures Below(Xor(a, Place(x, n)), n + 1)
  {
    PlaceIs(x);
    hide Place;
    if n == 0 {
    } else if n == 1 {
    } else if n == 2 {
    } else {
    }
  }

  lemma {:induction false} PackBelow(d: seq<bv8>)
    requires |d| <= 4
    ensures Below(Pack(d), |d|)
  {
    if d != [] {
      PackBelow(d[..|d| - 1]);
      PlacedBelow(Pack(d[..|d| - 1]), d[|d| - 1], |d| - 1);
      hide Below, Place;
    }
  }

  lemma {:induction false} PackInjective(d: seq<bv8>, e: seq<bv8>)
    requires |d| == |e| <= 4 && Pack(d) == Pack(e)
    ensures d == e
  {
    hide Below, Place, Xor, LowPart, ByteAt;
    if d != [] {
      var n := |d| - 1;
      PackBelow(d[..n]);
      PackBelow(e[..n]);
      Recovered(Pack(d[..n]), d[n], n);
      Recovered(Pack(e[..n]), e[n], n);
      PackInjective(d[..n], e[..n]);
      assert d == d[..n] + [d[n]] && e == e[..n] + [e[n]];
    }
  }

  /** Two strings of one length that differ only inside four consecutive bytes have different checksums, whatever
      surrounds the difference, the starting register, and the polynomial (so long as it has its constant term). */
  lemma BurstDetected(c: bv32, q: bv32, before: seq<bv8>, d: seq<bv8>, e: seq<bv8>, after: seq<bv8>)
    requires q & 0x80000000 != 0
    requires |d| == |e| <= 4 && d != e
    ensures Crc(c, q, before + d + after) != Crc(c, q, before + e + after)
  {
    hide RSteps, Xor, Pack;
    if Crc(c, q, before + d + after) == Crc(c, q, before + e + after) {
      var r := Crc(c, q, before);
      Composes(c, q, before + d, after);
      Composes(c, q, before + e, after);
      Composes(c, q, before, d);
      Composes(c, q, before, e);
      hide Crc;
      RegisterKept(Crc(r, q, d), Crc(r, q, e), q, after);
      AbsorbedTogether(r, q, d);
      AbsorbedTogether(r, q, e);
      RStepsInjective(Xor(r, Pack(d)), Xor(r, Pack(e)), q, 8 * |d|);
      XorInjective(Pack(d), Pack(e), r);
      PackInjective(d, e);
      assert false;
    }
  }

  /** The SCTP checksum itself detects every such difference. */
  lemma SctpBurstDetected(before: seq<bv8>, d: seq<bv8>, e: seq<bv8>, after: seq<bv8>)
    requires |d| == |e| <= 4 && d != e
    ensures Xor(0xFFFFFFFF, Crc(0xFFFFFFFF, CRC32C_REFLECTED, before + d + after))
         != Xor(0xFFFFFFFF, Crc(0xFFFFFFFF, CRC32C_REFLECTED, before + e + after))
  {
    hide Xor, Crc;
    BurstDetected(0xFFFFFFFF, CRC32C_REFLECTED, before, d, e, after);
    XorDiffers(Crc(0xFFFFFFFF, CRC32C_REFLECTED, before + d + after),
               Crc(0xFFFFFFFF, CRC32C_REFLECTED, before + e + after));
  }

  lemma XorDiffers(a: bv32, b: bv32)
    requires a != b
    ensures Xor(0xFFFFFFFF, a) != Xor(0xFFFFFFFF, b)
  {
  }
}
