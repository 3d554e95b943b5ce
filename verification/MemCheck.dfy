/** The checking allocator of APPS/baselib/memcheck.c: blocks with guards, on chains by size class. */
module MemCheck {
  import opened DlistSpec
  import opened SeqFacts

  const MEMORY_PADDING := 96
  const PADDING_HALF := 48
  /** The bytes of a header, with pointers and `size_t` of 64 bits. */
  const HEADER := 80
  /** What is asked of the system beyond a block and its header. */
  const SLACK := 16
  const QUEUES := 5
  const SIZE_LIMIT := 0x1_0000_0000_0000_0000

  type SizeT = x: int | 0 <= x < 0x1_0000_0000_0000_0000

  /** Who asked for a block: file and line. */
  datatype Owner = Nobody | Owner(file: string, line: int)

  class MemLinks {
    /** The header, the guards and what is between them. */
    const size: SizeT
    ghost const queue: nat
    ghost const serial: nat
    var usedFree: bool
    var req: SizeT
    var csum: nat
    var next: MemLinks?
    var nextFree: MemLinks?
    var owner: Owner
    var powner: Owner
    var data: seq<UChar>

    constructor (m: SizeT, r: SizeT, o: Owner, ghost q: nat, ghost n: nat)
      requires HEADER <= m
      ensures size == m && queue == q && serial == n && usedFree && req == r && nextFree == null
      ensures owner == o && powner == Nobody && csum == 0
      ensures data == seq(m - HEADER, _ => 0)
    {
      size, queue, serial, usedFree, req, nextFree := m, q, n, true, r, null;
      owner, powner, csum, next := o, Nobody, 0, null;
      data := seq(m - HEADER, _ => 0);
    }

    /** The room for the owner's bytes as the code computes it, in 64 bits. */
    function Room(): SizeT {
      (size - (HEADER + MEMORY_PADDING)) % SIZE_LIMIT
    }
  }

  /** The chain for a size. */
  function Queue(size: nat): (q: nat)
    ensures q < QUEUES
  {
    if size <= 32 then 0 else if size <= 64 then 1 else if size <= 128 then 2 else if size <= 512 then 3 else 4
  }

  /** The request, rounded up to the size of its chain. */
  function RoundUp(size: nat): (r: nat)
    ensures size <= r
  {
    if size <= 32 then 32 else if size <= 64 then 64 else if size <= 128 then 128
    else if size <= 512 then 512 else if size <= 1024 then 1024 else size
  }

  /** The size of a new block with guards and header, in 64 bits. */
  function MemSize(size: SizeT): SizeT {
    (RoundUp(size) + MEMORY_PADDING + HEADER) % SIZE_LIMIT
  }

  /** The bytes of a new block that are there from the first guard on; none or fewer if not even the header fits. */
  function Held(size: SizeT): int {
    (MemSize(size) + SLACK) % SIZE_LIMIT - HEADER
  }

  /** Where the second guard begins, in 64 bits. */
  function Place(size: SizeT): SizeT {
    (PADDING_HALF + size) % SIZE_LIMIT
  }

  /** A new block has room for the request between its guards. */
  predicate HasRoom(size: SizeT) {
    size + MEMORY_PADDING <= Held(size)
  }

  /** Both guards of a new block are written inside of it. */
  predicate Inside(size: SizeT) {
    PADDING_HALF <= Held(size) && Place(size) + PADDING_HALF <= Held(size)
  }

  /** Exactly when a new block has room for the request: when no sum wraps around. Among the other requests those for
      the last 48 sizes still get a block, with its guards inside; the rest have a guard written elsewhere. */
  lemma RoomIff(size: SizeT)
    ensures HasRoom(size) <==> size + MEMORY_PADDING + HEADER + SLACK < SIZE_LIMIT
    ensures Inside(size) <==> HasRoom(size) || SIZE_LIMIT - PADDING_HALF <= size
    ensures Inside(size) ==> HEADER + PADDING_HALF <= MemSize(size) && MemSize(size) + SLACK < SIZE_LIMIT
    ensures Inside(size) ==> Place(size) + PADDING_HALF <= MemSize(size) - HEADER
    ensures HasRoom(size) ==> Place(size) == PADDING_HALF + size && size + MEMORY_PADDING <= MemSize(size) - HEADER
    ensures Inside(size) && !HasRoom(size) ==>
              Place(size) < PADDING_HALF && MemSize(size) - HEADER == Place(size) + PADDING_HALF
  {
    if size <= 1024 {
    } else if size + MEMORY_PADDING + HEADER + SLACK < SIZE_LIMIT {
      assert MemSize(size) == size + MEMORY_PADDING + HEADER;
    } else {
      assert RoundUp(size) == size;
    }
  }

  /** The largest request gets 191 bytes, of which 63 are the owner's or the second guard's. */
  lemma LargestRequest()
    ensures var size := SIZE_LIMIT - 1;
            Inside(size) && !HasRoom(size) && MemSize(size) == 175 && Held(size) == 111 && Place(size) == 47
  {
  }

  /** The guard byte at place `i`: 250 downwards, the second guard carrying on from the first. */
  function Pattern(i: nat): UChar
    requires i < MEMORY_PADDING
  {
    250 - i
  }

  /** Both guards are untouched, with the second at `place`. */
  ghost predicate Guarded(data: seq<UChar>, place: nat) {
    && PADDING_HALF <= |data| && place + PADDING_HALF <= |data|
    && (forall i {:trigger data[i]} :: 0 <= i < PADDING_HALF ==> data[i] == Pattern(i))
    && (forall i {:trigger data[i]} :: place <= i < place + PADDING_HALF ==> data[i] == Pattern(i - place + PADDING_HALF))
  }

  /** Guards that overlap are never found untouched. */
  lemma OverlapShows(data: seq<UChar>, place: nat)
    requires place < PADDING_HALF
    ensures !Guarded(data, place)
  {
    if PADDING_HALF <= |data| && data[PADDING_HALF - 1] == Pattern(PADDING_HALF - 1) {
      assert data[PADDING_HALF - 1] != Pattern(PADDING_HALF - 1 - place + PADDING_HALF);
    }
  }

  /** The sum of the first `n` bytes. */
  function SumOf(data: seq<UChar>, n: nat): nat
    requires n <= |data|
  {
    if n == 0 then 0 else SumOf(data, n - 1) + data[n - 1]
  }

  /** The checksum, in 32 bits. */
  function Checksum(data: seq<UChar>): nat {
    SumOf(data, |data|) % 0x1_0000_0000
  }

  // ----- chains -----

  /** A chain of all blocks of a class, newest first, linked by `next`. */
  ghost predicate Chained(head: MemLinks?, bs: seq<MemLinks>, q: nat)
    reads bs`next
  {
    && head == (if bs == [] then null else bs[0])
    && (forall i {:trigger bs[i].next} :: 0 <= i < |bs| ==> bs[i].next == if i + 1 < |bs| then bs[i + 1] else null)
    && (forall i {:trigger bs[i].serial} :: 0 <= i < |bs| ==> bs[i].serial == |bs| - 1 - i && bs[i].queue == q)
  }

  /** A chain of free blocks linked by `nextFree`. */
  ghost predicate FreeChained(head: MemLinks?, bs: seq<MemLinks>)
    reads bs`nextFree
  {
    && head == (if bs == [] then null else bs[0])
    && (forall i {:trigger bs[i].nextFree} :: 0 <= i < |bs| ==>
          bs[i].nextFree == if i + 1 < |bs| then bs[i + 1] else null)
    && (forall i, j :: 0 <= i < j < |bs| ==> bs[i] != bs[j])
  }

  /** A block's request is of its class and fits, unless the arithmetic has wrapped around: then it is in use. */
  ghost predicate BlockOk(b: MemLinks)
    reads b`req, b`data, b`usedFree
  {
    && b.queue == Queue(b.req) && HEADER + PADDING_HALF <= b.size && b.size + SLACK < SIZE_LIMIT
    && |b.data| == b.size - HEADER && Place(b.req) + PADDING_HALF <= |b.data|
    && if HasRoom(b.req) then b.req + MEMORY_PADDING <= |b.data| else b.usedFree && Place(b.req) < PADDING_HALF
  }

  /** The free blocks of a chain are exactly those not in use. */
  ghost predicate FreeIsUnused(all: seq<MemLinks>, free: seq<MemLinks>)
    reads all`usedFree
  {
    && (forall b :: b in free ==> b in all)
    && (forall b {:trigger b.usedFree} :: b in all ==> (b in free <==> !b.usedFree))
  }

  ghost predicate QueueOk(head: MemLinks?, first: MemLinks?, all: seq<MemLinks>, free: seq<MemLinks>, q: nat)
    reads all, free
  {
    && Chained(head, all, q) && FreeChained(first, free) && FreeIsUnused(all, free)
    && forall b {:trigger b in all} :: b in all ==> BlockOk(b)
  }

  // ----- guards and checksums -----

  method WriteGuards(at: MemLinks, place: nat)
    requires PADDING_HALF <= |at.data| && place + PADDING_HALF <= |at.data|
    modifies at`data
    ensures |at.data| == old(|at.data|) && (Guarded(at.data, place) <==> PADDING_HALF <= place)
    ensures PADDING_HALF <= place ==> at.data[PADDING_HALF..place] == old(at.data[PADDING_HALF..place])
  {
    var j := 250;
    var i := 0;
    while i < PADDING_HALF
      invariant 0 <= i <= PADDING_HALF && j == 250 - i && |at.data| == old(|at.data|)
      invariant forall k {:trigger at.data[k]} :: 0 <= k < i ==> at.data[k] == Pattern(k)
      invariant forall k {:trigger at.data[k]} :: i <= k < |at.data| ==> at.data[k] == old(at.data[k])
    {
      at.data := at.data[i := j];
      j := j - 1;
      i := i + 1;
    }
    i := 0;
    while i < PADDING_HALF
      invariant 0 <= i <= PADDING_HALF && j == 250 - PADDING_HALF - i && |at.data| == old(|at.data|)
      invariant forall k {:trigger at.data[k]} :: 0 <= k < PADDING_HALF && k < place ==> at.data[k] == Pattern(k)
      invariant forall k {:trigger at.data[k]} :: place <= k < place + i ==> at.data[k] == Pattern(k - place + PADDING_HALF)
      invariant forall k {:trigger at.data[k]} :: PADDING_HALF <= k < place ==> at.data[k] == old(at.data[k])
    {
      at.data := at.data[place + i := j];
      j := j - 1;
      i := i + 1;
    }
    if place < PADDING_HALF {
      OverlapShows(at.data, place);
    }
  }

  /** The two loops that look for overwritten guards. */
  method CheckGuards(at: MemLinks, place: nat) returns (ok: bool)
    requires PADDING_HALF <= |at.data| && place + PADDING_HALF <= |at.data|
    ensures ok <==> Guarded(at.data, place)
  {
    var j := 250;
    var i := 0;
    while i < PADDING_HALF
      invariant 0 <= i <= PADDING_HALF && j == 250 - i
      invariant forall k {:trigger at.data[k]} :: 0 <= k < i ==> at.data[k] == Pattern(k)
    {
      if at.data[i] != j {
        return false;
      }
      j := j - 1;
      i := i + 1;
    }
    i := 0;
    while i < PADDING_HALF
      invariant 0 <= i <= PADDING_HALF && j == 250 - PADDING_HALF - i
      invariant forall k {:trigger at.data[k]} :: 0 <= k < PADDING_HALF ==> at.data[k] == Pattern(k)
      invariant forall k {:trigger at.data[k]} :: place <= k < place + i ==> at.data[k] == Pattern(k - place + PADDING_HALF)
    {
      if at.data[place + i] != j {
        return false;
      }
      j := j - 1;
      i := i + 1;
    }
    ok := true;
  }

  method SumMemory(at: MemLinks) returns (s: nat)
    ensures s == Checksum(at.data)
  {
    s := 0;
    var i := 0;
    while i < |at.data|
      invariant 0 <= i <= |at.data| && s == SumOf(at.data, i) % 0x1_0000_0000
    {
      s := (s + at.data[i]) % 0x1_0000_0000;
      i := i + 1;
    }
  }

  // ----- lists of one class -----

  lemma ChainQueue(head: MemLinks?, bs: seq<MemLinks>, q: nat, b: MemLinks)
    requires Chained(head, bs, q) && b in bs
    ensures b.queue == q && b.serial < |bs|
  {
    var i :| 0 <= i < |bs| && bs[i] == b;
    assert bs[i].serial == |bs| - 1 - i;
  }

  /** A new block at the head of a chain. */
  lemma ChainMore(head: MemLinks?, bs: seq<MemLinks>, q: nat, b: MemLinks)
    requires Chained(head, bs, q) && b.next == head && b.queue == q && b.serial == |bs|
    ensures Chained(b, [b] + bs, q)
  {
    var ms := [b] + bs;
    forall i {:trigger ms[i].next} | 0 <= i < |ms|
      ensures ms[i].next == if i + 1 < |ms| then ms[i + 1] else null
    {
      if i > 0 {
        assert ms[i] == bs[i - 1] && bs[i - 1].next == bs[i - 1].next;
      }
    }
    forall i {:trigger ms[i].serial} | 0 <= i < |ms|
      ensures ms[i].serial == |ms| - 1 - i && ms[i].queue == q
    {
      if i > 0 {
        assert ms[i] == bs[i - 1] && bs[i - 1].serial == bs[i - 1].serial;
      }
    }
  }

  /** A new block in use leaves the free ones as they are. */
  lemma UsedMore(all: seq<MemLinks>, free: seq<MemLinks>, b: MemLinks)
    requires FreeIsUnused(all, free) && b !in all && b.usedFree
    ensures FreeIsUnused([b] + all, free)
  {
  }

  /** A block no longer in use belongs to the free ones. */
  lemma UnusedMore(all: seq<MemLinks>, free: seq<MemLinks>, b: MemLinks)
    requires b in all && !b.usedFree && forall a :: a in free ==> a in all
    requires forall a {:trigger a.usedFree} :: a in all && a != b ==> (a in free <==> !a.usedFree)
    ensures FreeIsUnused(all, [b] + free)
  {
  }

  lemma FreeMore(head: MemLinks?, bs: seq<MemLinks>, b: MemLinks)
    requires FreeChained(head, bs) && b.nextFree == head && b !in bs
    ensures FreeChained(b, [b] + bs)
  {
    var ms := [b] + bs;
    forall i {:trigger ms[i].nextFree} | 0 <= i < |ms|
      ensures ms[i].nextFree == if i + 1 < |ms| then ms[i + 1] else null
    {
      if i > 0 {
        assert ms[i] == bs[i - 1] && bs[i - 1].nextFree == bs[i - 1].nextFree;
      }
    }
  }

  /** Every link but the one into place `k`, which already leads past it. */
  ghost predicate FreeBridged(bs: seq<MemLinks>, k: nat)
    requires k < |bs|
    reads bs`nextFree
  {
    && (forall i {:trigger bs[i].nextFree} :: 0 <= i < |bs| && i != k ==>
          bs[i].nextFree == if i + 1 == k then (if k + 1 < |bs| then bs[k + 1] else null)
                            else if i + 1 < |bs| then bs[i + 1] else null)
    && (forall i, j :: 0 <= i < j < |bs| ==> bs[i] != bs[j])
  }

  lemma FreeLess(head: MemLinks?, bs: seq<MemLinks>, k: nat)
    requires k < |bs| && FreeBridged(bs, k)
    requires head == if k > 0 then bs[0] else if |bs| > 1 then bs[1] else null
    ensures FreeChained(head, Without(bs, k)) && bs[k] !in Without(bs, k)
    ensures forall b :: b in Without(bs, k) <==> b in bs && b != bs[k]
  {
    var ms := Without(bs, k);
    forall i {:trigger ms[i].nextFree} | 0 <= i < |ms|
      ensures ms[i].nextFree == if i + 1 < |ms| then ms[i + 1] else null
    {
      var j := if i < k then i else i + 1;
      assert ms[i] == bs[j] && bs[j].nextFree == bs[j].nextFree;
    }
    forall b | b in bs && b != bs[k]
      ensures b in ms
    {
      var j :| 0 <= j < |bs| && bs[j] == b;
      assert ms[if j < k then j else j - 1] == b;
    }
  }

  /** Everything about a block except its place on the free chain. */
  twostate predicate Untouched(b: MemLinks)
    reads b
  {
    && b.data == old(b.data) && b.usedFree == old(b.usedFree) && b.req == old(b.req) && b.csum == old(b.csum)
    && b.owner == old(b.owner) && b.powner == old(b.powner) && b.next == old(b.next)
  }

  /** One size class: all its blocks, the free ones among them, and their number. */
  class Chain {
    ghost const id: nat
    var head: MemLinks?
    var first: MemLinks?
    var countOf: int
    ghost var all: seq<MemLinks>
    ghost var unused: seq<MemLinks>

    ghost predicate Valid()
      reads this, all, unused
    {
      QueueOk(head, first, all, unused, id) && countOf == |all|
    }

    constructor (ghost q: nat)
      ensures Valid() && Sound() && id == q && all == [] && unused == []
    {
      id := q;
      head, first, countOf := null, null, 0;
      all, unused := [], [];
    }

    /** The guards of every block in use are untouched, and the bytes of every free block still add up. */
    ghost predicate Sound()
      reads this, all
    {
      forall b {:trigger b in all} :: b in all ==>
        if b.usedFree then Guarded(b.data, Place(b.req)) else Checksum(b.data) == b.csum
    }

    /** The first free block with room for `size` bytes, and the one before it on the free chain. */
    method Find(size: SizeT) returns (prev: MemLinks?, at: MemLinks?, ghost k: nat)
      requires Valid()
      ensures k <= |unused| && forall i {:trigger unused[i]} :: 0 <= i < k ==> unused[i].Room() < size
      ensures at == (if k < |unused| then unused[k] else null) && (at != null ==> at.Room() >= size)
      ensures at != null ==> prev == if k > 0 then unused[k - 1] else null
    {
      prev, at, k := null, first, 0;
      while at != null
        invariant k <= |unused| && at == (if k < |unused| then unused[k] else null)
        invariant prev == if k > 0 then unused[k - 1] else null
        invariant forall i {:trigger unused[i]} :: 0 <= i < k ==> unused[i].Room() < size
        decreases |unused| - k
      {
        assert at.nextFree == unused[k].nextFree;
        assert at in unused && !at.usedFree;
        if !at.usedFree && at.Room() >= size {
          return;
        }
        prev := at;
        at := at.nextFree;
        k := k + 1;
      }
    }

    /** What the code takes for room is room in a free block. */
    lemma FreeRoom(at: MemLinks, size: SizeT)
      requires BlockOk(at) && !at.usedFree && size <= at.Room()
      ensures HasRoom(size) && size + MEMORY_PADDING <= |at.data|
    {
      RoomIff(at.req);
      RoomIff(size);
    }

    /** A free block taken off the free chain. */
    method TakeOff(prev: MemLinks?, at: MemLinks, ghost k: nat)
      requires Valid() && k < |unused| && at == unused[k] && prev == if k > 0 then unused[k - 1] else null
      modifies this`first, this`unused, unused`nextFree
      ensures Chained(head, all, id) && FreeChained(first, unused)
      ensures unused == Without(old(unused), k)
      ensures forall b :: b in unused <==> b in old(unused) && b != at
    {
      assert at.nextFree == unused[k].nextFree;
      if prev == null {
        first := at.nextFree;
      } else {
        prev.nextFree := at.nextFree;
      }
      FreeLess(first, unused, k);
      unused := Without(unused, k);
    }

    /** A free block marked as in use for another owner, with guards for its request. */
    method HandOut(at: MemLinks, size: SizeT, o: Owner)
      requires HasRoom(size) && size + MEMORY_PADDING <= |at.data|
      modifies at`req, at`usedFree, at`powner, at`owner, at`data
      ensures at.usedFree && at.req == size && Guarded(at.data, Place(size)) && |at.data| == old(|at.data|)
      ensures at.owner == o && at.powner == old(at.owner)
      ensures at.data[PADDING_HALF..PADDING_HALF + size] == old(at.data[PADDING_HALF..PADDING_HALF + size])
    {
      hide Guarded, HasRoom, Place;
      RoomIff(size);
      at.req := size;
      at.usedFree := true;
      at.powner := at.owner;
      at.owner := o;
      WriteGuards(at, Place(size));
    }

    /** A block that is free and has room used again. `intact` says whether its bytes still add up. */
    method Reuse(size: SizeT, o: Owner, prev: MemLinks?, at: MemLinks, ghost k: nat) returns (intact: bool)
      requires Valid() && Queue(size) == id && size <= at.Room()
      requires k < |unused| && at == unused[k] && prev == if k > 0 then unused[k - 1] else null
      modifies this`first, this`unused, unused
      ensures Valid() && all == old(all) && unused == Without(old(unused), k) && HasRoom(size)
      ensures at in all && at.usedFree && at.req == size && Guarded(at.data, Place(size))
      ensures size + MEMORY_PADDING <= |at.data| && at.owner == o && at.powner == old(at.owner)
      ensures at.data[PADDING_HALF..PADDING_HALF + size] == old(at.data[PADDING_HALF..PADDING_HALF + size])
      ensures intact <==> Checksum(old(at.data)) == old(at.csum)
      ensures forall b :: b in all && b != at ==> Untouched(b)
    {
      hide Guarded, Checksum, Chained, FreeChained, HasRoom, Place, Queue, MemSize, Inside, MemLinks.Room;
      assert at in all && at in unused && BlockOk(at);
      ChainQueue(head, all, id, at);
      FreeRoom(at, size);
      RoomIff(size);
      TakeOff(prev, at, k);
      var s := SumMemory(at);
      intact := s == at.csum;
      HandOut(at, size, o);
    }

    /** A new block on the chain. A request near the limit of `size_t` gets one that is too short. */
    method Grow(size: SizeT, o: Owner) returns (at: MemLinks)
      requires Valid() && Queue(size) == id && Inside(size)
      modifies this`head, this`countOf, this`all
      ensures Valid() && fresh(at) && all == [at] + old(all) && unused == old(unused)
      ensures at.usedFree && at.req == size && at.owner == o
      ensures Guarded(at.data, Place(size)) <==> HasRoom(size)
      ensures size + MEMORY_PADDING <= |at.data| <==> HasRoom(size)
      ensures HasRoom(size) ==> at.data[PADDING_HALF..PADDING_HALF + size] == seq(size, _ => 0)
      ensures forall b :: b in old(all) ==> Untouched(b)
    {
      hide Guarded, FreeChained, Chained, FreeIsUnused, HasRoom, Inside, MemSize, Place, Queue;
      RoomIff(size);
      countOf := countOf + 1;
      at := new MemLinks(MemSize(size), size, o, id, |all|);
      at.next := head;
      ChainMore(head, all, id, at);
      UsedMore(all, unused, at);
      ghost var was := at.data;
      head := at;
      all := [at] + all;
      WriteGuards(at, Place(size));
      assert HasRoom(size) ==> was[PADDING_HALF..PADDING_HALF + size] == seq(size, _ => 0);
      assert BlockOk(at);
    }

    /** A block for `size` bytes: the first free one with room, or else a new one. There is none where the code writes
        a guard outside of the block. */
    method Malloc(size: SizeT, o: Owner) returns (at: MemLinks?, intact: bool)
      requires Valid() && Queue(size) == id
      modifies this, unused
      ensures Valid() && (at == null <==> !Inside(size))
      ensures at == null ==> all == old(all) && intact
      ensures at != null ==> at in all && at.usedFree && at.req == size && at.owner == o
      ensures at != null ==> (Guarded(at.data, Place(size)) <==> HasRoom(size))
      ensures at != null ==> (size + MEMORY_PADDING <= |at.data| <==> HasRoom(size))
      ensures at != null && at in old(all) ==> all == old(all) && at in old(unused) && !old(at.usedFree) && HasRoom(size)
      ensures at != null && at !in old(all) ==> fresh(at) && all == [at] + old(all)
      ensures at != null && at !in old(all) ==> forall b :: b in old(unused) ==> b.Room() < size
      ensures at != null && at !in old(all) && HasRoom(size) ==>
                at.data[PADDING_HALF..PADDING_HALF + size] == seq(size, _ => 0)
      ensures forall b :: b in unused ==> b in old(unused)
      ensures intact <==> at == null || at !in old(all) || Checksum(old(at.data)) == old(at.csum)
      ensures forall b :: b in old(all) && b != at ==> Untouched(b)
      ensures old(Sound()) ==> intact && (at != null ==> (Sound() <==> HasRoom(size)))
    {
      hide Guarded, Checksum, Chained, FreeChained, HasRoom, Inside, Place, Queue;
      var prev, free, k := Find(size);
      if free != null {
        assert free in unused && free in all && !free.usedFree;
        at := free;
        intact := Reuse(size, o, prev, free, k);
        RoomIff(size);
      } else if Inside(size) {
        at := Grow(size, o);
        intact := true;
      } else {
        at, intact := null, true;
      }
    }

    /** Gives a block back. It fails, where the code aborts, exactly when the block is not in use or a guard has
        been overwritten. */
    method Free(at: MemLinks) returns (ok: bool)
      requires Valid() && at in all
      modifies this`first, this`unused, at
      ensures ok <==> old(at.usedFree) && Guarded(old(at.data), Place(old(at.req)))
      ensures all == old(all) && head == old(head)
      ensures ok ==> Valid() && unused == [at] + old(unused) && !at.usedFree
      ensures ok ==> at.data == old(at.data) && at.csum == Checksum(at.data) && at.req == old(at.req)
      ensures old(Sound()) ==> (ok <==> old(at.usedFree)) && (ok ==> Sound())
    {
      hide Guarded, Checksum, Chained, FreeChained, HasRoom, Place, Queue, MemSize, Inside;
      assert BlockOk(at);
      ChainQueue(head, all, id, at);
      var size := at.req;
      if !at.usedFree {
        return false;
      }
      at.usedFree := false;
      var good := CheckGuards(at, Place(size));
      if !good {
        return false;
      }
      if !HasRoom(size) {
        OverlapShows(at.data, Place(size));
      }
      UnusedMore(all, unused, at);
      PutBack(at);
      ok := true;
    }

    /** A block that is in order and no longer in use put on the free chain, with the sum of its bytes. */
    method PutBack(at: MemLinks)
      requires Chained(head, all, id) && FreeChained(first, unused) && countOf == |all| && at in all && at !in unused
      requires FreeIsUnused(all, [at] + unused) && forall b {:trigger b in all} :: b in all ==> BlockOk(b)
      modifies this`first, this`unused, at`csum, at`nextFree
      ensures Valid() && unused == [at] + old(unused) && at.csum == Checksum(at.data)
    {
      hide Checksum, Chained, FreeChained, BlockOk, FreeIsUnused;
      at.csum := SumMemory(at);
      at.nextFree := first;
      FreeMore(first, unused, at);
      first := at;
      unused := [at] + unused;
    }

    /** A block that was handed out without room can never be given back: its guards are found broken. */
    lemma ShortForGood(at: MemLinks)
      requires Valid() && at in all && !HasRoom(at.req)
      ensures at.usedFree && !Guarded(at.data, Place(at.req)) && !Sound()
    {
      assert BlockOk(at);
      OverlapShows(at.data, Place(at.req));
    }

    /** An owner writing one of the bytes it asked for and got. */
    method Poke(at: MemLinks, i: nat, v: UChar)
      requires Valid() && at in all && at.usedFree && i < at.req && HasRoom(at.req)
      modifies at`data
      ensures Valid() && PADDING_HALF + i < old(|at.data|) && at.data == old(at.data)[PADDING_HALF + i := v]
      ensures old(Sound()) ==> Sound()
    {
      hide Checksum, Chained, FreeChained, HasRoom, Place, Queue;
      assert BlockOk(at);
      RoomIff(at.req);
      at.data := at.data[PADDING_HALF + i := v];
    }

    /** A cleared block of `z` bytes. There is none where the code writes outside of the block. */
    method Calloc(z: SizeT, o: Owner) returns (at: MemLinks?, intact: bool)
      requires Valid() && Queue(z) == id
      modifies this, unused
      ensures Valid() && (at == null <==> !HasRoom(z))
      ensures at != null ==> at in all && at.usedFree && at.owner == o && at.req == z
      ensures at != null ==> z + MEMORY_PADDING <= |at.data| && |at.data| + HEADER + SLACK < SIZE_LIMIT
      ensures at != null ==> at.data[PADDING_HALF..PADDING_HALF + z] == seq(z, _ => 0)
      ensures at != null && at in old(all) ==> all == old(all) && !old(at.usedFree)
      ensures at != null && at !in old(all) ==> fresh(at) && all == [at] + old(all)
      ensures forall b :: b in old(all) ==> b in all
      ensures forall b :: b in all ==> b in old(all) || fresh(b)
      ensures forall b :: b in unused ==> b in all
      ensures forall b :: b in old(all) && b != at ==> Untouched(b)
      ensures old(Sound()) && at != null ==> Sound() && intact
    {
      hide Guarded, Checksum, Chained, FreeChained, HasRoom, Queue;
      RoomIff(z);
      var b, good := Malloc(z, o);
      intact := good;
      if b == null || !HasRoom(z) {
        at := null;
      } else {
        assert BlockOk(b);
        at := b;
        ClearAll(b, z);
      }
    }

    method ClearAll(at: MemLinks, z: SizeT)
      requires Valid() && at in all && at.usedFree && at.req == z && Guarded(at.data, Place(z)) && HasRoom(z)
      modifies at`data
      ensures Valid() && |at.data| == old(|at.data|) && Guarded(at.data, Place(z))
      ensures PADDING_HALF + z <= |at.data| && at.data[PADDING_HALF..PADDING_HALF + z] == seq(z, _ => 0)
      ensures old(Sound()) ==> Sound()
    {
      hide Checksum, Chained, FreeChained, HasRoom, Place, Queue;
      assert BlockOk(at);
      RoomIff(z);
      var d := seq(z, _ => 0);
      at.data := at.data[..PADDING_HALF] + d + at.data[PADDING_HALF + z..];
    }
  }

  /** The allocator: its five chains. */
  class Allocator {
    const queues: seq<Chain>
    ghost var Repr: set<object>

    /** A chain in its place, with all it consists of in the footprint. */
    ghost predicate ChainOk(q: nat)
      requires |queues| == QUEUES && q < QUEUES
      reads this, Repr
    {
      && queues[q] in Repr && queues[q].id == q
      && (forall b :: b in queues[q].all ==> b in Repr)
      && (forall b :: b in queues[q].unused ==> b in queues[q].all)
      && queues[q].Valid()
    }

    ghost predicate Valid()
      reads this, Repr
    {
      && this !in Repr && |queues| == QUEUES
      && forall q {:trigger ChainOk(q)} {:trigger queues[q]} :: 0 <= q < QUEUES ==> ChainOk(q)
    }

    ghost predicate Sound()
      requires Valid()
      reads this, Repr
    {
      forall q {:trigger queues[q]} :: 0 <= q < QUEUES ==> ChainOk(q) && queues[q].Sound()
    }

    constructor ()
      ensures Valid() && Sound() && fresh(Repr)
      ensures forall q :: 0 <= q < QUEUES ==> queues[q].all == []
    {
      hide QueueOk, Chain.Valid, Chain.Sound, ChainOk, Valid, Sound;
      var c0 := new Chain(0);
      var c1 := new Chain(1);
      var c2 := new Chain(2);
      var c3 := new Chain(3);
      var c4 := new Chain(4);
      queues := [c0, c1, c2, c3, c4];
      Repr := {c0, c1, c2, c3, c4};
      new;
      assert queues[0] == c0 && queues[1] == c1 && queues[2] == c2 && queues[3] == c3 && queues[4] == c4;
      assert Empty(0);
      assert Empty(1);
      assert Empty(2);
      assert Empty(3);
      assert Empty(4);
      hide Empty;
      AllEmpty();
    }

    /** A chain in its place with no blocks. */
    ghost predicate Empty(q: nat)
      requires |queues| == QUEUES && q < QUEUES
      reads this, Repr
    {
      && queues[q] in Repr && queues[q].id == q && queues[q].all == [] && queues[q].unused == []
      && queues[q].Valid() && queues[q].Sound()
    }

    lemma AllEmpty()
      requires |queues| == QUEUES && this !in Repr
      requires Empty(0) && Empty(1) && Empty(2) && Empty(3) && Empty(4)
      ensures Valid() && Sound() && forall q :: 0 <= q < QUEUES ==> queues[q].all == []
    {
      hide Chain.Valid, Chain.Sound;
      forall q | 0 <= q < QUEUES
        ensures Empty(q)
      {
      }
    }

    /** Blocks of different chains are different. */
    lemma Apart(p: nat, q: nat, b: MemLinks)
      requires Valid() && p < QUEUES && q < QUEUES && p != q && b in queues[p].all
      ensures b !in queues[q].all && b !in queues[q].unused && queues[p] != queues[q]
    {
      assert ChainOk(p) && ChainOk(q);
      ChainQueue(queues[p].head, queues[p].all, p, b);
      if b in queues[q].all {
        ChainQueue(queues[q].head, queues[q].all, q, b);
        assert false;
      }
    }

    /** A chain and its blocks as they were. */
    twostate predicate Same(p: nat)
      requires |queues| == QUEUES && p < QUEUES
      reads queues[p], queues[p].all
    {
      unchanged(queues[p]) && forall b {:trigger b in old(queues[p].all)} :: b in old(queues[p].all) ==> unchanged(b)
    }

    twostate lemma SameOk(p: nat)
      requires |queues| == QUEUES && p < QUEUES && old(allocated(queues[p])) && old(ChainOk(p)) && Same(p)
      requires old(Repr) <= Repr
      ensures ChainOk(p) && queues[p].Sound() == old(queues[p].Sound())
    {
      hide QueueOk, Guarded, Checksum;
      var d := queues[p];
      assert forall i {:trigger d.all[i]} :: 0 <= i < |d.all| ==> d.all[i] in old(d.all);
      assert forall i {:trigger d.unused[i]} :: 0 <= i < |d.unused| ==> d.unused[i] in old(d.unused);
      assert d.Valid();
    }

    /** No block leaves its chain, and every block but `at` is as it was, whether in use or not. */
    twostate predicate Kept(new at: MemLinks?)
      requires old(Valid()) && Valid()
      reads this, Repr
    {
      forall p {:trigger queues[p]} :: 0 <= p < QUEUES ==>
        && ChainOk(p) && old(ChainOk(p))
        && forall b {:trigger b in old(queues[p].all)} :: b in old(queues[p].all) ==>
             b in queues[p].all && (b != at ==> Untouched(b))
    }

    /** No block but `at` is new on a chain. */
    twostate predicate Only(new at: MemLinks?)
      requires old(Valid()) && Valid()
      reads this, Repr
    {
      forall p {:trigger queues[p]} :: 0 <= p < QUEUES ==>
        && ChainOk(p) && old(ChainOk(p))
        && forall b {:trigger b in queues[p].all} :: b in queues[p].all ==> b in old(queues[p].all) || b == at
    }

    /** All chains but `q` are as they were: then what holds of `q` is all there is to show. */
    twostate lemma OneChain(q: nat, new at: MemLinks?)
      requires old(Valid()) && q < QUEUES && ChainOk(q) && this !in Repr && old(Repr) <= Repr
      requires forall p {:trigger Same(p)} :: 0 <= p < QUEUES && p != q ==> Same(p)
      requires forall b {:trigger b in old(queues[q].all)} :: b in old(queues[q].all) ==>
                 b in queues[q].all && (b != at ==> Untouched(b))
      ensures Valid() && Kept(at)
      ensures (forall b {:trigger b in queues[q].all} :: b in queues[q].all ==> b in old(queues[q].all) || b == at) ==>
                Only(at)
      ensures old(Sound()) ==> (Sound() <==> queues[q].Sound())
    {
      hide Chain.Valid, Chain.Sound;
      forall p {:trigger queues[p]} | 0 <= p < QUEUES && p != q
        ensures old(ChainOk(p)) && Same(p) && ChainOk(p) && queues[p].Sound() == old(queues[p].Sound())
      {
        SameOk(p);
      }
      assert old(ChainOk(q));
    }

    /** Nothing that a chain owns is touched where only another chain and its blocks are. */
    lemma Elsewhere(q: nat)
      requires Valid() && q < QUEUES
      ensures forall p {:trigger queues[p]} :: 0 <= p < QUEUES && p != q ==>
                && queues[p] != queues[q]
                && forall b {:trigger b in queues[p].all} :: b in queues[p].all ==>
                     b !in queues[q].all && b !in queues[q].unused
    {
      hide QueueOk;
      forall p, b | 0 <= p < QUEUES && p != q && b in queues[p].all
        ensures b !in queues[q].all && b !in queues[q].unused
      {
        Apart(p, q, b);
      }
      forall p {:trigger Same(p)} | 0 <= p < QUEUES && p != q
        ensures queues[p] != queues[q]
      {
        assert ChainOk(p) && ChainOk(q);
      }
    }

    /** A block for `size` bytes from the chain of that size. */
    method Malloc(size: SizeT, o: Owner) returns (at: MemLinks?, intact: bool)
      requires Valid()
      modifies Repr, this`Repr
      ensures Valid() && fresh(Repr - old(Repr)) && Kept(at) && Only(at)
      ensures at == null <==> !Inside(size)
      ensures at != null ==> at in queues[Queue(size)].all && at.usedFree && at.req == size && at.owner == o
      ensures at != null ==> (Guarded(at.data, Place(size)) <==> HasRoom(size))
      ensures at != null ==> (size + MEMORY_PADDING <= |at.data| <==> HasRoom(size))
      ensures at != null ==> fresh(at) || !old(at.usedFree)
      ensures old(Sound()) ==> intact && (at != null ==> (Sound() <==> HasRoom(size)))
    {
      hide QueueOk, Guarded, Checksum, Chain.Sound, HasRoom, Inside, Place;
      var q := Queue(size);
      var c := queues[q];
      assert ChainOk(q);
      Elsewhere(q);
      assert old(Sound()) ==> old(c.Sound());
      at, intact := c.Malloc(size, o);
      Repr := Repr + if at == null then {} else {at};
      forall p {:trigger Same(p)} | 0 <= p < QUEUES && p != q
        ensures Same(p)
      {
        assert forall b {:trigger b in old(queues[p].all)} :: b in old(queues[p].all) ==> b !in old(queues[q].all);
      }
      OneChain(q, at);
    }

    /** A cleared block for `num` items of `size` bytes. The product is taken in 64 bits: the block has room for all of
        them exactly when the product, the guards and the header fit. */
    method Calloc(num: SizeT, size: SizeT, o: Owner) returns (at: MemLinks?, intact: bool)
      requires Valid()
      modifies Repr, this`Repr
      ensures Valid() && fresh(Repr - old(Repr)) && Kept(at) && (at != null ==> Only(at))
      ensures at == null <==> !HasRoom(num * size % SIZE_LIMIT)
      ensures at != null ==> at in queues[Queue(at.req)].all && at.usedFree && at.owner == o
      ensures at != null ==> at.req == num * size % SIZE_LIMIT && at.req + MEMORY_PADDING <= |at.data|
      ensures at != null && num * size + MEMORY_PADDING <= |at.data| <==>
              num * size + MEMORY_PADDING + HEADER + SLACK < SIZE_LIMIT
      ensures at != null ==> at.data[PADDING_HALF..PADDING_HALF + at.req] == seq(at.req, _ => 0)
      ensures at != null ==> fresh(at) || !old(at.usedFree)
      ensures old(Sound()) && at != null ==> Sound() && intact
    {
      hide Valid, Kept, Only, HasRoom, Queue, Sound;
      var product := num * size;
      Unwrapped(product);
      at, intact := Cleared(product % SIZE_LIMIT, o);
    }

    lemma Unwrapped(product: nat)
      ensures product + MEMORY_PADDING + HEADER + SLACK < SIZE_LIMIT ==>
                product % SIZE_LIMIT == product && HasRoom(product)
    {
      if product < SIZE_LIMIT {
        RoomIff(product);
      }
    }

    method Cleared(z: SizeT, o: Owner) returns (at: MemLinks?, intact: bool)
      requires Valid()
      modifies Repr, this`Repr
      ensures Valid() && fresh(Repr - old(Repr)) && Kept(at) && (at != null ==> Only(at))
      ensures at == null <==> !HasRoom(z)
      ensures at != null ==> at in queues[Queue(z)].all && at.usedFree && at.owner == o && at.req == z
      ensures at != null ==> z + MEMORY_PADDING <= |at.data| && |at.data| + HEADER + SLACK < SIZE_LIMIT
      ensures at != null ==> at.data[PADDING_HALF..PADDING_HALF + z] == seq(z, _ => 0)
      ensures at != null ==> fresh(at) || !old(at.usedFree)
      ensures old(Sound()) && at != null ==> Sound() && intact
    {
      hide QueueOk, Guarded, Checksum, Chain.Sound, HasRoom, Inside, Place;
      var q := Queue(z);
      var c := queues[q];
      assert ChainOk(q);
      Elsewhere(q);
      assert old(Sound()) ==> old(c.Sound());
      at, intact := c.Calloc(z, o);
      Repr := Repr + set b | b in c.all;
      forall p {:trigger Same(p)} | 0 <= p < QUEUES && p != q
        ensures Same(p)
      {
        assert forall b {:trigger b in old(queues[p].all)} :: b in old(queues[p].all) ==> b !in old(queues[q].all);
      }
      OneChain(q, at);
    }

    /** A block given back to the chain of its request. It fails, where the code aborts, exactly when the block is
        not in use or a guard has been overwritten; with sound blocks only the former can be. */
    method Free(at: MemLinks, ghost q: nat) returns (ok: bool)
      requires Valid() && q < QUEUES && at in queues[q].all
      modifies Repr
      ensures ok <==> old(at.usedFree) && Guarded(old(at.data), Place(old(at.req)))
      ensures q == Queue(old(at.req))
      ensures ok ==> Valid() && Kept(at) && Only(at)
      ensures ok ==> at in queues[q].unused && !at.usedFree && at.data == old(at.data)
      ensures ok && old(Sound()) ==> Sound()
      ensures old(Sound()) ==> (ok <==> old(at.usedFree))
    {
      hide Guarded, Checksum, Chain.Sound;
      assert ChainOk(q) && BlockOk(at);
      ChainQueue(queues[q].head, queues[q].all, q, at);
      hide QueueOk;
      var c := queues[Queue(at.req)];
      Elsewhere(q);
      assert old(Sound()) ==> old(c.Sound());
      ok := c.Free(at);
      if ok {
        assert ChainOk(q);
        forall p {:trigger Same(p)} | 0 <= p < QUEUES && p != q
          ensures Same(p)
        {
          assert forall b {:trigger b in old(queues[p].all)} :: b in old(queues[p].all) ==> b !in old(queues[q].all);
        }
        OneChain(q, at);
      }
    }

    /** An owner writing one of the bytes it asked for and got. */
    method Poke(at: MemLinks, i: nat, v: UChar, ghost q: nat)
      requires Valid() && q < QUEUES && at in queues[q].all && at.usedFree && i < at.req && HasRoom(at.req)
      modifies at`data
      ensures Valid() && Kept(at) && Only(at)
      ensures PADDING_HALF + i < old(|at.data|) && at.data == old(at.data)[PADDING_HALF + i := v]
      ensures old(Sound()) ==> Sound()
    {
      hide Guarded, Checksum, Chain.Sound, HasRoom;
      assert ChainOk(q) && BlockOk(at);
      ChainQueue(queues[q].head, queues[q].all, q, at);
      hide QueueOk;
      Elsewhere(q);
      assert old(Sound()) ==> old(queues[q].Sound());
      var c := queues[Queue(at.req)];
      c.Poke(at, i, v);
      forall p {:trigger Same(p)} | 0 <= p < QUEUES && p != q
        ensures Same(p)
      {
        assert forall b {:trigger b in old(queues[p].all)} :: b in old(queues[p].all) ==> b !in old(queues[q].all);
      }
      OneChain(q, at);
    }

    /** In a sound allocator every block in use has the room it was asked for. */
    lemma SoundRoom(at: MemLinks, q: nat)
      requires Valid() && Sound() && q < QUEUES && at in queues[q].all && at.usedFree
      ensures HasRoom(at.req) && at.req + MEMORY_PADDING <= |at.data| && q == Queue(at.req)
    {
      assert ChainOk(q) && queues[q].Sound() && BlockOk(at);
      ChainQueue(queues[q].head, queues[q].all, q, at);
      if !HasRoom(at.req) {
        queues[q].ShortForGood(at);
      }
    }
  }
}
