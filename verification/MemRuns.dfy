/** Programs that use the checking allocator: what a run of them reads, writes and gives back. */
module MemRuns {
  import opened MemCheck
  import opened SeqFacts

  /** What a program does. Handles number the blocks it got, in order. */
  datatype Op =
    | Malloc(size: SizeT)
    | Calloc(num: SizeT, size: SizeT)
    | Write(handle: nat, i: nat, v: UChar)
    | Free(handle: nat)

  /** A byte of a block; nothing is promised of one that was never written. */
  datatype Byte = Unknown | Known(v: UChar)

  /** The blocks the program owns, and the number of blocks it ever got. */
  datatype Memory = Memory(live: map<nat, seq<Byte>>, got: nat)

  /** What a program may do: ask for sizes that fit the arithmetic, write where it owns the bytes, and give back what
      it owns. */
  ghost predicate Allowed(op: Op, m: Memory) {
    match op
    case Malloc(size) => HasRoom(size)
    case Calloc(num, size) => HasRoom(num * size % SIZE_LIMIT)
    case Write(h, i, _) => h in m.live && i < |m.live[h]|
    case Free(h) => h in m.live
  }

  ghost function Step(op: Op, m: Memory): Memory
    requires Allowed(op, m)
  {
    match op
    case Malloc(size) => Memory(m.live[m.got := seq(size, _ => Unknown)], m.got + 1)
    case Calloc(num, size) => Memory(m.live[m.got := seq(num * size % SIZE_LIMIT, _ => Known(0))], m.got + 1)
    case Write(h, i, v) => Memory(m.live[h := m.live[h][i := Known(v)]], m.got)
    case Free(h) => Memory(m.live - {h}, m.got)
  }

  ghost predicate Legal(ops: seq<Op>, m: Memory) {
    ops == [] || (Allowed(ops[0], m) && Legal(ops[1..], Step(ops[0], m)))
  }

  ghost function Play(ops: seq<Op>, m: Memory): Memory
    requires Legal(ops, m)
  {
    if ops == [] then m else Play(ops[1..], Step(ops[0], m))
  }

  /** Handles of owned blocks are numbers of blocks got. */
  ghost predicate Sensible(m: Memory) {
    forall h :: h in m.live ==> h < m.got
  }

  /** An operation that neither writes byte `i` of block `h` nor gives the block back. */
  predicate Spares(op: Op, h: nat, i: nat) {
    match op
    case Write(g, j, _) => g != h || j != i
    case Free(g) => g != h
    case _ => true
  }

  /** A byte once written is read until it is written again or its block given back, whatever else is done. */
  lemma {:induction false} WrittenIsRead(ops: seq<Op>, m: Memory, h: nat, i: nat)
    requires Sensible(m) && Legal(ops, m) && h in m.live && i < |m.live[h]|
    requires forall op :: op in ops ==> Spares(op, h, i)
    ensures var n := Play(ops, m); h in n.live && i < |n.live[h]| && n.live[h][i] == m.live[h][i]
  {
    if ops != [] {
      assert ops[0] in ops;
      WrittenIsRead(ops[1..], Step(ops[0], m), h, i);
    }
  }

  /** The bytes between the guards are those of the program's view. */
  ghost predicate Shows(data: seq<UChar>, bytes: seq<Byte>) {
    && PADDING_HALF + |bytes| <= |data|
    && forall i {:trigger bytes[i]} :: 0 <= i < |bytes| && bytes[i].Known? ==> data[PADDING_HALF + i] == bytes[i].v
  }

  lemma WriteShows(data: seq<UChar>, bytes: seq<Byte>, i: nat, v: UChar)
    requires Shows(data, bytes) && i < |bytes|
    ensures PADDING_HALF + i < |data| && Shows(data[PADDING_HALF + i := v], bytes[i := Known(v)])
  {
  }

  lemma ZerosShow(data: seq<UChar>, z: nat)
    requires PADDING_HALF + z <= |data| && data[PADDING_HALF..PADDING_HALF + z] == seq(z, _ => 0)
    ensures Shows(data, seq(z, _ => Known(0)))
  {
    forall i {:trigger data[PADDING_HALF + i]} | 0 <= i < z
      ensures data[PADDING_HALF + i] == 0
    {
      assert data[PADDING_HALF + i] == data[PADDING_HALF..PADDING_HALF + z][i];
    }
  }

  /** A program with its allocator. */
  class Program {
    const heap: Allocator
    /** What the calls returned. */
    var blocks: seq<MemLinks>
    ghost var mem: Memory

    /** A block is on its chain. */
    ghost predicate OnChain(b: MemLinks)
      reads heap, heap.Repr
    {
      heap.Valid() && b.queue < QUEUES && b in heap.queues[b.queue].all
    }

    /** The block of an owned handle is in use with the bytes of the program's view. */
    ghost predicate Holds(h: nat)
      requires h in mem.live && h < |blocks|
      reads this, heap, heap.Repr, blocks
    {
      && OnChain(blocks[h]) && blocks[h].usedFree
      && blocks[h].req == |mem.live[h]| && Shows(blocks[h].data, mem.live[h])
    }

    /** A block in use is that of an owned handle. */
    ghost predicate Owned(b: MemLinks)
      reads this
    {
      exists h :: h in mem.live && h < |blocks| && blocks[h] == b
    }

    ghost predicate Valid()
      reads this, heap, heap.Repr, blocks
    {
      && this !in heap.Repr && heap.Valid() && heap.Sound()
      && |blocks| == mem.got && Sensible(mem)
      && (forall h {:trigger blocks[h]} :: 0 <= h < |blocks| ==> OnChain(blocks[h]))
      && (forall h {:trigger Holds(h)} {:trigger h in mem.live} :: h in mem.live ==> Holds(h))
      && (forall g, h {:trigger blocks[g], blocks[h]} ::
            g in mem.live && h in mem.live && g != h ==> blocks[g] != blocks[h])
      && (forall p, b {:trigger b in heap.queues[p].all} ::
            0 <= p < QUEUES && b in heap.queues[p].all && b.usedFree ==> Owned(b))
    }

    constructor ()
      ensures Valid() && fresh(heap) && fresh(heap.Repr) && mem == Memory(map[], 0)
    {
      heap := new Allocator();
      blocks := [];
      mem := Memory(map[], 0);
    }

    /** All blocks there were are still on their chains. */
    twostate predicate AllStay()
      requires old(heap.Valid()) && heap.Valid()
      reads heap, heap.Repr
    {
      forall p, b {:trigger b in old(heap.queues[p].all)} :: 0 <= p < QUEUES && b in old(heap.queues[p].all) ==>
        b in heap.queues[p].all
    }

    /** A block that was on its chain still is, and is as it was unless it is the one that was worked on. */
    twostate lemma StillThere(b: MemLinks, new at: MemLinks?)
      requires old(heap.Valid()) && heap.Valid() && heap.Kept(at) && old(OnChain(b))
      ensures OnChain(b) && (b != at ==> heap.queues[b.queue].Valid() && Untouched(b))
    {
      assert heap.ChainOk(b.queue);
    }

    /** Blocks that were not worked on still hold what they held. */
    twostate lemma StillHeld(h: nat, new at: MemLinks?)
      requires old(heap.Valid()) && heap.Valid() && heap.Kept(at)
      requires h in old(mem.live) && h < |old(blocks)| && old(Holds(h)) && old(blocks[h]) != at
      requires h < |blocks| && blocks[h] == old(blocks[h]) && h in mem.live && mem.live[h] == old(mem.live[h])
      ensures Holds(h)
    {
      StillThere(old(blocks[h]), at);
    }

    /** A block in use that was not worked on was in use before. */
    twostate lemma WasInUse(p: nat, new b: MemLinks, new at: MemLinks?)
      requires old(heap.Valid()) && heap.Valid() && heap.Kept(at) && heap.Only(at)
      requires p < QUEUES && b in heap.queues[p].all && b.usedFree && b != at
      ensures old(allocated(b)) && b in old(heap.queues[p].all) && old(b.usedFree)
    {
      assert heap.ChainOk(p) && old(heap.ChainOk(p));
    }

    twostate lemma Stayed(new at: MemLinks?)
      requires old(heap.Valid()) && heap.Valid() && heap.Kept(at)
      ensures AllStay()
    {
    }

    /** A block just handed out becomes that of the next handle. */
    twostate lemma Got(new at: MemLinks, bytes: seq<Byte>)
      requires old(Valid()) && heap.Valid() && heap.Sound() && this !in heap.Repr
      requires heap.Kept(at) && heap.Only(at) && (fresh(at) || !old(at.usedFree))
      requires OnChain(at) && at.usedFree && at.req == |bytes| && Shows(at.data, bytes)
      requires blocks == old(blocks) + [at] && mem == Memory(old(mem.live)[old(mem.got) := bytes], old(mem.got) + 1)
      ensures Valid() && AllStay()
    {
      hide Allocator.ChainOk, Allocator.Sound, Allocator.Kept, Allocator.Only, Shows, OnChain, AllStay;
      Stayed(at);
      forall h {:trigger blocks[h]} | 0 <= h < |blocks|
        ensures OnChain(blocks[h])
      {
        if h < |old(blocks)| {
          StillThere(old(blocks[h]), at);
        }
      }
      forall h {:trigger Holds(h)} | h in old(mem.live)
        ensures old(blocks[h]) != at && Holds(h)
      {
        assert old(Holds(h));
        StillHeld(h, at);
      }
      assert Holds(old(mem.got));
      forall p, b {:trigger b in heap.queues[p].all} | 0 <= p < QUEUES && b in heap.queues[p].all && b.usedFree
        ensures Owned(b)
      {
        if b == at {
          assert blocks[old(mem.got)] == b;
        } else {
          WasInUse(p, b, at);
          assert old(Owned(b));
          var h :| h in old(mem.live) && h < |old(blocks)| && old(blocks)[h] == b;
          assert blocks[h] == b;
        }
      }
    }

    /** A block given back: its handle is no longer owned. */
    twostate lemma Gave(h: nat)
      requires old(Valid()) && heap.Valid() && heap.Sound() && this !in heap.Repr
      requires h in old(mem.live) && heap.Kept(old(blocks[h])) && heap.Only(old(blocks[h])) && !old(blocks[h]).usedFree
      requires blocks == old(blocks) && mem == Memory(old(mem.live) - {h}, old(mem.got))
      ensures Valid() && AllStay()
    {
      hide Allocator.ChainOk, Allocator.Sound, Allocator.Kept, Allocator.Only, Shows, OnChain, AllStay;
      Stayed(old(blocks[h]));
      var at := old(blocks[h]);
      forall g {:trigger blocks[g]} | 0 <= g < |blocks|
        ensures OnChain(blocks[g])
      {
        StillThere(blocks[g], at);
      }
      forall g {:trigger Holds(g)} | g in mem.live
        ensures Holds(g)
      {
        assert old(Holds(g)) && blocks[g] != old(blocks)[h];
        StillHeld(g, at);
      }
      forall p, b {:trigger b in heap.queues[p].all} | 0 <= p < QUEUES && b in heap.queues[p].all && b.usedFree
        ensures Owned(b)
      {
        WasInUse(p, b, at);
        assert old(Owned(b));
        var g :| g in old(mem.live) && g < |blocks| && blocks[g] == b;
        assert g in mem.live;
      }
    }

    /** A block written to by its owner. */
    twostate lemma Wrote(h: nat, new bytes: seq<Byte>)
      requires old(Valid()) && heap.Valid() && heap.Sound() && this !in heap.Repr
      requires h in old(mem.live) && |bytes| == |old(mem.live)[h]|
      requires heap.Kept(old(blocks[h])) && heap.Only(old(blocks[h])) && blocks == old(blocks)
      requires blocks[h].usedFree && blocks[h].req == old(blocks[h].req) && Shows(blocks[h].data, bytes)
      requires mem == Memory(old(mem.live)[h := bytes], old(mem.got))
      ensures Valid() && AllStay()
    {
      hide Allocator.ChainOk, Allocator.Sound, Allocator.Kept, Allocator.Only, OnChain, Shows, AllStay;
      Stayed(old(blocks[h]));
      var at := old(blocks[h]);
      forall g {:trigger blocks[g]} | 0 <= g < |blocks|
        ensures OnChain(blocks[g])
      {
        StillThere(blocks[g], at);
      }
      assert old(Holds(h));
      assert Holds(h);
      forall g {:trigger Holds(g)} | g in mem.live && g != h
        ensures Holds(g)
      {
        assert old(Holds(g)) && blocks[g] != old(blocks)[h];
        StillHeld(g, at);
      }
      forall p, b {:trigger b in heap.queues[p].all} | 0 <= p < QUEUES && b in heap.queues[p].all && b.usedFree
        ensures Owned(b)
      {
        if b == at {
          assert blocks[h] == b;
        } else {
          WasInUse(p, b, at);
          assert old(Owned(b));
          var g :| g in old(mem.live) && g < |blocks| && blocks[g] == b;
          assert g in mem.live;
        }
      }
    }

    /** The block of an owned handle is in use and has the room. */
    lemma InUse(h: nat)
      requires Valid() && h in mem.live
      ensures h < |blocks| && blocks[h].usedFree && blocks[h].req == |mem.live[h]| && HasRoom(blocks[h].req)
      ensures Shows(blocks[h].data, mem.live[h]) && heap.Valid() && heap.Sound() && this !in heap.Repr
      ensures blocks[h].queue < QUEUES && blocks[h] in heap.queues[blocks[h].queue].all && blocks[h] in heap.Repr
    {
      assert Holds(h);
      assert heap.ChainOk(blocks[h].queue);
      heap.SoundRoom(blocks[h], blocks[h].queue);
    }

    method DoMalloc(size: SizeT, o: Owner)
      requires Valid() && HasRoom(size)
      modifies this, heap.Repr, heap`Repr
      ensures Valid() && fresh(heap.Repr - old(heap.Repr)) && mem == Step(Malloc(size), old(mem))
      ensures old(blocks) <= blocks && AllStay()
    {
      RoomIff(size);
      hide Allocator.ChainOk, Allocator.Sound, Allocator.Kept, Allocator.Only, OnChain, Holds, Owned;
      var at, intact := heap.Malloc(size, o);
      Placed(at);
      blocks := blocks + [at];
      mem := Step(Malloc(size), mem);
      Got(at, seq(size, _ => Unknown));
    }

    method DoCalloc(num: SizeT, size: SizeT, o: Owner)
      requires Valid() && HasRoom(num * size % SIZE_LIMIT)
      modifies this, heap.Repr, heap`Repr
      ensures Valid() && fresh(heap.Repr - old(heap.Repr)) && mem == Step(Calloc(num, size), old(mem))
      ensures old(blocks) <= blocks && AllStay()
    {
      hide Allocator.ChainOk, Allocator.Sound, Allocator.Kept, Allocator.Only, OnChain, Holds, Owned;
      var at, intact := heap.Calloc(num, size, o);
      Placed(at);
      blocks := blocks + [at];
      mem := Step(Calloc(num, size), mem);
      ghost var z := at.req;
      ghost var bytes := seq(z, _ => Known(0));
      ZerosShow(at.data, z);
      Got(at, bytes);
    }

    method DoWrite(h: nat, i: nat, v: UChar)
      requires Valid() && h in mem.live && i < |mem.live[h]|
      modifies this, blocks[h]
      ensures Valid() && mem == Step(Write(h, i, v), old(mem)) && blocks == old(blocks) && AllStay()
    {
      hide Allocator.ChainOk, Allocator.Sound, Allocator.Kept, Allocator.Only, Owned, OnChain, Holds, Shows,
        HasRoom, Guarded, Place, Queue, Valid, AllStay;
      InUse(h);
      var at := blocks[h];
      ghost var next := Step(Write(h, i, v), mem);
      WriteShows(at.data, mem.live[h], i, v);
      heap.Poke(at, i, v, at.queue);
      mem := next;
      Wrote(h, next.live[h]);
    }

    /** A block given back. Through a handle whose block was given back before, the call fails, where the code aborts,
        exactly when the block has not been handed out again; otherwise the block of its new handle is lost. */
    method DoFree(h: nat) returns (ok: bool, ghost g: nat)
      requires Valid() && h < |blocks|
      modifies this, heap.Repr
      ensures ok <==> old(Owned(blocks[h]))
      ensures h in old(mem.live) ==> ok && g == h
      ensures blocks == old(blocks) && (ok ==> g in old(mem.live) && g < |blocks| && blocks[g] == blocks[h])
      ensures ok ==> Valid() && mem == Step(Free(g), old(mem)) && AllStay()
    {
      hide Allocator.ChainOk, Allocator.Sound, Allocator.Kept, Allocator.Only, OnChain, Holds, Guarded, Place,
        Queue, Valid, AllStay;
      WhoseBlock(h);
      g := h;
      if h !in mem.live && Owned(blocks[h]) {
        g :| g in mem.live && g < |blocks| && blocks[g] == blocks[h];
      }
      hide Owned;
      var at := blocks[h];
      ok := heap.Free(at, at.queue);
      if ok {
        mem := Step(Free(g), mem);
        Gave(g);
      }
    }

    lemma WhoseBlock(h: nat)
      requires Valid() && h < |blocks|
      ensures heap.Valid() && heap.Sound() && this !in heap.Repr && (blocks[h].usedFree <==> Owned(blocks[h]))
      ensures blocks[h].queue < QUEUES && blocks[h] in heap.queues[blocks[h].queue].all
      ensures h in mem.live ==> Owned(blocks[h])
    {
      assert OnChain(blocks[h]);
      if Owned(blocks[h]) {
        var g :| g in mem.live && g < |blocks| && blocks[g] == blocks[h];
        assert Holds(g);
      }
      if h in mem.live {
        assert Holds(h);
      }
    }

    /** One operation that the program may do. */
    method Do(op: Op, o: Owner) returns (ok: bool)
      requires Valid() && Allowed(op, mem)
      modifies this, heap.Repr, heap`Repr
      ensures ok && Valid() && fresh(heap.Repr - old(heap.Repr)) && mem == Step(op, old(mem))
      ensures old(blocks) <= blocks && AllStay()
    {
      hide Valid, AllStay;
      ok := true;
      match op
      case Malloc(size) => DoMalloc(size, o);
      case Calloc(num, size) => DoCalloc(num, size, o);
      case Write(h, i, v) =>
        InUse(h);
        DoWrite(h, i, v);
      case Free(h) =>
        InUse(h);
        ghost var g;
        ok, g := DoFree(h);
    }

    /** Every run of a program that keeps to its own bytes goes through: no call fails, the bytes read are those last
        written, every block stays on its chain, and the blocks in use are exactly those of the handles owned. */
    method Run(ops: seq<Op>, o: Owner) returns (ok: bool)
      requires Valid() && Legal(ops, mem)
      modifies this, heap.Repr, heap`Repr
      ensures ok && Valid() && mem == Play(ops, old(mem))
      ensures old(blocks) <= blocks && AllStay()
    {
      var k := 0;
      ok := true;
      assert AllStay();
      hide Valid, Allowed, Step;
      while k < |ops| && ok
        invariant k <= |ops| && ok && Valid() && Legal(ops[k..], mem) && Play(ops[k..], mem) == Play(ops, old(mem))
        invariant fresh(heap.Repr - old(heap.Repr)) && old(blocks) <= blocks
        invariant heap.Valid() && AllStay()
      {
        assert ops[k..][1..] == ops[k + 1..];
        ok := Do(ops[k], o);
        k := k + 1;
      }
    }

    lemma Placed(at: MemLinks)
      requires heap.Valid() && at in heap.queues[Queue(at.req)].all
      ensures OnChain(at)
    {
      assert heap.ChainOk(Queue(at.req));
      ChainQueue(heap.queues[Queue(at.req)].head, heap.queues[Queue(at.req)].all, Queue(at.req), at);
    }
  }
}
