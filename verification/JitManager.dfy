/**
The memory side of JLJITLinkMemoryManager (src/cgmemmgr.cpp): three allocators that share one
address space, the segments of link graphs, and the batch protocol that protects them.  Any
sequence of method calls is a run; `Valid` holds after each.
 */
module JitManager {
  import opened Bits
  import opened JitMemory
  import opened JitBlocks
  import opened JitAllocators
  import opened JitRo
  import opened JitFinalize
  import opened JitData
  import opened JitSegments
  import JitBatch

  // ---------------------------------------------------------------------------
  // The manager.
  // ---------------------------------------------------------------------------

  /** Memory that has its final mode keeps it. */
  ghost predicate StaysFinal(w: World, w': World) {
    forall a: nat :: w.role(a).Taken? && w.os(a) == Final(w.role(a).o) ==>
         w'.role(a) == w.role(a) && w'.os(a) == w.os(a)
  }

  lemma GentleStaysFinal(w: World, w': World, o: Owner, id: nat)
    requires Gentle(w, w', o, id)
    ensures StaysFinal(w, w')
  {
    forall a: nat | w.role(a).Taken? && w.os(a) == Final(w.role(a).o)
      ensures w'.role(a) == w.role(a) && w'.os(a) == w.os(a)
    {
      assert GentleAt(w, w', o, id, a);
    }
  }

  lemma SettlesStaysFinal(w: World, w': World, o: Owner)
    requires Settles(w, w', o)
    ensures StaysFinal(w, w')
  {
    forall a: nat | w.role(a).Taken? && w.os(a) == Final(w.role(a).o)
      ensures w'.role(a) == w.role(a) && w'.os(a) == w.os(a)
    {
      assert SettlesAt(w, w', o, a);
    }
  }

  /** Where the operating system puts the mapping that an allocation may need. */
  ghost predicate SegmentPlace(w: World, pg: nat, rw: seq<Block>, ro: RoAllocator, exe: RoAllocator, o: Owner,
                               size: nat, align: nat, place: nat)
    requires 1 <= align <= pg <= Word && |rw| == BlockCount && |ro.blocks| == BlockCount && |exe.blocks| == BlockCount
  {
    match o
    case Data => rw[0].ptr == 0 || BlockAlloc(rw[0], size, align).NoRoom? ==> Vacant(w, pg, place, BlockSize(size, pg))
    case Const => PlaceOk(w, pg, ro, size, align, place) && WriteAssert(ro, size, align)
    case Code => PlaceOk(w, pg, exe, size, align, place) && WriteAssert(exe, size, align)
  }

  /** The three allocators in one address space. */
  ghost predicate PoolsOk(w: World, pg: nat, rw: seq<Block>, ro: RoAllocator, exe: RoAllocator) {
    && IsPow2(pg) && 1 <= pg <= Word && WorldOk(w)
    && DataOk(w, pg, rw) && RoOk(w, pg, ro) && ro.o == Const && RoOk(w, pg, exe) && exe.o == Code
  }

  function Copies(ro: RoAllocator, exe: RoAllocator, o: Owner): bool {
    match o
    case Data => false
    case Const => !ro.dual
    case Code => !exe.dual
  }

  predicate ViaFits(ro: RoAllocator, exe: RoAllocator, o: Owner, via: Via) {
    if Copies(ro, exe, o) then !via.ViaMirror? else !via.ViaTemp?
  }

  method AllocFrom(pg: nat, rw0: seq<Block>, ro0: RoAllocator, exe0: RoAllocator, o: Owner, size: nat, align: nat,
                   place: nat, id: nat, ghost w: World)
    returns (rw: seq<Block>, ro: RoAllocator, exe: RoAllocator, rt: nat, wr: nat, ghost w': World, ghost via: Via)
    requires PoolsOk(w, pg, rw0, ro0, exe0) && Request(size, align, pg)
    requires |rw0| == BlockCount && |ro0.blocks| == BlockCount && |exe0.blocks| == BlockCount
    requires SegmentPlace(w, pg, rw0, ro0, exe0, o, size, align, place)
    ensures PoolsOk(w', pg, rw, ro, exe) && Gentle(w, w', o, id) && Handed(w', o, id, rt, wr, size, via)
    ensures rt % align == 0
    ensures ro.dual == ro0.dual && exe.dual == exe0.dual && ViaFits(ro, exe, o, via)
    ensures o == Code && NeedsBlock(exe0, size, align) ==>
              size <= BlockSize(size, pg) && exe == WithNewBlock(exe0, place, BlockSize(size, pg), size)
  {
    rw, ro, exe := rw0, ro0, exe0;
    hide IsPow2, WorldOk, DataOk, RoOk, Gentle, Handed, PlaceOk, WriteAssert, BlockAlloc, Vacant, BlockSize, StepOf;
    match o {
      case Data =>
        rw, rt, w' := RwAlloc(rw0, size, align, pg, place, id, w);
        wr, via := rt, Direct;
        GentleIsStep(w, w', Data, id);
        RoFrame(w, w', pg, Data, ro);
        RoFrame(w, w', pg, Data, exe);
      case Const =>
        ro, rt, wr, w', via := RoAlloc(ro0, size, align, pg, place, id, w);
        GentleIsStep(w, w', Const, id);
        DataFrame(w, w', pg, Const, rw);
        RoFrame(w, w', pg, Const, exe);
      case Code =>
        exe, rt, wr, w', via := RoAlloc(exe0, size, align, pg, place, id, w);
        GentleIsStep(w, w', Code, id);
        DataFrame(w, w', pg, Code, rw);
        RoFrame(w, w', pg, Code, ro);
    }
  }

  /** The end of a batch: both protected allocators are finalized. */
  method ProtectAll(pg: nat, ghost rw: seq<Block>, ro0: RoAllocator, exe0: RoAllocator, ghost w: World)
    returns (ro: RoAllocator, exe: RoAllocator, ghost w1: World, ghost w': World)
    requires PoolsOk(w, pg, rw, ro0, exe0)
    ensures PoolsOk(w', pg, rw, ro, exe) && Settles(w, w1, Const) && Settles(w1, w', Code)
    ensures AllFinal(w', Const) && AllFinal(w', Code) && ro.dual == ro0.dual && exe.dual == exe0.dual
    ensures FirstBlockDone(exe0, exe) && |ro.blocks| == |exe.blocks| == BlockCount
    ensures Tidy(w', ro) && Tidy(w', exe) && Retired(w', pg, ro0.completed) && Retired(w', pg, exe0.completed)
  {
    hide IsPow2, WorldOk, DataOk, RoOk, Settles, AllFinal, StepOf, Tidy, Retired, FirstBlockDone;
    ro, w1 := RoFinalize(ro0, pg, w);
    SettlesIsStep(w, w1, Const);
    DataFrame(w, w1, pg, Const, rw);
    RoFrame(w, w1, pg, Const, exe0);
    exe, w' := RoFinalize(exe0, pg, w1);
    SettlesIsStep(w1, w', Code);
    DataFrame(w1, w', pg, Code, rw);
    RoFrame(w1, w', pg, Code, ro);
    FinalKept(w1, w', Const, Code);
    EightBlocks(w', pg, ro);
    EightBlocks(w', pg, exe);
    TidyKept(w1, w', Code, ro);
    StaysRetired(w1, w', pg, ro0.completed, Code);
  }

  /**
  The state after a protection pass.  All memory has its final mode; no writable address, not even
  one of a second map, shows a cell of read-only or executable memory; the only second maps left
  are those of the blocks in use, without access; and no temporary memory is left in use.
   */
  ghost predicate AllProtected(w: World, ro: RoAllocator, exe: RoAllocator) {
    && |ro.blocks| == |exe.blocks| == BlockCount
    && AllFinal(w, Const) && AllFinal(w, Code) && Tidy(w, ro) && Tidy(w, exe)
    && forall a: nat, b: nat :: w.os(a) == ReadWrite && Phys(w, a) == b && w.role(b).Taken? ==> w.role(b).o == Data
  }

  lemma PassProtects(w: World, pg: nat, rw: seq<Block>, ro: RoAllocator, exe: RoAllocator)
    requires PoolsOk(w, pg, rw, ro, exe) && |ro.blocks| == |exe.blocks| == BlockCount
    requires AllFinal(w, Const) && AllFinal(w, Code) && Tidy(w, ro) && Tidy(w, exe)
    ensures AllProtected(w, ro, exe)
  {
    forall a: nat, b: nat | w.os(a) == ReadWrite && Phys(w, a) == b && w.role(b).Taken?
      ensures w.role(b).o == Data
    {
      assert !w.role(a).Mirror?;
      assert b == a;
      assert Final(Const) != ReadWrite && Final(Code) != ReadWrite;
    }
  }

  lemma TidyKept(w: World, w': World, o: Owner, r: RoAllocator)
    requires StepOf(w, w', o) && o != r.o && |r.blocks| == BlockCount && Tidy(w, r)
    ensures Tidy(w', r)
  {
  }

  lemma FinalKept(w: World, w': World, mine: Owner, o: Owner)
    requires AllFinal(w, mine) && StepOf(w, w', o) && o != mine
    ensures AllFinal(w', mine)
  {
  }

  /** The ids of graphs, and which of them are in flight or finalized. */
  predicate GraphsOk(segs: seq<Segment>, graphs: nat, inFlight: set<nat>, finalized: set<nat>) {
    && (forall g :: g in inFlight ==> g < graphs && g !in finalized)
    && (forall g :: g in finalized ==> g < graphs)
    && (forall id :: 0 <= id < |segs| ==> segs[id].graph < graphs)
  }

  ghost predicate ViasOk(segs: seq<Segment>, notes: seq<Notes>, ro: RoAllocator, exe: RoAllocator) {
    |notes| == |segs| && forall id :: 0 <= id < |segs| ==> ViaFits(ro, exe, segs[id].o, notes[id].via)
  }

  ghost predicate FlushedUpTo(mem: Cells, segs: seq<Segment>, notes: seq<Notes>, graph: nat, i: nat) {
    |notes| == |segs| && forall id :: 0 <= id < i && id < |segs| && segs[id].graph == graph ==>
         InPlace(mem, segs[id], notes[id])
  }

  /** Flushing one segment: it is copied if it was written to a temporary buffer. */
  lemma FlushStep(w: World, mem: Cells, segs: seq<Segment>, notes: seq<Notes>, inFlight: set<nat>,
                  finalized: set<nat>, graphs: nat,
                  ro: RoAllocator, exe: RoAllocator, graph: nat, i: nat)
    requires SegsOk(w, mem, segs, notes, inFlight, finalized) && GraphsOk(segs, graphs, inFlight, finalized)
    requires ViasOk(segs, notes, ro, exe)
    requires graph in inFlight && i < |segs| && FlushedUpTo(mem, segs, notes, graph, i)
    ensures var mem' := if segs[i].graph == graph && segs[i].rt != segs[i].wr &&
    Copies(ro, exe, segs[i].o) then Copy(mem, segs[i]) else mem;
      SegsOk(w, mem', segs, notes, inFlight, finalized) && FlushedUpTo(mem', segs, notes, graph, i + 1)
  {
    if segs[i].graph == graph {
      assert SegOk(w, mem, segs[i], notes[i], i, true, false);
      if segs[i].rt != segs[i].wr && Copies(ro, exe, segs[i].o) {
        assert ViaFits(ro, exe, segs[i].o, notes[i].via);
        assert notes[i].via.ViaTemp?;
        hide SegOk, Copy;
        FlushCopies(w, mem, segs, notes, inFlight, finalized, graphs, graph, i);
      } else {
        assert ViaFits(ro, exe, segs[i].o, notes[i].via);
        hide SegOk, InPlace;
        AlreadyInPlace(w, mem, segs[i], notes[i], i);
      }
    }
  }

  lemma FlushCopies(w: World, mem: Cells, segs: seq<Segment>, notes: seq<Notes>, inFlight: set<nat>,
                    finalized: set<nat>, graphs: nat, graph: nat, i: nat)
    requires SegsOk(w, mem, segs, notes, inFlight, finalized) && GraphsOk(segs, graphs, inFlight, finalized)
    requires graph in inFlight && i < |segs| && FlushedUpTo(mem, segs, notes, graph, i)
    requires segs[i].graph == graph && notes[i].via.ViaTemp?
    ensures SegsOk(w, Copy(mem, segs[i]), segs, notes, inFlight, finalized)
    ensures FlushedUpTo(Copy(mem, segs[i]), segs, notes, graph, i + 1)
  {
    hide SegOk, InPlace, Copy, OnlyCellsOf;
    assert SegOk(w, mem, segs[i], notes[i], i, true, false);
    CopyOk(w, mem, segs[i], notes[i], i);
    var mem' := Copy(mem, segs[i]);
    SegsTouch(w, mem, mem', segs, notes, notes[i], inFlight, finalized, i);
    assert notes[i := notes[i]] == notes;
    forall id | 0 <= id < i && segs[id].graph == graph
      ensures InPlace(mem', segs[id], notes[id])
    {
      assert SegOk(w, mem, segs[id], notes[id], id, true, false);
      StaysInPlace(w, mem, mem', segs[id], notes[id], id, i);
    }
  }

  // ---------------------------------------------------------------------------
  // Callbacks.
  // ---------------------------------------------------------------------------

  /** Whether a graph has executable memory. */
  predicate HasCode(segs: seq<Segment>, graph: nat) {
    exists id :: 0 <= id < |segs| && segs[id].graph == graph && segs[id].o == Code
  }

  /** All memory of a graph has its final mode. */
  ghost predicate GraphFinal(w: World, segs: seq<Segment>, graph: nat) {
    forall id :: 0 <= id < |segs| && segs[id].graph == graph ==>
      Has(w, segs[id].rt, segs[id].rt + segs[id].size, Final(segs[id].o))
  }

  /** A graph with executable memory is released only when all its memory has its final mode. */
  ghost predicate ReleasedOk(w: World, segs: seq<Segment>, released: set<nat>) {
    forall g :: g in released && HasCode(segs, g) ==> GraphFinal(w, segs, g)
  }

  /** Who waits has executable memory and is finalized; who was released is finalized. */
  ghost predicate CallbacksOk(segs: seq<Segment>, deferred: seq<JitBatch.Pending>, released: set<nat>,
                              finalized: set<nat>) {
    && (forall k :: 0 <= k < |deferred| ==>
          deferred[k].exec && deferred[k].id in finalized && HasCode(segs, deferred[k].id))
    && released <= finalized
  }

  ghost function Ids(ps: seq<JitBatch.Pending>): set<nat> {
    set k | 0 <= k < |ps| :: ps[k].id
  }

  lemma GraphFinalKept(w: World, w': World, mem: Cells, segs: seq<Segment>, notes: seq<Notes>, open: set<nat>,
                       done: set<nat>,
                       released: set<nat>)
    requires SegsOk(w, mem, segs, notes, open, done) && StaysFinal(w, w') && ReleasedOk(w, segs, released)
    ensures ReleasedOk(w', segs, released)
  {
    hide HasCode, StaysFinal;
    forall g | g in released && HasCode(segs, g)
      ensures GraphFinal(w', segs, g)
    {
      assert GraphFinal(w, segs, g);
      forall id | 0 <= id < |segs| && segs[id].graph == g
        ensures Has(w', segs[id].rt, segs[id].rt + segs[id].size, Final(segs[id].o))
      {
        assert SegOk(w, mem, segs[id], notes[id], id, segs[id].graph in open, segs[id].graph in done);
        SegFinalKept(w, w', segs[id], id);
      }
    }
  }

  lemma SegFinalKept(w: World, w': World, g: Segment, id: nat)
    requires Plays(w, g.rt, g.rt + g.size, Taken(g.o, id)) && Has(w, g.rt, g.rt + g.size, Final(g.o))
    requires StaysFinal(w, w')
    ensures Has(w', g.rt, g.rt + g.size, Final(g.o))
  {
  }

  /** After a protection pass the memory of every graph has its final mode. */
  lemma PassFinishes(w: World, pg: nat, rw: seq<Block>, mem: Cells, segs: seq<Segment>, notes: seq<Notes>,
                     open: set<nat>, done: set<nat>, g: nat)
    requires pg >= 1 && DataOk(w, pg, rw) && SegsOk(w, mem, segs, notes, open, done) && AllFinal(w, Const)
    requires AllFinal(w, Code)
    ensures GraphFinal(w, segs, g)
  {
    forall id | 0 <= id < |segs| && segs[id].graph == g
      ensures Has(w, segs[id].rt, segs[id].rt + segs[id].size, Final(segs[id].o))
    {
      assert SegOk(w, mem, segs[id], notes[id], id, segs[id].graph in open, segs[id].graph in done);
      var o := segs[id].o;
      assert forall a: nat :: w.role(a) == Taken(o, id) ==> w.os(a) == Final(o);
    }
  }

  /** A new segment belongs to a graph whose callback has not been released. */
  lemma ReleasedGrows(w: World, segs: seq<Segment>, g: Segment, released: set<nat>)
    requires ReleasedOk(w, segs, released) && g.graph !in released
    ensures ReleasedOk(w, segs + [g], released)
  {
    var segs' := segs + [g];
    forall h | h in released && HasCode(segs', h)
      ensures GraphFinal(w, segs', h)
    {
      var id :| 0 <= id < |segs'| && segs'[id].graph == h && segs'[id].o == Code;
      assert id < |segs| && segs[id] == segs'[id];
      assert HasCode(segs, h);
      assert GraphFinal(w, segs, h);
    }
  }

  lemma HasCodeGrows(segs: seq<Segment>, g: Segment, deferred: seq<JitBatch.Pending>, released: set<nat>,
                     finalized: set<nat>)
    requires CallbacksOk(segs, deferred, released, finalized)
    ensures CallbacksOk(segs + [g], deferred, released, finalized)
  {
    var segs' := segs + [g];
    forall k | 0 <= k < |deferred|
      ensures HasCode(segs', deferred[k].id)
    {
      var id :| 0 <= id < |segs| && segs[id].graph == deferred[k].id && segs[id].o == Code;
      assert segs'[id] == segs[id];
    }
  }

  class Manager {
    const pg: nat
    var rw: seq<Block>
    var ro: RoAllocator
    var exe: RoAllocator
    var segs: seq<Segment>
    var graphs: nat
    var inFlight: set<nat>
    var deferred: seq<JitBatch.Pending>
    ghost var finalized: set<nat>
    ghost var released: set<nat>
    ghost var notes: seq<Notes>
    ghost var w: World
    ghost var mem: Cells

    ghost predicate Valid()
      reads this
    {
      && PoolsOk(w, pg, rw, ro, exe)
      && SegsOk(w, mem, segs, notes, inFlight, finalized)
      && GraphsOk(segs, graphs, inFlight, finalized)
      && ViasOk(segs, notes, ro, exe)
      && CallbacksOk(segs, deferred, released, finalized)
      && ReleasedOk(w, segs, released)
    }

    /** What the batch protocol sees of the manager. */
    function Protocol(): JitBatch.Batch
      reads this
    {
      JitBatch.Batch(|inFlight|, deferred)
    }

    constructor (pg: nat, dual: bool, ghost w: World, ghost mem: Cells)
      requires IsPow2(pg) && 1 <= pg <= Word && WorldOk(w) && forall a: nat :: w.role(a) == Nobody
      ensures Valid() && segs == [] && inFlight == {} && deferred == []
      ensures this.pg == pg && this.w == w && this.mem == mem
      ensures rw == seq(BlockCount, i => Null) && ro == NewAllocator(Const, dual) && exe == NewAllocator(Code, dual)
    {
      this.pg := pg;
      rw := seq(BlockCount, i => Null);
      ro, exe := NewAllocator(Const, dual), NewAllocator(Code, dual);
      segs, graphs, inFlight, deferred := [], 0, {}, [];
      finalized, released, notes := {}, {}, [];
      this.w, this.mem := w, mem;
      new;
      EmptyPools(w, pg, dual);
      hide PoolsOk;
    }

    /** A link graph is laid out; until the layout is done nothing else happens. */
    method Begin() returns (graph: nat)
      requires Valid()
      modifies `graphs, `inFlight
      ensures Valid() && graph == old(graphs) && graphs == graph + 1 && graph !in old(inFlight)
      ensures inFlight == old(inFlight) + {graph} && Protocol() == old(Protocol()).(inFlight := |old(inFlight)| + 1)
    {
      hide PoolsOk, SegOk, ReleasedOk, CallbacksOk, ViasOk;
      graph := graphs;
      graphs := graphs + 1;
      inFlight := inFlight + {graph};
    }

    method AllocSegment(graph: nat, o: Owner, size: nat, align: nat, place: nat) returns (id: nat)
      requires Valid() && graph in inFlight && Request(size, align, pg)
      requires |rw| == BlockCount && |ro.blocks| == BlockCount && |exe.blocks| == BlockCount
      requires SegmentPlace(w, pg, rw, ro, exe, o, size, align, place)
      modifies `rw, `ro, `exe, `segs, `notes, `w, `mem
      ensures Valid() && id == old(|segs|) && |segs| == id + 1 && segs[..id] == old(segs)
      ensures segs[id] == Segment(o, graph, segs[id].rt, segs[id].wr, size, align)
      ensures |notes| == id + 1 && notes[..id] == old(notes) && notes[id].data == map[] && StaysFinal(old(w), w)
      ensures o == Code && NeedsBlock(old(exe), size, align) ==>
                && size <= BlockSize(size, pg)
                && exe == WithNewBlock(old(exe), place, BlockSize(size, pg), size)
    {
      hide PoolsOk, SegsOk, Handed, Gentle, SegmentPlace, StaysFinal, ReleasedOk, CallbacksOk, GraphsOk, ViasOk;
      hide NeedsBlock, WithNewBlock, BlockSize;
      id := |segs|;
      assert |notes| == id by { SameCount(w, mem, segs, notes, inFlight, finalized); }
      ghost var ro0, exe0, w0 := ro, exe, w;
      var rt: nat, wr: nat;
      ghost var w', via;
      rw, ro, exe, rt, wr, w', via := AllocFrom(pg, rw, ro, exe, o, size, align, place, id, w);
      w := w';
      var g := Segment(o, graph, rt, wr, size, align);
      AllocKeepsPools(segs, notes, ro0, exe0, ro, exe, graphs, inFlight, finalized, g, via);
      mem := AllocKeepsMemory(w0, w, mem, segs, notes, graphs, inFlight, finalized, deferred, released, g, via);
      segs := segs + [g];
      notes := notes + [Notes(via, map[])];
    }

    /** The client writes a byte of an open segment. */
    method Write(id: nat, k: nat, v: int)
      requires Valid() && id < |segs| && segs[id].graph in inFlight && k < segs[id].size
      modifies `notes, `mem
      ensures Valid() && |notes| == |old(notes)| && |notes| == |segs|
      ensures notes == old(notes)[id := old(notes)[id].(data := old(notes)[id].data[k := v])]
    {
      hide PoolsOk, SegOk, OnlyCellsOf, ReleasedOk, CallbacksOk;
      ghost var n := notes[id];
      StoreOk(w, mem, segs[id], n, id, k, v);
      ghost var mem' := Store(w, mem, segs[id].wr + k, v);
      SegsTouch(w, mem, mem', segs, notes, n.(data := n.data[k := v]), inFlight, finalized, id);
      notes := notes[id := n.(data := n.data[k := v])];
      mem := mem';
    }

    /** `flush`: the graph's bytes are moved to where they are used. */
    method Flush(graph: nat)
      requires Valid() && graph in inFlight
      modifies `mem
      ensures Valid()
      ensures forall id :: 0 <= id < |segs| && segs[id].graph == graph ==>
                |notes| == |segs| && InPlace(mem, segs[id], notes[id])
    {
      for i := 0 to |segs|
        invariant Valid() && |notes| == |segs| && FlushedUpTo(mem, segs, notes, graph, i)
      {
        hide PoolsOk, SegsOk, FlushedUpTo, GraphsOk, ViasOk, ReleasedOk, CallbacksOk;
        FlushStep(w, mem, segs, notes, inFlight, finalized, graphs, ro, exe, graph, i);
        if segs[i].graph == graph && segs[i].rt != segs[i].wr && Copies(ro, exe, segs[i].o) {
          mem := Copy(mem, segs[i]);
        }
      }
    }

    /**
    The graph is finalized: its bytes are in place from now on.  Its callback waits for the end
    of the batch if it covers executable memory, as in `JitBatch.Finalize`.
     */
    method Finalize(graph: nat) returns (ready: seq<JitBatch.Pending>)
      requires Valid() && graph in inFlight
      modifies `ro, `exe, `inFlight, `deferred, `finalized, `released, `w, `mem
      ensures Valid() && finalized == old(finalized) + {graph} && inFlight == old(inFlight) - {graph}
      ensures (Protocol(), ready, inFlight == {})
           == JitBatch.Finalize(old(Protocol()), JitBatch.Pending(graph, HasCode(segs, graph)))
      ensures inFlight == {} ==> AllProtected(w, ro, exe)
      ensures inFlight == {} ==> FirstBlockDone(old(exe), exe) && exe.dual == old(exe).dual
      ensures released == old(released) + Ids(ready) && StaysFinal(old(w), w)
    {
      hide PoolsOk, SegsOk, InPlace, StaysFinal, AllProtected, HasCode, ReleasedOk, FirstBlockDone, GraphsOk;
      hide CallbacksOk, ViasOk;
      hide Ids, JitBatch.Finalize;
      Flush(graph);
      SegsClose(w, mem, segs, notes, inFlight, finalized, graph, true);
      ready := FileAndComplete(JitBatch.Pending(graph, HasCode(segs, graph)));
    }

    method FileAndComplete(p: JitBatch.Pending) returns (ready: seq<JitBatch.Pending>)
      requires Valid() && p.id in inFlight && p.exec == HasCode(segs, p.id)
      requires SegsOk(w, mem, segs, notes, inFlight - {p.id}, finalized + {p.id})
      modifies `ro, `exe, `inFlight, `deferred, `finalized, `released, `w
      ensures Valid() && finalized == old(finalized) + {p.id} && inFlight == old(inFlight) - {p.id}
      ensures (Protocol(), ready, inFlight == {}) == JitBatch.Finalize(old(Protocol()), p)
      ensures inFlight == {} ==> AllProtected(w, ro, exe)
      ensures inFlight == {} ==> FirstBlockDone(old(exe), exe) && exe.dual == old(exe).dual
      ensures released == old(released) + Ids(ready) && StaysFinal(old(w), w)
    {
      hide PoolsOk, SegsOk, StaysFinal, AllProtected, HasCode, ReleasedOk, FirstBlockDone;
      hide GraphsOk, CallbacksOk, ViasOk;
      hide Ids, JitBatch.Finalize;
      ready := File(p);
      ready := CompleteBatch(ready);
      IdsOf(p, old(deferred));
      FinalizeProtocol(old(inFlight), old(deferred), p, inFlight, deferred, ready);
    }

    /** The callback of a graph that completes: deferred, or handed to the caller. */
    method File(p: JitBatch.Pending) returns (ready: seq<JitBatch.Pending>)
      requires Valid() && p.id in inFlight && p.exec == HasCode(segs, p.id)
      requires SegsOk(w, mem, segs, notes, inFlight - {p.id}, finalized + {p.id})
      modifies `inFlight, `deferred, `finalized, `released
      ensures Valid() && finalized == old(finalized) + {p.id} && inFlight == old(inFlight) - {p.id}
      ensures p.exec ==> ready == [] && deferred == old(deferred) + [p] && released == old(released)
      ensures !p.exec ==> ready == [p] && deferred == old(deferred) && released == old(released) + {p.id}
    {
      hide PoolsOk, SegsOk, HasCode, ReleasedOk, GraphsOk, CallbacksOk, ViasOk;
      FinalizeKeepsCallbacks(w, segs, graphs, inFlight, finalized, deferred, released, p);
      ready := [];
      if p.exec {
        deferred := deferred + [p];
      } else {
        ready := ready + [p];
        released := released + {p.id};
      }
      finalized := finalized + {p.id};
      inFlight := inFlight - {p.id};
    }

    /** The graph is abandoned, or dropped without a word. */
    method Abandon(graph: nat) returns (ready: seq<JitBatch.Pending>)
      requires Valid() && graph in inFlight
      modifies `ro, `exe, `inFlight, `deferred, `released, `w
      ensures Valid() && inFlight == old(inFlight) - {graph}
      ensures (Protocol(), ready, inFlight == {}) == JitBatch.Complete(old(Protocol()))
      ensures inFlight == {} ==> AllProtected(w, ro, exe)
      ensures released == old(released) + Ids(ready) && StaysFinal(old(w), w)
    {
      hide PoolsOk, SegsOk, StaysFinal, AllProtected, HasCode, ReleasedOk, FirstBlockDone, Ids, GraphsOk, CallbacksOk;
      hide ViasOk;
      SegsClose(w, mem, segs, notes, inFlight, finalized, graph, false);
      GraphsShrink(segs, graphs, inFlight, finalized, graph);
      inFlight := inFlight - {graph};
      assert |inFlight| == |old(inFlight)| - 1;
      ready := CompleteBatch([]);
      assert [] + old(deferred) == old(deferred);
      IdsOf(JitBatch.Pending(graph, false), []);
    }

    /** The layout failed: the graph was never in flight, and nothing is protected on its account. */
    method LayoutFails(graph: nat)
      requires Valid() && graph in inFlight
      modifies `inFlight
      ensures Valid() && inFlight == old(inFlight) - {graph}
      ensures Protocol() == old(Protocol()).(inFlight := |old(inFlight)| - 1)
    {
      SegsClose(w, mem, segs, notes, inFlight, finalized, graph, false);
      hide PoolsOk, SegsOk, ReleasedOk, CallbacksOk;
      inFlight := inFlight - {graph};
    }

    /**
    Protections are applied when, and only when, nothing is in flight any more; then the waiting
    callbacks are released.
     */
    method CompleteBatch(ready0: seq<JitBatch.Pending>) returns (ready: seq<JitBatch.Pending>)
      requires Valid()
      modifies `ro, `exe, `deferred, `released, `w
      ensures Valid() && StaysFinal(old(w), w)
      ensures inFlight != {} ==>
                w == old(w) && ready == ready0 && deferred == old(deferred) && released == old(released)
      ensures inFlight == {} ==>
                && AllProtected(w, ro, exe) && FirstBlockDone(old(exe), exe) && exe.dual == old(exe).dual
                && Retired(w, pg, old(ro.completed)) && Retired(w, pg, old(exe.completed))
                && ready == ready0 + old(deferred) && deferred == [] && released == old(released) + Ids(old(deferred))
    {
      hide PoolsOk, SegsOk, AllFinal, Settles, ReleasedOk, StaysFinal, HasCode, FirstBlockDone, Tidy, Retired;
      hide AllProtected;
      ready := ready0;
      if inFlight == {} {
        ghost var w0 := w;
        ghost var w1, w2;
        ro, exe, w1, w2 := ProtectAll(pg, rw, ro, exe, w);
        SegsSettle(w0, w1, Const, mem, segs, notes, finalized);
        SegsSettle(w1, w2, Code, mem, segs, notes, finalized);
        SettlesStaysFinal(w0, w1, Const);
        SettlesStaysFinal(w1, w2, Code);
        StaysFinalTrans(w0, w1, w2);
        w := w2;
        PassProtects(w, pg, rw, ro, exe);
        AllReleased(w, pg, rw, ro, exe, mem, segs, notes, finalized, released + Ids(deferred));
        ready := ready + deferred;
        released := released + Ids(deferred);
        deferred := [];
      } else {
        StaysFinalSelf(w);
      }
    }
  }

  lemma SameCount(w: World, mem: Cells, segs: seq<Segment>, notes: seq<Notes>, open: set<nat>, done: set<nat>)
    requires SegsOk(w, mem, segs, notes, open, done)
    ensures |notes| == |segs|
  {
  }

  lemma AllocKeepsPools(segs: seq<Segment>, notes: seq<Notes>, ro0: RoAllocator, exe0: RoAllocator, ro: RoAllocator,
                        exe: RoAllocator,
                        graphs: nat, inFlight: set<nat>, finalized: set<nat>, g: Segment, via: Via)
    requires GraphsOk(segs, graphs, inFlight, finalized) && ViasOk(segs, notes, ro0, exe0) && g.graph in inFlight
    requires ro.dual == ro0.dual && exe.dual == exe0.dual && ViaFits(ro, exe, g.o, via)
    ensures GraphsOk(segs + [g], graphs, inFlight, finalized)
    ensures ViasOk(segs + [g], notes + [Notes(via, map[])], ro, exe)
  {
  }

  /** What new pages hold is not known; everything else keeps its cells, and the new segment joins the others. */
  lemma AllocKeepsMemory(w: World, w': World, mem: Cells, segs: seq<Segment>, notes: seq<Notes>, graphs: nat,
                         inFlight: set<nat>,
                         finalized: set<nat>, deferred: seq<JitBatch.Pending>, released: set<nat>, g: Segment, via: Via)
    returns (mem': Cells)
    requires SegsOk(w, mem, segs, notes, inFlight, finalized) && GraphsOk(segs, graphs, inFlight, finalized)
    requires CallbacksOk(segs, deferred, released, finalized) && ReleasedOk(w, segs, released)
    requires Gentle(w, w', g.o, |segs|) && Handed(w', g.o, |segs|, g.rt, g.wr, g.size, via)
    requires g.graph in inFlight && g.align >= 1 && g.rt % g.align == 0
    ensures KeepsCells(w, mem, mem') && StaysFinal(w, w')
    ensures SegsOk(w', mem', segs + [g], notes + [Notes(via, map[])], inFlight, finalized)
    ensures CallbacksOk(segs + [g], deferred, released, finalized) && ReleasedOk(w', segs + [g], released)
  {
    assert KeepsCells(w, mem, mem);
    mem' :| KeepsCells(w, mem, mem');
    assert g.graph !in finalized && g.graph !in released;
    hide SegsOk, GraphsOk, CallbacksOk, ReleasedOk, Gentle, Handed, KeepsCells, StaysFinal;
    GentleStaysFinal(w, w', g.o, |segs|);
    GraphFinalKept(w, w', mem, segs, notes, inFlight, finalized, released);
    ReleasedGrows(w', segs, g, released);
    HasCodeGrows(segs, g, deferred, released, finalized);
    SegsGentle(w, w', g.o, |segs|, mem, mem', segs, notes, inFlight, finalized);
    SegsAdd(w', mem', segs, notes, inFlight, finalized, g, via);
  }

  lemma GraphsShrink(segs: seq<Segment>, graphs: nat, inFlight: set<nat>, finalized: set<nat>, graph: nat)
    requires GraphsOk(segs, graphs, inFlight, finalized)
    ensures GraphsOk(segs, graphs, inFlight - {graph}, finalized)
  {
  }

  lemma EmptyPools(w: World, pg: nat, dual: bool)
    requires IsPow2(pg) && 1 <= pg <= Word && WorldOk(w) && forall a: nat :: w.role(a) == Nobody
    ensures PoolsOk(w, pg, seq(BlockCount, i => Null), NewAllocator(Const, dual), NewAllocator(Code, dual))
  {
    EmptyAllocator(w, pg, Const, dual);
    EmptyAllocator(w, pg, Code, dual);
    hide RoOk;
  }

  lemma EmptyAllocator(w: World, pg: nat, o: Owner, dual: bool)
    requires pg >= 1 && o != Data && forall a: nat :: w.role(a) == Nobody
    ensures RoOk(w, pg, NewAllocator(o, dual))
  {
    assert Live(NewAllocator(o, dual)) == [];
  }

  function NewAllocator(o: Owner, dual: bool): RoAllocator {
    RoAllocator(o, dual, seq(BlockCount, i => NullSplit), [], [])
  }

  lemma StaysFinalTrans(w: World, w1: World, w2: World)
    requires StaysFinal(w, w1) && StaysFinal(w1, w2)
    ensures StaysFinal(w, w2)
  {
  }

  lemma StaysFinalSelf(w: World)
    ensures StaysFinal(w, w)
  {
  }

  /** The callback of a finalized graph waits if it covers executable memory, and is released otherwise. */
  lemma FinalizeKeepsCallbacks(w: World, segs: seq<Segment>, graphs: nat, inFlight: set<nat>, finalized: set<nat>,
                               deferred: seq<JitBatch.Pending>, released: set<nat>, p: JitBatch.Pending)
    requires GraphsOk(segs, graphs, inFlight, finalized) && CallbacksOk(segs, deferred, released, finalized)
    requires ReleasedOk(w, segs, released) && p.id in inFlight && p.exec == HasCode(segs, p.id)
    ensures GraphsOk(segs, graphs, inFlight - {p.id}, finalized + {p.id})
    ensures p.exec ==> CallbacksOk(segs, deferred + [p], released, finalized + {p.id})
    ensures !p.exec ==> CallbacksOk(segs, deferred, released + {p.id}, finalized + {p.id})
    ensures !p.exec ==> ReleasedOk(w, segs, released + {p.id})
  {
    hide HasCode, GraphFinal;
    if !p.exec {
      ReleasedWithoutCode(w, segs, released, p.id);
    }
  }

  /** The manager's fields follow the batch protocol. */
  lemma FinalizeProtocol(inFlight0: set<nat>, deferred0: seq<JitBatch.Pending>, p: JitBatch.Pending,
                         inFlight: set<nat>, deferred: seq<JitBatch.Pending>, ready: seq<JitBatch.Pending>)
    requires p.id in inFlight0 && inFlight == inFlight0 - {p.id}
    requires var waiting, own := deferred0 + (if p.exec then [p] else []), if p.exec then [] else [p];
      if inFlight == {} then ready == own + waiting && deferred == [] else ready == own && deferred == waiting
    ensures (JitBatch.Batch(|inFlight|, deferred), ready, inFlight == {})
         == JitBatch.Finalize(JitBatch.Batch(|inFlight0|, deferred0), p)
  {
    assert |inFlight| == |inFlight0| - 1;
    assert deferred0 + [] == deferred0 && [] + (deferred0 + [p]) == deferred0 + [p] && [p] + [] == [p];
  }

  lemma IdsOf(p: JitBatch.Pending, ps: seq<JitBatch.Pending>)
    ensures Ids([]) == {} && Ids([p]) == {p.id} && Ids([] + (ps + [p])) == Ids(ps + [p])
    ensures Ids([p] + ps) == {p.id} + Ids(ps)
  {
    var qs := [p] + ps;
    assert qs[0] == p && forall k :: 0 <= k < |ps| ==> qs[k + 1] == ps[k];
    assert [] + (ps + [p]) == ps + [p];
    assert [p][0] == p;
    forall i | i in {p.id} + Ids(ps)
      ensures i in Ids(qs)
    {
      if i != p.id {
        var k :| 0 <= k < |ps| && ps[k].id == i;
        assert qs[k + 1].id == i;
      }
    }
  }

  lemma ReleasedWithoutCode(w: World, segs: seq<Segment>, released: set<nat>, graph: nat)
    requires ReleasedOk(w, segs, released) && !HasCode(segs, graph)
    ensures ReleasedOk(w, segs, released + {graph})
  {
  }

  lemma AllReleased(w: World, pg: nat, rw: seq<Block>, ro: RoAllocator, exe: RoAllocator, mem: Cells,
                    segs: seq<Segment>, notes: seq<Notes>,
                    done: set<nat>, released: set<nat>)
    requires PoolsOk(w, pg, rw, ro, exe) && SegsOk(w, mem, segs, notes, {}, done) && AllFinal(w, Const)
    requires AllFinal(w, Code)
    ensures ReleasedOk(w, segs, released)
  {
    hide SegsOk, AllFinal, DataOk, RoOk, HasCode, GraphFinal;
    forall g | g in released && HasCode(segs, g)
      ensures GraphFinal(w, segs, g)
    {
      PassFinishes(w, pg, rw, mem, segs, notes, {}, done, g);
    }
  }

  lemma StaysInPlace(w: World, mem: Cells, mem': Cells, g: Segment, n: Notes, id: nat, other: nat)
    requires SegOk(w, mem, g, n, id, true, false) && InPlace(mem, g, n) && OnlyCellsOf(w, mem, mem', other)
    requires id != other
    ensures InPlace(mem', g, n)
  {
    hide Handed, OnlyCellsOf, Written;
    forall k | k in n.data
      ensures mem'(g.rt + k) == n.data[k]
    {
      assert w.role(g.rt + k) == Taken(g.o, id);
      CellUnchanged(w, mem, mem', other, g.rt + k);
    }
  }

  // ---------------------------------------------------------------------------
  // What `Valid` is worth.
  // ---------------------------------------------------------------------------

  /** Runtime memory of two segments never overlaps, whenever and for whomever they were allocated. */
  lemma RuntimeApart(w: World, mem: Cells, segs: seq<Segment>, notes: seq<Notes>, open: set<nat>, done: set<nat>,
                     i: nat, j: nat)
    requires SegsOk(w, mem, segs, notes, open, done) && i < |segs| && j < |segs| && i != j
    ensures segs[i].size == 0 || segs[j].size == 0
         || segs[i].rt + segs[i].size <= segs[j].rt || segs[j].rt + segs[j].size <= segs[i].rt
  {
    assert SegOk(w, mem, segs[i], notes[i], i, segs[i].graph in open, segs[i].graph in done);
    assert SegOk(w, mem, segs[j], notes[j], j, segs[j].graph in open, segs[j].graph in done);
    var a := if segs[i].rt <= segs[j].rt then segs[j].rt else segs[i].rt;
    assert segs[i].rt <= a < segs[i].rt + segs[i].size ==> w.role(a) == Taken(segs[i].o, i);
    assert segs[j].rt <= a < segs[j].rt + segs[j].size ==> w.role(a) == Taken(segs[j].o, j);
  }

  lemma PlaysAt(w: World, g: Segment, id: nat, a: nat)
    requires Plays(w, g.rt, g.rt + g.size, Taken(g.o, id)) && g.rt <= a < g.rt + g.size
    ensures w.role(a) == Taken(g.o, id)
  {
  }

  /** A segment's runtime memory is aligned and mapped; an open one can be written. */
  lemma SegmentUsable(pg: nat, rw: seq<Block>, ro: RoAllocator, exe: RoAllocator, w: World, mem: Cells,
                      segs: seq<Segment>, notes: seq<Notes>,
                      open: set<nat>, done: set<nat>, id: nat)
    requires PoolsOk(w, pg, rw, ro, exe) && SegsOk(w, mem, segs, notes, open, done) && id < |segs|
    ensures segs[id].align >= 1 && segs[id].rt % segs[id].align == 0
    ensures forall a: nat :: segs[id].rt <= a < segs[id].rt + segs[id].size ==> w.os(a) != Unmapped
    ensures segs[id].graph in open ==> forall a: nat :: segs[id].wr <= a < segs[id].wr + segs[id].size ==>
              w.os(a) == ReadWrite
  {
    var g := segs[id];
    assert SegOk(w, mem, g, notes[id], id, g.graph in open, g.graph in done);
    forall a: nat | g.rt <= a < g.rt + g.size
      ensures w.os(a) != Unmapped
    {
      PlaysAt(w, g, id, a);
    }
  }

  /** Write memory of two open segments never overlaps, neither its addresses nor the cells behind them. */
  lemma WritesApart(w: World, mem: Cells, segs: seq<Segment>, notes: seq<Notes>, open: set<nat>, done: set<nat>,
                    i: nat, j: nat, k: nat, l: nat)
    requires SegsOk(w, mem, segs, notes, open, done) && i < |segs| && j < |segs| && i != j
    requires segs[i].graph in open && segs[j].graph in open && k < segs[i].size && l < segs[j].size
    ensures segs[i].wr + k != segs[j].wr + l && Phys(w, segs[i].wr + k) != Phys(w, segs[j].wr + l)
  {
    assert SegOk(w, mem, segs[i], notes[i], i, true, segs[i].graph in done);
    assert SegOk(w, mem, segs[j], notes[j], j, true, segs[j].graph in done);
    hide SegOk, Handed, Phys;
    CellOf(w, segs[i], notes[i], i, k);
    CellOf(w, segs[j], notes[j], j, l);
  }

  /**
  A released callback may rely on its graph, whenever it runs: every byte that was written is at
  its runtime address, and if the graph has executable memory, its code is executable and its
  constants are read-only.
   */
  lemma CallbackMemory(m: Manager, id: nat)
    requires m.Valid() && id < |m.segs| == |m.notes| && m.segs[id].graph in m.released
    ensures forall k :: k in m.notes[id].data ==>
              k < m.segs[id].size && m.mem(m.segs[id].rt + k) == m.notes[id].data[k]
    ensures HasCode(m.segs, m.segs[id].graph) ==>
              forall a: nat :: m.segs[id].rt <= a < m.segs[id].rt + m.segs[id].size ==>
                m.w.os(a) == match m.segs[id].o case Data => ReadWrite case Const => ReadOnly case Code => ReadExec
  {
    var g := m.segs[id];
    assert SegOk(m.w, m.mem, g, m.notes[id], id, g.graph in m.inFlight, g.graph in m.finalized);
    if HasCode(m.segs, g.graph) {
      assert GraphFinal(m.w, m.segs, g.graph);
      assert Has(m.w, g.rt, g.rt + g.size, Final(g.o));
    }
  }

  /**
  A run that ends where an empty request trips the assertion on the write address: one request
  that fills a block to the last byte, and the end of its batch.
   */
  method EmptyRequestRun(pg: nat, place: nat, ghost w: World, ghost mem: Cells) returns (m: Manager)
    requires IsPow2(pg) && 16 <= pg && 257 * pg <= Word && WorldOk(w) && forall a: nat :: w.role(a) == Nobody
    requires Vacant(w, pg, place, 256 * pg)
    ensures fresh(m) && m.Valid() && m.exe.dual && |m.exe.blocks| == BlockCount && !WriteAssert(m.exe, 0, 16)
  {
    FullBlock(pg, place, w);
    assert place > 0;
    hide IsPow2, WorldOk, Vacant, PoolsOk, SegsOk, ReleasedOk, CallbacksOk, ViasOk, StaysFinal;
    hide AllProtected, BlockAlloc;
    hide BlockSize;
    hide Request, HasCode, WriteAssert, PlaceOk;
    m := new Manager(pg, true, w, mem);
    var graph := m.Begin();
    var exe0 := m.exe;
    var id := m.AllocSegment(graph, Code, 256 * pg, 16, place);
    assert m.exe.blocks[0] == FullSplit(pg, place);
    assert m.inFlight == {graph};
    var ready := m.Finalize(graph);
    FullBlockFails(pg, place, m.exe);
  }

  /** A block that one request has filled, before its batch has ended. */
  function FullSplit(pg: nat, place: nat): Split {
    NewSplit(place, 256 * pg).(b := Block(place, 256 * pg, 0))
  }

  lemma FullBlock(pg: nat, place: nat, w: World)
    requires IsPow2(pg) && 16 <= pg && 257 * pg <= Word && Vacant(w, pg, place, 256 * pg)
    ensures Request(256 * pg, 16, pg) && BlockSize(256 * pg, pg) == 256 * pg
    ensures var r := NewAllocator(Code, true);
      && |r.blocks| == BlockCount && NeedsBlock(r, 256 * pg, 16) && PlaceOk(w, pg, r, 256 * pg, 16, place) &&
         WriteAssert(r, 256 * pg, 16)
      && WithNewBlock(r, place, 256 * pg, 256 * pg).blocks[0] == FullSplit(pg, place)
  {
    SixteenIsPower();
  }

  lemma FullBlockFails(pg: nat, place: nat, r: RoAllocator)
    requires |r.blocks| == BlockCount && r.dual && place > 0
    requires FlagsOk(true, FullSplit(pg, place)) && r.blocks[0] == FinalizeBlock(true, FullSplit(pg, place), false)
    ensures !WriteAssert(r, 0, 16)
  {
    var b := Block(place, 256 * pg, 0);
    assert And(0, Word - 16) == 0;
    assert BlockAlloc(b, 0, 16) == Room(place + 256 * pg, b);
  }

  lemma SixteenIsPower()
    ensures IsPow2(16)
  {
    Pow2Small();
    var k: nat := 4;
    assert k < 64 && Pow2(k) == 16;
  }
}
