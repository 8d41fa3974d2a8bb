/**
The segments that the JIT's allocators hand out to link graphs (src/cgmemmgr.cpp): where they are
written, where they are used, and what the memory behind them contains.
 */
module JitSegments {
  import opened JitMemory
  import opened JitBlocks
  import opened JitAllocators
  import opened JitRo
  import opened JitFinalize
  import opened JitData

  /** A segment of a link graph: it is written at `wr` and used at `rt`. */
  datatype Segment = Segment(o: Owner, graph: nat, rt: nat, wr: nat, size: nat, align: nat)

  /** How a segment is written, and the bytes its client has written so far. */
  datatype Notes = Notes(via: Via, data: map<nat, int>)

  /** The memory cell behind an address: a second map shows the cells of its block. */
  ghost function Phys(w: World, a: nat): int {
    match w.role(a)
    case Mirror(o, base, m) => base + a - m
    case _ => a
  }

  type Cells = int -> int

  // ---------------------------------------------------------------------------
  // Segments.
  // ---------------------------------------------------------------------------

  /** The bytes written to an open segment are behind its write address. */
  ghost predicate Written(w: World, mem: Cells, g: Segment, n: Notes) {
    forall k :: k in n.data ==> mem(Phys(w, g.wr + k)) == n.data[k]
  }

  /** The bytes written to a segment are at its runtime address. */
  ghost predicate InPlace(mem: Cells, g: Segment, n: Notes) {
    forall k :: k in n.data ==> mem(g.rt + k) == n.data[k]
  }

  ghost predicate SegOk(w: World, mem: Cells, g: Segment, n: Notes, id: nat, open: bool, done: bool) {
    && g.align >= 1 && g.rt % g.align == 0 && Plays(w, g.rt, g.rt + g.size, Taken(g.o, id))
    && (forall k :: k in n.data ==> k < g.size)
    && (open ==> Handed(w, g.o, id, g.rt, g.wr, g.size, n.via) && Written(w, mem, g, n))
    && (done ==> InPlace(mem, g, n))
  }

  /** The cell behind byte `k` of an open segment is one that only this segment has. */
  lemma CellOf(w: World, g: Segment, n: Notes, id: nat, k: nat)
    requires Handed(w, g.o, id, g.rt, g.wr, g.size, n.via) && k < g.size
    ensures n.via.ViaTemp? ==> Phys(w, g.wr + k) == g.wr + k && w.role(g.wr + k) == Scratch(g.o, n.via.base, id)
    ensures !n.via.ViaTemp? ==> Phys(w, g.wr + k) == g.rt + k && w.role(g.rt + k) == Taken(g.o, id)
  {
    assert w.role(g.rt + k) == Taken(g.o, id);
  }

  /** New mappings bring new cells; the others keep what they hold. */
  ghost predicate KeepsCells(w: World, mem: Cells, mem': Cells) {
    forall a: nat :: w.role(a) != Nobody ==> mem'(a) == mem(a)
  }

  lemma HandedGentle(w: World, w': World, o: Owner, newer: nat, g: Segment, n: Notes, id: nat)
    requires Handed(w, g.o, id, g.rt, g.wr, g.size, n.via) && Gentle(w, w', o, newer)
    ensures Handed(w', g.o, id, g.rt, g.wr, g.size, n.via)
    ensures forall a: nat :: g.wr <= a < g.wr + g.size ==> w'.role(a) == w.role(a)
  {
    StillTakenBy(w, w', o, newer, g, id);
    forall a: nat | g.wr <= a < g.wr + g.size
      ensures w'.role(a) == w.role(a) && w'.os(a) == ReadWrite
    {
      assert w.os(a) == ReadWrite;
      assert GentleAt(w, w', o, newer, a);
    }
    hide Gentle;
  }

  lemma StillTakenBy(w: World, w': World, o: Owner, newer: nat, g: Segment, id: nat)
    requires Plays(w, g.rt, g.rt + g.size, Taken(g.o, id)) && Gentle(w, w', o, newer)
    ensures Plays(w', g.rt, g.rt + g.size, Taken(g.o, id))
  {
    forall a: nat | g.rt <= a < g.rt + g.size
      ensures w'.role(a) == Taken(g.o, id)
    {
      assert GentleAt(w, w', o, newer, a);
    }
  }

  lemma SegGentle(w: World, w': World, o: Owner, newer: nat, mem: Cells, mem': Cells, g: Segment, n: Notes, id: nat,
                  open: bool, done: bool)
    requires SegOk(w, mem, g, n, id, open, done) && Gentle(w, w', o, newer) && KeepsCells(w, mem, mem')
    ensures SegOk(w', mem', g, n, id, open, done)
  {
    hide Gentle, Handed, KeepsCells, Written, InPlace, Plays;
    StillTakenBy(w, w', o, newer, g, id);
    if open {
      HandedGentle(w, w', o, newer, g, n, id);
      WrittenGentle(w, w', o, newer, mem, mem', g, n, id);
    }
    if done {
      InPlaceGentle(w, mem, mem', g, n, id);
    }
  }

  lemma WrittenGentle(w: World, w': World, o: Owner, newer: nat, mem: Cells, mem': Cells, g: Segment, n: Notes, id: nat)
    requires Handed(w, g.o, id, g.rt, g.wr, g.size, n.via) && Gentle(w, w', o, newer) && KeepsCells(w, mem, mem')
    requires Written(w, mem, g, n) && forall k :: k in n.data ==> k < g.size
    ensures Written(w', mem', g, n)
  {
    hide Gentle, Handed, KeepsCells, Phys;
    forall k | k in n.data
      ensures mem'(Phys(w', g.wr + k)) == n.data[k]
    {
      ByteGentle(w, w', o, newer, mem, mem', g, n, id, k);
    }
  }

  lemma InPlaceGentle(w: World, mem: Cells, mem': Cells, g: Segment, n: Notes, id: nat)
    requires Plays(w, g.rt, g.rt + g.size, Taken(g.o, id)) && KeepsCells(w, mem, mem')
    requires InPlace(mem, g, n) && forall k :: k in n.data ==> k < g.size
    ensures InPlace(mem', g, n)
  {
    hide KeepsCells;
    forall k | k in n.data
      ensures mem'(g.rt + k) == n.data[k]
    {
      assert w.role(g.rt + k) == Taken(g.o, id);
      CellKept(w, mem, mem', g.rt + k);
    }
  }

  lemma ByteGentle(w: World, w': World, o: Owner, newer: nat, mem: Cells, mem': Cells, g: Segment, n: Notes, id: nat,
                   k: nat)
    requires Handed(w, g.o, id, g.rt, g.wr, g.size, n.via) && Gentle(w, w', o, newer) && KeepsCells(w, mem, mem')
    requires k < g.size
    ensures mem'(Phys(w', g.wr + k)) == mem(Phys(w, g.wr + k))
  {
    HandedGentle(w, w', o, newer, g, n, id);
    assert w'.role(g.wr + k) == w.role(g.wr + k);
    CellOf(w, g, n, id, k);
    hide Gentle, Handed, KeepsCells;
    CellKept(w, mem, mem', Phys(w, g.wr + k));
  }

  lemma CellKept(w: World, mem: Cells, mem': Cells, a: nat)
    requires KeepsCells(w, mem, mem') && w.role(a) != Nobody
    ensures mem'(a) == mem(a)
  {
  }

  lemma SegSettles(w: World, w': World, o: Owner, mem: Cells, g: Segment, n: Notes, id: nat, done: bool)
    requires SegOk(w, mem, g, n, id, false, done) && Settles(w, w', o)
    ensures SegOk(w', mem, g, n, id, false, done)
  {
    forall a: nat | g.rt <= a < g.rt + g.size
      ensures w'.role(a) == w.role(a)
    {
      assert SettlesAt(w, w', o, a);
    }
  }

  // ---------------------------------------------------------------------------
  // The other allocators.
  // ---------------------------------------------------------------------------

  lemma GentleIsStep(w: World, w': World, o: Owner, id: nat)
    requires Gentle(w, w', o, id)
    ensures StepOf(w, w', o)
  {
    forall a: nat
      ensures w.role(a) != Nobody && w.role(a).o != o ==> w'.role(a) == w.role(a) && w'.os(a) == w.os(a)
      ensures w'.role(a) != Nobody && w'.role(a).o != o ==> w'.role(a) == w.role(a)
    {
      assert GentleAt(w, w', o, id, a);
    }
  }

  lemma SettlesIsStep(w: World, w': World, o: Owner)
    requires Settles(w, w', o)
    ensures StepOf(w, w', o)
  {
    forall a: nat
      ensures w.role(a) != Nobody && w.role(a).o != o ==> w'.role(a) == w.role(a) && w'.os(a) == w.os(a)
      ensures w'.role(a) != Nobody && w'.role(a).o != o ==> w'.role(a) == w.role(a)
    {
      assert SettlesAt(w, w', o, a);
    }
  }

  lemma DataFrame(w: World, w': World, pg: nat, o: Owner, blocks: seq<Block>)
    requires pg >= 1 && DataOk(w, pg, blocks) && StepOf(w, w', o) && o != Data
    ensures DataOk(w', pg, blocks)
  {
    if blocks[0].ptr != 0 {
      var b := blocks[0];
      forall a: nat | b.ptr <= a < b.End()
        ensures w'.role(a) == w.role(a) && w'.os(a) == w.os(a)
      {
        assert w.role(a) == Spare(Data, b.ptr) || (w.role(a).Taken? && w.role(a).o == Data);
      }
    }
  }

  lemma RoFrame(w: World, w': World, pg: nat, o: Owner, r: RoAllocator)
    requires pg >= 1 && RoOk(w, pg, r) && StepOf(w, w', o) && o != r.o
    ensures RoOk(w', pg, r)
  {
    forall i | 0 <= i < |Live(r)|
      ensures SplitOk(w', pg, r.o, r.dual, Live(r)[i])
    {
      SplitOtherOwner(w, w', pg, o, r.o, r.dual, Live(r)[i]);
    }
    assert forall a: nat :: IsTemp(w, r.o, a) ==> SameAt(w, w', a);
    TempsFrame(w, w', pg, r.o, r.temp);
    hide SplitOk, TempsOk, InFirstBatch, InMirror, InTemp;
    assert Sealed(w', r.o, Live(r));
    assert MirrorsOwned(w', r.o, Live(r));
    forall a: nat | IsTemp(w', r.o, a)
      ensures InTemp(r.temp, w'.role(a).base, a)
    {
      assert IsTemp(w, r.o, a);
    }
  }

  lemma SplitOtherOwner(w: World, w': World, pg: nat, o: Owner, mine: Owner, dual: bool, s: Split)
    requires pg >= 1 && SplitOk(w, pg, mine, dual, s) && StepOf(w, w', o) && o != mine
    ensures SplitOk(w', pg, mine, dual, s)
  {
    forall a: nat | s.b.ptr <= a < s.b.End()
      ensures w'.role(a) == w.role(a) && w'.os(a) == w.os(a)
    {
      assert w.role(a) == Spare(mine, s.b.ptr) || (w.role(a).Taken? && w.role(a).o == mine);
    }
    if s.wrInit {
      forall a: nat | s.wr <= a < s.wr + s.b.total
        ensures w'.role(a) == w.role(a) && w'.os(a) == w.os(a)
      {
        assert w.role(a) == Mirror(mine, s.b.ptr, s.wr);
      }
    }
  }

  // ---------------------------------------------------------------------------
  // All segments.
  // ---------------------------------------------------------------------------

  ghost predicate SegsOk(w: World, mem: Cells, segs: seq<Segment>, notes: seq<Notes>, open: set<nat>, done: set<nat>) {
    && |notes| == |segs|
    && forall id :: 0 <= id < |segs| ==>
         SegOk(w, mem, segs[id], notes[id], id, segs[id].graph in open, segs[id].graph in done)
  }

  lemma SegsGentle(w: World, w': World, o: Owner, newer: nat, mem: Cells, mem': Cells, segs: seq<Segment>,
                   notes: seq<Notes>, open: set<nat>, done: set<nat>)
    requires SegsOk(w, mem, segs, notes, open, done) && Gentle(w, w', o, newer) && KeepsCells(w, mem, mem')
    ensures SegsOk(w', mem', segs, notes, open, done)
  {
    hide SegOk, Gentle, KeepsCells;
    forall id | 0 <= id < |segs|
      ensures SegOk(w', mem', segs[id], notes[id], id, segs[id].graph in open, segs[id].graph in done)
    {
      SegGentle(w, w', o, newer, mem, mem', segs[id], notes[id], id, segs[id].graph in open, segs[id].graph in done);
    }
  }

  lemma SegsSettle(w: World, w': World, o: Owner, mem: Cells, segs: seq<Segment>, notes: seq<Notes>, done: set<nat>)
    requires SegsOk(w, mem, segs, notes, {}, done) && Settles(w, w', o)
    ensures SegsOk(w', mem, segs, notes, {}, done)
  {
    hide SegOk, Settles;
    forall id | 0 <= id < |segs|
      ensures SegOk(w', mem, segs[id], notes[id], id, segs[id].graph in {}, segs[id].graph in done)
    {
      SegSettles(w, w', o, mem, segs[id], notes[id], id, segs[id].graph in done);
    }
  }

  /** A new segment of an open graph. */
  lemma SegsAdd(w: World, mem: Cells, segs: seq<Segment>, notes: seq<Notes>, open: set<nat>, done: set<nat>,
                g: Segment, via: Via)
    requires SegsOk(w, mem, segs, notes, open, done) && Handed(w, g.o, |segs|, g.rt, g.wr, g.size, via)
    requires g.align >= 1 && g.rt % g.align == 0 && g.graph !in done
    ensures SegsOk(w, mem, segs + [g], notes + [Notes(via, map[])], open, done)
  {
    hide Handed;
    assert Plays(w, g.rt, g.rt + g.size, Taken(g.o, |segs|)) by { HandedPlays(w, g, via, |segs|); }
    var n := Notes(via, map[]);
    assert SegOk(w, mem, g, n, |segs|, g.graph in open, g.graph in done);
    hide SegOk;
    var segs', notes' := segs + [g], notes + [n];
    forall id | 0 <= id < |segs'|
      ensures SegOk(w, mem, segs'[id], notes'[id], id, segs'[id].graph in open, segs'[id].graph in done)
    {
      if id < |segs| {
        assert segs'[id] == segs[id] && notes'[id] == notes[id];
      }
    }
  }

  lemma HandedPlays(w: World, g: Segment, via: Via, id: nat)
    requires Handed(w, g.o, id, g.rt, g.wr, g.size, via)
    ensures Plays(w, g.rt, g.rt + g.size, Taken(g.o, id))
  {
  }

  /** Closing a graph; if it is finalized, its bytes must be in place. */
  lemma SegsClose(w: World, mem: Cells, segs: seq<Segment>, notes: seq<Notes>, open: set<nat>, done: set<nat>,
                  graph: nat, finalized: bool)
    requires SegsOk(w, mem, segs, notes, open, done)
    requires finalized ==> forall id :: 0 <= id < |segs| && segs[id].graph == graph ==>
               InPlace(mem, segs[id], notes[id])
    ensures SegsOk(w, mem, segs, notes, open - {graph}, if finalized then done + {graph} else done)
  {
    hide Handed, Written, InPlace, Plays;
    var open', done' := open - {graph}, if finalized then done + {graph} else done;
    forall id | 0 <= id < |segs|
      ensures SegOk(w, mem, segs[id], notes[id], id, segs[id].graph in open', segs[id].graph in done')
    {
      assert SegOk(w, mem, segs[id], notes[id], id, segs[id].graph in open, segs[id].graph in done);
    }
  }

  // ---------------------------------------------------------------------------
  // Cells.
  // ---------------------------------------------------------------------------

  /** Cells that belong to nobody but segment `id` may change. */
  ghost predicate OnlyCellsOf(w: World, mem: Cells, mem': Cells, id: nat) {
    forall a: nat :: mem'(a) == mem(a) || (w.role(a).Taken? && w.role(a).id == id) || (w.role(a).Scratch? &&
           w.role(a).id == id)
  }

  /** A segment does not notice changes to another one's cells. */
  lemma OtherSegKept(w: World, mem: Cells, mem': Cells, g: Segment, n: Notes, id: nat, open: bool, done: bool,
                     other: nat)
    requires SegOk(w, mem, g, n, id, open, done) && OnlyCellsOf(w, mem, mem', other) && id != other
    ensures SegOk(w, mem', g, n, id, open, done)
  {
    hide Handed, OnlyCellsOf, Phys;
    forall k | k in n.data
      ensures open ==> mem'(Phys(w, g.wr + k)) == mem(Phys(w, g.wr + k))
      ensures mem'(g.rt + k) == mem(g.rt + k)
    {
      assert w.role(g.rt + k) == Taken(g.o, id);
      CellUnchanged(w, mem, mem', other, g.rt + k);
      if open {
        CellOf(w, g, n, id, k);
        CellUnchanged(w, mem, mem', other, Phys(w, g.wr + k));
      }
    }
  }

  lemma CellUnchanged(w: World, mem: Cells, mem': Cells, other: nat, a: nat)
    requires OnlyCellsOf(w, mem, mem', other)
    requires !(w.role(a).Taken? && w.role(a).id == other) && !(w.role(a).Scratch? && w.role(a).id == other)
    ensures mem'(a) == mem(a)
  {
  }

  lemma SegsTouch(w: World, mem: Cells, mem': Cells, segs: seq<Segment>, notes: seq<Notes>, n': Notes, open: set<nat>,
                  done: set<nat>, id: nat)
    requires SegsOk(w, mem, segs, notes, open, done) && id < |segs| && OnlyCellsOf(w, mem, mem', id)
    requires SegOk(w, mem', segs[id], n', id, segs[id].graph in open, segs[id].graph in done)
    ensures SegsOk(w, mem', segs, notes[id := n'], open, done)
  {
    hide SegOk, OnlyCellsOf;
    var notes' := notes[id := n'];
    forall j | 0 <= j < |segs|
      ensures SegOk(w, mem', segs[j], notes'[j], j, segs[j].graph in open, segs[j].graph in done)
    {
      if j != id {
        OtherSegKept(w, mem, mem', segs[j], notes[j], j, segs[j].graph in open, segs[j].graph in done, id);
      }
    }
  }

  ghost function Store(w: World, mem: Cells, a: nat, v: int): Cells {
    var c := Phys(w, a);
    (x: int) => if x == c then v else mem(x)
  }

  /** A byte written to an open segment. */
  lemma StoreOk(w: World, mem: Cells, g: Segment, n: Notes, id: nat, k: nat, v: int)
    requires SegOk(w, mem, g, n, id, true, false) && k < g.size
    ensures var mem' := Store(w, mem, g.wr + k, v);
      OnlyCellsOf(w, mem, mem', id) && SegOk(w, mem', g, n.(data := n.data[k := v]), id, true, false)
  {
    hide Handed, Written, OnlyCellsOf, InPlace, Plays;
    StoreTouches(w, mem, g, n, id, k, v);
    StoreWritten(w, mem, g, n, id, k, v);
  }

  lemma StoreTouches(w: World, mem: Cells, g: Segment, n: Notes, id: nat, k: nat, v: int)
    requires Handed(w, g.o, id, g.rt, g.wr, g.size, n.via) && k < g.size
    ensures OnlyCellsOf(w, mem, Store(w, mem, g.wr + k, v), id)
  {
    CellOf(w, g, n, id, k);
    hide Handed, Phys;
  }

  lemma StoreWritten(w: World, mem: Cells, g: Segment, n: Notes, id: nat, k: nat, v: int)
    requires Handed(w, g.o, id, g.rt, g.wr, g.size, n.via) && k < g.size
    requires Written(w, mem, g, n) && forall j :: j in n.data ==> j < g.size
    ensures Written(w, Store(w, mem, g.wr + k, v), g, n.(data := n.data[k := v]))
  {
    var n' := n.(data := n.data[k := v]);
    hide Handed, Phys;
    forall j | j in n'.data
      ensures Store(w, mem, g.wr + k, v)(Phys(w, g.wr + j)) == n'.data[j]
    {
      if j != k {
        CellsDiffer(w, g, n, id, j, k);
      }
    }
  }

  lemma CellsDiffer(w: World, g: Segment, n: Notes, id: nat, j: nat, k: nat)
    requires Handed(w, g.o, id, g.rt, g.wr, g.size, n.via) && j < g.size && k < g.size && j != k
    ensures Phys(w, g.wr + j) != Phys(w, g.wr + k)
  {
    hide Handed, Phys;
    CellOf(w, g, n, id, j);
    CellOf(w, g, n, id, k);
  }

  /** Copying a segment from its write address to its runtime address. */
  ghost function Copy(mem: Cells, g: Segment): Cells {
    (x: int) => if g.rt <= x < g.rt + g.size then mem(g.wr + (x - g.rt)) else mem(x)
  }

  lemma CopyOk(w: World, mem: Cells, g: Segment, n: Notes, id: nat)
    requires SegOk(w, mem, g, n, id, true, false) && n.via.ViaTemp?
    ensures OnlyCellsOf(w, mem, Copy(mem, g), id) && SegOk(w, Copy(mem, g), g, n, id, true, false)
    ensures InPlace(Copy(mem, g), g, n)
  {
    hide Handed, Written, OnlyCellsOf, InPlace, Copy;
    CopyTouches(w, mem, g, id);
    CopyLands(w, mem, g, n, id);
  }

  lemma CopyTouches(w: World, mem: Cells, g: Segment, id: nat)
    requires Plays(w, g.rt, g.rt + g.size, Taken(g.o, id))
    ensures OnlyCellsOf(w, mem, Copy(mem, g), id)
  {
  }

  lemma CopyLands(w: World, mem: Cells, g: Segment, n: Notes, id: nat)
    requires Handed(w, g.o, id, g.rt, g.wr, g.size, n.via) && n.via.ViaTemp?
    requires Written(w, mem, g, n) && forall j :: j in n.data ==> j < g.size
    ensures Written(w, Copy(mem, g), g, n) && InPlace(Copy(mem, g), g, n)
  {
    hide Handed, Phys, Copy;
    forall k | k in n.data
      ensures Copy(mem, g)(Phys(w, g.wr + k)) == n.data[k] && Copy(mem, g)(g.rt + k) == n.data[k]
    {
      CopyByte(w, mem, g, n, id, k);
    }
  }

  lemma CopyByte(w: World, mem: Cells, g: Segment, n: Notes, id: nat, k: nat)
    requires Handed(w, g.o, id, g.rt, g.wr, g.size, n.via) && n.via.ViaTemp? && k < g.size
    ensures Copy(mem, g)(Phys(w, g.wr + k)) == mem(Phys(w, g.wr + k)) == Copy(mem, g)(g.rt + k)
  {
    CellOf(w, g, n, id, k);
    NotInRuntime(w, g, n, id, k);
    hide Handed, Phys;
  }

  lemma NotInRuntime(w: World, g: Segment, n: Notes, id: nat, k: nat)
    requires Handed(w, g.o, id, g.rt, g.wr, g.size, n.via) && n.via.ViaTemp? && k < g.size
    ensures !(g.rt <= g.wr + k < g.rt + g.size)
  {
    assert w.role(g.wr + k).Scratch?;
  }

  /** Without a temporary buffer the bytes are in place already. */
  lemma AlreadyInPlace(w: World, mem: Cells, g: Segment, n: Notes, id: nat)
    requires SegOk(w, mem, g, n, id, true, false) && (!n.via.ViaTemp? || g.rt == g.wr)
    ensures InPlace(mem, g, n)
  {
    hide Handed;
    forall k | k in n.data
      ensures mem(g.rt + k) == n.data[k]
    {
      CellOf(w, g, n, id, k);
    }
  }
}
