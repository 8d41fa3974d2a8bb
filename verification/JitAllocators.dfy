/**
The allocators for read-only data and for code (src/cgmemmgr.cpp): ROAllocator with its two
ways of writing to memory whose runtime address is already protected, a second map of the
block (DualMapAllocator) or a temporary buffer that is copied later (SelfMemAllocator).
 */
module JitAllocators {
  import opened JitMemory
  import opened JitBlocks

  /** `dual` selects DualMapAllocator; otherwise `temp` are the buffers of SelfMemAllocator. */
  datatype RoAllocator = RoAllocator(o: Owner, dual: bool, blocks: seq<Split>, completed: seq<Split>, temp: seq<Block>)

  const BlockCount: nat := 8

  // ---------------------------------------------------------------------------
  // Lists of blocks.
  // ---------------------------------------------------------------------------

  ghost predicate LiveOk(w: World, pg: nat, o: Owner, dual: bool, live: seq<Split>)
    requires pg >= 1
  {
    && (forall i :: 0 <= i < |live| ==> SplitOk(w, pg, o, dual, live[i]))
    && (forall i, j :: 0 <= i < j < |live| ==> Apart(live[i].b, live[j].b))
  }

  lemma LiveApart(w: World, pg: nat, o: Owner, dual: bool, live: seq<Split>, i: nat, j: nat)
    requires pg >= 1 && LiveOk(w, pg, o, dual, live) && i < |live| && j < |live| && i != j
    ensures Apart(live[i].b, live[j].b)
  {
    assert i < j || j < i;
  }

  /** Changing one block. */
  lemma LiveUpdate(w: World, w': World, pg: nat, o: Owner, dual: bool, live: seq<Split>, k: nat, s': Split)
    requires pg >= 1 && WorldOk(w) && LiveOk(w, pg, o, dual, live) && k < |live|
    requires ChangesOnly(w, w', o, live[k]) && SplitOk(w', pg, o, dual, s')
    requires s'.b.ptr == live[k].b.ptr && s'.b.total == live[k].b.total
    ensures LiveOk(w', pg, o, dual, live[k := s'])
  {
    hide SplitOk, ChangesOnly, WorldOk;
    forall i | 0 <= i < |live| && i != k
      ensures SplitOk(w', pg, o, dual, live[i])
    {
      LiveApart(w, pg, o, dual, live, k, i);
      OtherBlockKept(w, w', pg, o, dual, live[k], live[i]);
    }
  }

  /** Forgetting one block. */
  lemma LiveRemove(w: World, w': World, pg: nat, o: Owner, dual: bool, live: seq<Split>, k: nat)
    requires pg >= 1 && WorldOk(w) && LiveOk(w, pg, o, dual, live) && k < |live|
    requires ChangesOnly(w, w', o, live[k])
    ensures LiveOk(w', pg, o, dual, live[..k] + live[k + 1..])
  {
    hide SplitOk, ChangesOnly, WorldOk;
    forall i | 0 <= i < |live| && i != k
      ensures SplitOk(w', pg, o, dual, live[i])
    {
      LiveApart(w, pg, o, dual, live, k, i);
      OtherBlockKept(w, w', pg, o, dual, live[k], live[i]);
    }
  }

  lemma LiveRotate(w: World, pg: nat, o: Owner, dual: bool, s: Split, live: seq<Split>)
    requires pg >= 1 && LiveOk(w, pg, o, dual, [s] + live)
    ensures LiveOk(w, pg, o, dual, live + [s])
  {
    hide SplitOk;
    var all := [s] + live;
    assert all[0] == s;
    assert forall i :: 0 <= i < |live| ==> all[i + 1] == live[i];
  }

  lemma LiveFrame(w: World, w': World, pg: nat, o: Owner, dual: bool, live: seq<Split>)
    requires pg >= 1 && WorldOk(w) && LiveOk(w, pg, o, dual, live)
    requires forall a: nat :: SameAt(w, w', a) || w.os(a) == Unmapped || IsTemp(w, o, a)
    ensures LiveOk(w', pg, o, dual, live)
  {
    hide WorldOk;
    forall i | 0 <= i < |live|
      ensures SplitOk(w', pg, o, dual, live[i])
    {
      SplitFrame(w, w', pg, o, dual, live[i]);
    }
  }

  ghost predicate SameAt(w: World, w': World, a: nat) {
    w'.role(a) == w.role(a) && w'.os(a) == w.os(a)
  }

  ghost predicate IsTemp(w: World, o: Owner, a: nat) {
    (w.role(a).TempSpare? || w.role(a).Scratch?) && w.role(a).o == o
  }

  lemma SplitFrame(w: World, w': World, pg: nat, o: Owner, dual: bool, s: Split)
    requires pg >= 1 && SplitOk(w, pg, o, dual, s) && WorldOk(w)
    requires forall a: nat :: SameAt(w, w', a) || w.os(a) == Unmapped || IsTemp(w, o, a)
    ensures SplitOk(w', pg, o, dual, s)
  {
    forall a: nat | s.b.ptr <= a < s.b.End()
      ensures w'.role(a) == w.role(a) && w'.os(a) == w.os(a)
    {
      assert SameAt(w, w', a);
    }
    if s.wrInit {
      forall a: nat | s.wr <= a < s.wr + s.b.total
        ensures w'.role(a) == w.role(a) && w'.os(a) == w.os(a)
      {
        assert w.role(a) == Mirror(o, s.b.ptr, s.wr);
        assert SameAt(w, w', a);
      }
    }
  }

  /** The world after a new block has been mapped. */
  ghost function MapBlock(w: World, o: Owner, place: nat, n: nat): World {
    Map(w, place, place + n, ReadWrite, Spare(o, place))
  }

  function NewSplit(place: nat, n: nat): Split {
    Split(Block(place, n, n), 0, true, true, false, false)
  }

  /** A new block, apart from all the others. */
  lemma LiveAdd(w: World, pg: nat, o: Owner, dual: bool, live: seq<Split>, place: nat, n: nat)
    requires pg >= 1 && WorldOk(w) && LiveOk(w, pg, o, dual, live) && Vacant(w, pg, place, n) && IsBlockSize(n, pg)
    ensures var w' := MapBlock(w, o, place, n);
      WorldOk(w') && LiveOk(w', pg, o, dual, [NewSplit(place, n)] + live)
  {
    var w' := MapBlock(w, o, place, n);
    LiveFrame(w, w', pg, o, dual, live);
    var s := NewSplit(place, n);
    assert SplitOk(w', pg, o, dual, s);
    forall i | 0 <= i < |live|
      ensures Apart(s.b, live[i].b)
    {
      VacantApart(w, pg, o, dual, live[i], place, n);
    }
    hide SplitOk, WorldOk;
  }

  lemma VacantApart(w: World, pg: nat, o: Owner, dual: bool, s: Split, place: nat, n: nat)
    requires pg >= 1 && SplitOk(w, pg, o, dual, s) && WorldOk(w) && Vacant(w, pg, place, n) && n >= 1
    ensures Apart(Block(place, n, n), s.b)
  {
    assert w.os(s.b.ptr) != Unmapped && w.os(place) == Unmapped;
  }

  // ---------------------------------------------------------------------------
  // The allocator.
  // ---------------------------------------------------------------------------

  ghost function Live(r: RoAllocator): seq<Split>
    requires |r.blocks| == BlockCount
  {
    (if r.blocks[0].IsNull() then [] else [r.blocks[0]]) + r.completed
  }

  /** A temporary buffer: writable, and used by nobody but the allocations of this batch. */
  ghost predicate TempOk(w: World, pg: nat, o: Owner, t: Block)
    requires pg >= 1
  {
    && t.ptr > 0 && IsBlockSize(t.total, pg) && BlockOk(t, pg) && Has(w, t.ptr, t.End(), ReadWrite)
    && (forall a: nat :: t.ptr <= a < t.End() ==>
          w.role(a) == TempSpare(o, t.ptr) || (w.role(a).Scratch? && w.role(a).o == o && w.role(a).base == t.ptr))
    && Plays(w, t.FreeLo(), t.End(), TempSpare(o, t.ptr))
  }

  ghost predicate TempsOk(w: World, pg: nat, o: Owner, temp: seq<Block>)
    requires pg >= 1
  {
    && (forall i :: 0 <= i < |temp| ==> TempOk(w, pg, o, temp[i]))
    && (forall i, j :: 0 <= i < j < |temp| ==> temp[i].ptr != temp[j].ptr)
  }

  ghost predicate InFirstBatch(live: seq<Split>, a: nat) {
    exists i :: 0 <= i < |live| && live[i].init && live[i].b.ptr <= a < live[i].b.End()
  }

  /** Handed-out memory has its final mode, except in blocks that are still in their first batch. */
  ghost predicate Sealed(w: World, o: Owner, live: seq<Split>) {
    forall a: nat :: w.role(a).Taken? && w.role(a).o == o ==> w.os(a) == Final(o) || InFirstBatch(live, a)
  }

  /** Address `a` lies in the second map, with the given role, of one of the blocks. */
  ghost predicate InMirror(live: seq<Split>, o: Owner, role: Role, a: nat) {
    exists i :: 0 <= i < |live| && OfMirror(live[i], o, role, a)
  }

  ghost predicate OfMirror(s: Split, o: Owner, role: Role, a: nat) {
    s.wrInit && role == Mirror(o, s.b.ptr, s.wr) && s.wr <= a < s.wr + s.b.total
  }

  /** Every second map belongs to a block: none has been left behind. */
  ghost predicate MirrorsOwned(w: World, o: Owner, live: seq<Split>) {
    forall a: nat :: w.role(a).Mirror? && w.role(a).o == o ==> InMirror(live, o, w.role(a), a)
  }

  ghost predicate InTemp(temp: seq<Block>, base: nat, a: nat) {
    exists i :: 0 <= i < |temp| && temp[i].ptr == base && temp[i].ptr <= a < temp[i].End()
  }

  /** All temporary memory belongs to a buffer. */
  ghost predicate TempsOwned(w: World, o: Owner, temp: seq<Block>) {
    forall a: nat :: IsTemp(w, o, a) ==> InTemp(temp, w.role(a).base, a)
  }

  /** No address becomes part of a second map or of a temporary buffer. */
  ghost predicate NoneMarked(w: World, w': World, o: Owner) {
    forall a: nat :: (w'.role(a).Mirror? && w'.role(a).o == o) || IsTemp(w', o, a) ==> w'.role(a) == w.role(a)
  }

  /** The second maps of the blocks are still those of some block. */
  ghost predicate MirrorsKept(live: seq<Split>, live': seq<Split>) {
    forall i :: 0 <= i < |live| && live[i].wrInit ==>
      exists j :: 0 <= j < |live'| && SameMirror(live[i], live'[j])
  }

  ghost predicate SameMirror(s: Split, s': Split) {
    s'.wrInit && s'.b.ptr == s.b.ptr && s'.b.total == s.b.total && s'.wr == s.wr
  }

  lemma InMirrorKept(live: seq<Split>, live': seq<Split>, o: Owner, role: Role, a: nat)
    requires MirrorsKept(live, live') && InMirror(live, o, role, a)
    ensures InMirror(live', o, role, a)
  {
    var i :| 0 <= i < |live| && OfMirror(live[i], o, role, a);
    var j :| 0 <= j < |live'| && SameMirror(live[i], live'[j]);
    assert OfMirror(live'[j], o, role, a);
  }

  /** Steps that mark nothing keep second maps and temporary memory owned. */
  lemma OwnedStep(w: World, w': World, o: Owner, live: seq<Split>, live': seq<Split>, temp: seq<Block>)
    requires MirrorsOwned(w, o, live) && TempsOwned(w, o, temp) && NoneMarked(w, w', o) && MirrorsKept(live, live')
    ensures MirrorsOwned(w', o, live') && TempsOwned(w', o, temp)
  {
    hide InMirror, InTemp, MirrorsKept;
    forall a: nat | w'.role(a).Mirror? && w'.role(a).o == o
      ensures InMirror(live', o, w'.role(a), a)
    {
      InMirrorKept(live, live', o, w'.role(a), a);
    }
    forall a: nat | IsTemp(w', o, a)
      ensures InTemp(temp, w'.role(a).base, a)
    {
      assert IsTemp(w, o, a);
    }
  }

  /** Changing one block keeps the second maps if it keeps its own. */
  lemma MirrorsUpdate(live: seq<Split>, k: nat, s': Split)
    requires k < |live| && (live[k].wrInit ==> SameMirror(live[k], s'))
    ensures MirrorsKept(live, live[k := s'])
  {
    var live' := live[k := s'];
    forall i | 0 <= i < |live| && live[i].wrInit
      ensures exists j :: 0 <= j < |live'| && SameMirror(live[i], live'[j])
    {
      assert SameMirror(live[i], live'[i]);
    }
  }

  ghost predicate RoOk(w: World, pg: nat, r: RoAllocator)
    requires pg >= 1
  {
    && r.o != Data && |r.blocks| == BlockCount && (r.dual ==> r.temp == [])
    && (forall i :: 1 <= i < BlockCount ==> r.blocks[i] == NullSplit)
    && (r.blocks[0].IsNull() ==> r.blocks[0] == NullSplit)
    && LiveOk(w, pg, r.o, r.dual, Live(r))
    && TempsOk(w, pg, r.o, r.temp)
    && Sealed(w, r.o, Live(r))
    && MirrorsOwned(w, r.o, Live(r))
    && TempsOwned(w, r.o, r.temp)
  }

  // ---------------------------------------------------------------------------
  // Steps that disturb nobody.
  // ---------------------------------------------------------------------------

  /** How an allocation is written: in place, through a second map, or through a temporary buffer. */
  datatype Via = Direct | ViaMirror(base: nat, mirror: nat) | ViaTemp(base: nat)

  /**
  A step of allocator `o` on behalf of allocation `id`: handed-out memory and its mode stay,
  write memory stays writable, and whatever is newly handed out belongs to `id`.
   */
  ghost predicate GentleAt(w: World, w': World, o: Owner, id: nat, a: nat) {
    && (w.role(a) != Nobody && w.role(a).o != o ==> SameAt(w, w', a))
    && (w'.role(a) != Nobody && w'.role(a).o != o ==> w'.role(a) == w.role(a))
    && (w.role(a).Taken? ==> SameAt(w, w', a))
    && (w.role(a).Mirror? || w.role(a).Scratch? ==> w'.role(a) == w.role(a) && (w.os(a) == ReadWrite ==>
         w'.os(a) == ReadWrite))
    && (w'.role(a).Taken? ==> w.role(a).Taken? || w'.role(a) == Taken(o, id))
  }

  ghost predicate Gentle(w: World, w': World, o: Owner, id: nat) {
    WorldOk(w') && forall a: nat :: GentleAt(w, w', o, id, a)
  }

  /** Nothing more is handed out. */
  ghost predicate NoneTaken(w: World, w': World) {
    forall a: nat :: w'.role(a).Taken? ==> w.role(a).Taken?
  }

  lemma GentleTrans(w: World, w1: World, w2: World, o: Owner, id: nat)
    requires Gentle(w, w1, o, id) && Gentle(w1, w2, o, id)
    ensures Gentle(w, w2, o, id)
  {
    forall a: nat
      ensures GentleAt(w, w2, o, id, a)
    {
      assert GentleAt(w, w1, o, id, a) && GentleAt(w1, w2, o, id, a);
    }
  }

  lemma TakeIsGentle(w: World, o: Owner, base: nat, lo: nat, hi: nat, id: nat)
    requires WorldOk(w) && Plays(w, lo, hi, Spare(o, base))
    ensures Gentle(w, Assign(w, lo, hi, Taken(o, id)), o, id)
  {
  }

  lemma MapIsGentle(w: World, pg: nat, o: Owner, place: nat, n: nat, r: Role, id: nat)
    requires pg >= 1 && WorldOk(w) && Vacant(w, pg, place, n) && r != Nobody && r.o == o && !r.Taken?
    ensures Gentle(w, Map(w, place, place + n, ReadWrite, r), o, id)
    ensures NoneTaken(w, Map(w, place, place + n, ReadWrite, r))
  {
  }

  lemma ResetIsGentle(w: World, pg: nat, o: Owner, b: Block, id: nat)
    requires IsPow2(pg) && pg >= 1 && WorldOk(w) && Carved(w, pg, o, b)
    ensures pg <= Word && b.FreeLo() >= 0 && Gentle(w, Reset(w, pg, b), o, id) && NoneTaken(w, Reset(w, pg, b))
  {
    ResetSpec(w, pg, o, b);
    hide Reset, Carved, IsPow2;
  }

  lemma TempsFrame(w: World, w': World, pg: nat, o: Owner, temp: seq<Block>)
    requires pg >= 1 && TempsOk(w, pg, o, temp)
    requires forall a: nat :: IsTemp(w, o, a) ==> SameAt(w, w', a)
    ensures TempsOk(w', pg, o, temp)
  {
    forall i | 0 <= i < |temp|
      ensures TempOk(w', pg, o, temp[i])
    {
      var t := temp[i];
      assert TempOk(w, pg, o, t);
      forall a: nat | t.ptr <= a < t.End()
        ensures w'.role(a) == w.role(a) && w'.os(a) == w.os(a)
      {
        assert IsTemp(w, o, a);
        assert SameAt(w, w', a);
      }
    }
  }

  /** Gentle steps keep handed-out memory sealed, as long as the blocks in their first batch are kept. */
  lemma SealedStep(w: World, w': World, o: Owner, id: nat, live: seq<Split>, live': seq<Split>)
    requires Sealed(w, o, live) && Gentle(w, w', o, id)
    requires forall a: nat :: InFirstBatch(live, a) ==> InFirstBatch(live', a)
    requires forall a: nat :: w'.role(a).Taken? && !w.role(a).Taken? ==> w'.os(a) == Final(o) || InFirstBatch(live', a)
    ensures Sealed(w', o, live')
  {
    hide InFirstBatch, WorldOk;
    forall a: nat | w'.role(a).Taken? && w'.role(a).o == o
      ensures w'.os(a) == Final(o) || InFirstBatch(live', a)
    {
      assert GentleAt(w, w', o, id, a);
    }
  }

  // ---------------------------------------------------------------------------
  // Temporary buffers.
  // ---------------------------------------------------------------------------

  predicate NoneFits(temp: seq<Block>, size: nat, align: nat)
    requires align <= Word
  {
    forall i :: 0 <= i < |temp| ==> BlockAlloc(temp[i], size, align).NoRoom?
  }

  lemma TempTake(w: World, pg: nat, o: Owner, temp: seq<Block>, k: nat, b': Block, p: nat, size: nat, id: nat)
    requires pg >= 1 && WorldOk(w) && TempsOk(w, pg, o, temp) && k < |temp| && IsBump(temp[k], b', p, size, pg)
    ensures var w' := Assign(w, p, p + size, Scratch(o, temp[k].ptr, id));
      && TempsOk(w', pg, o, temp[k := b']) && Gentle(w, w', o, id) && NoneTaken(w, w')
      && Has(w', p, p + size, ReadWrite)
      && (forall a: nat :: SameAt(w, w', a) || (IsTemp(w, o, a) && IsTemp(w', o, a)))
      && (TempsOwned(w, o, temp) ==> TempsOwned(w', o, temp[k := b']))
  {
    var w' := Assign(w, p, p + size, Scratch(o, temp[k].ptr, id));
    assert TempOk(w, pg, o, temp[k]);
    var temp' := temp[k := b'];
    forall i | 0 <= i < |temp|
      ensures TempOk(w', pg, o, temp'[i])
    {
      assert TempOk(w, pg, o, temp[i]);
      if i != k {
        assert temp[i].ptr != temp[k].ptr;
        forall a: nat | temp[i].ptr <= a < temp[i].End()
          ensures w'.role(a) == w.role(a)
        {
        }
      }
    }
    if TempsOwned(w, o, temp) {
      TempTakeOwned(w, o, temp, k, b', p, size, id);
    }
  }

  lemma TempTakeOwned(w: World, o: Owner, temp: seq<Block>, k: nat, b': Block, p: nat, size: nat, id: nat)
    requires TempsOwned(w, o, temp) && k < |temp| && b'.ptr == temp[k].ptr && b'.total == temp[k].total
    requires temp[k].ptr <= p && p + size <= temp[k].End()
    ensures TempsOwned(Assign(w, p, p + size, Scratch(o, temp[k].ptr, id)), o, temp[k := b'])
  {
    var w', temp' := Assign(w, p, p + size, Scratch(o, temp[k].ptr, id)), temp[k := b'];
    forall a: nat | IsTemp(w', o, a)
      ensures InTemp(temp', w'.role(a).base, a)
    {
      if p <= a < p + size {
        assert temp'[k].ptr == w'.role(a).base;
      } else {
        assert IsTemp(w, o, a);
        var i :| 0 <= i < |temp| && temp[i].ptr == w.role(a).base && temp[i].ptr <= a < temp[i].End();
        assert temp'[i].ptr == temp[i].ptr;
      }
    }
  }

  lemma TempAddOwned(w: World, o: Owner, temp: seq<Block>, place: nat, n: nat)
    requires TempsOwned(w, o, temp)
    ensures TempsOwned(Map(w, place, place + n, ReadWrite, TempSpare(o, place)), o, temp + [Block(place, n, n)])
  {
    var w', temp' := Map(w, place, place + n, ReadWrite, TempSpare(o, place)), temp + [Block(place, n, n)];
    forall a: nat | IsTemp(w', o, a)
      ensures InTemp(temp', w'.role(a).base, a)
    {
      if place <= a < place + n {
        assert temp'[|temp|].ptr == w'.role(a).base;
      } else {
        assert IsTemp(w, o, a);
        var i :| 0 <= i < |temp| && temp[i].ptr == w.role(a).base && temp[i].ptr <= a < temp[i].End();
        assert temp'[i] == temp[i];
      }
    }
  }

  lemma TempAdd(w: World, pg: nat, o: Owner, temp: seq<Block>, place: nat, n: nat, id: nat)
    requires pg >= 1 && WorldOk(w) && TempsOk(w, pg, o, temp) && Vacant(w, pg, place, n) && IsBlockSize(n, pg)
    ensures var w' := Map(w, place, place + n, ReadWrite, TempSpare(o, place));
      && TempsOk(w', pg, o, temp + [Block(place, n, n)]) && Gentle(w, w', o, id) && NoneTaken(w, w')
      && (forall a: nat :: SameAt(w, w', a) || (w.os(a) == Unmapped && IsTemp(w', o, a)))
  {
    var w' := Map(w, place, place + n, ReadWrite, TempSpare(o, place));
    MapIsGentle(w, pg, o, place, n, TempSpare(o, place), id);
    TempsFrame(w, w', pg, o, temp);
    forall i | 0 <= i < |temp|
      ensures temp[i].ptr != place
    {
      assert TempOk(w, pg, o, temp[i]);
      assert w.os(place) == Unmapped;
    }
    assert TempOk(w', pg, o, Block(place, n, n));
    hide TempOk, Gentle;
  }

  /** Write memory of a temporary buffer. */
  ghost predicate ScratchOk(w: World, o: Owner, id: nat, p: nat, size: nat, base: nat) {
    Plays(w, p, p + size, Scratch(o, base, id)) && Has(w, p, p + size, ReadWrite)
  }

  /** Buffer `i` is the first with room. */
  predicate IsFirstFit(temp: seq<Block>, size: nat, align: nat, i: nat)
    requires align <= Word
  {
    && i < |temp| && BlockAlloc(temp[i], size, align).Room?
    && forall j :: 0 <= j < i ==> BlockAlloc(temp[j], size, align).NoRoom?
  }

  /** The first buffer with room is used; a new one is made only if none has. */
  ghost predicate FirstFit(temp0: seq<Block>, temp: seq<Block>, size: nat, align: nat, pg: nat, place: nat, p: nat)
    requires align <= pg <= Word && pg >= 1
  {
    if NoneFits(temp0, size, align) then
      var n := BlockSize(size, pg);
      size <= n && temp == temp0 + [Block(place, n, n - size)] && p == place
    else
      exists i: nat :: IsFirstFit(temp0, size, align, i) && temp == temp0[i := BlockAlloc(temp0[i], size, align).b]
                       && p == BlockAlloc(temp0[i], size, align).p
  }

  method TempAlloc(temp0: seq<Block>, size: nat, align: nat, pg: nat, place: nat, o: Owner, id: nat, ghost w: World)
    returns (temp: seq<Block>, p: nat, ghost w': World, ghost base: nat)
    requires IsPow2(pg) && IsPow2(align) && align <= pg <= Word && size + pg <= Word && pg >= 1
    requires WorldOk(w) && TempsOk(w, pg, o, temp0) && TempsOwned(w, o, temp0)
    requires NoneFits(temp0, size, align) ==> Vacant(w, pg, place, BlockSize(size, pg))
    ensures TempsOk(w', pg, o, temp) && Gentle(w, w', o, id) && NoneTaken(w, w') && TempsOwned(w', o, temp)
    ensures ScratchOk(w', o, id, p, size, base) && p % align == 0
    ensures forall a: nat :: SameAt(w, w', a) || ((IsTemp(w, o, a) || w.os(a) == Unmapped) && IsTemp(w', o, a))
    ensures FirstFit(temp0, temp, size, align, pg, place, p)
  {
    hide IsPow2, BlockAlloc, BlockSize, TempsOk, Gentle, WorldOk, TempsOwned;
    var i := 0;
    while i < |temp0|
      invariant 0 <= i <= |temp0| && forall j :: 0 <= j < i ==> BlockAlloc(temp0[j], size, align).NoRoom?
    {
      var bump := BlockAlloc(temp0[i], size, align);
      if bump.Room? {
        TempBump(w, pg, o, temp0, i, size, align);
        TempTake(w, pg, o, temp0, i, bump.b, bump.p, size, id);
        base := temp0[i].ptr;
        w' := Assign(w, bump.p, bump.p + size, Scratch(o, base, id));
        assert IsFirstFit(temp0, size, align, i);
        return temp0[i := bump.b], bump.p, w', base;
      }
      i := i + 1;
    }
    var n := BlockSize(size, pg);
    BlockSizeSpec(size, pg);
    FreshBump(place, size, align, pg);
    var bump := BlockAlloc(Block(place, n, n), size, align);
    TempAdd(w, pg, o, temp0, place, n, id);
    TempAddOwned(w, o, temp0, place, n);
    temp := temp0 + [Block(place, n, n)];
    ghost var w1 := Map(w, place, place + n, ReadWrite, TempSpare(o, place));
    TempTakeNew(w, w1, pg, o, temp, place, n, size, align, id);
    temp := temp[|temp0| := bump.b];
    assert temp == temp0 + [Block(place, n, n - size)];
    p, base := bump.p, place;
    w' := Assign(w1, p, p + size, Scratch(o, base, id));
    PowersDivide(align, pg, place);
  }

  lemma TempBump(w: World, pg: nat, o: Owner, temp: seq<Block>, i: nat, size: nat, align: nat)
    requires IsPow2(pg) && IsPow2(align) && align <= pg <= Word && pg >= 1 && TempsOk(w, pg, o, temp) && i < |temp|
    requires BlockAlloc(temp[i], size, align).Room?
    ensures var bump := BlockAlloc(temp[i], size, align);
      align >= 1 && bump.p % align == 0 && IsBump(temp[i], bump.b, bump.p, size, pg)
  {
    assert TempOk(w, pg, o, temp[i]);
    hide IsPow2, BlockAlloc;
    BumpSpec(temp[i], size, align, pg);
  }

  lemma TempTakeNew(w: World, w1: World, pg: nat, o: Owner, temp: seq<Block>, place: nat, n: nat, size: nat,
                    align: nat, id: nat)
    requires pg >= 1 && Gentle(w, w1, o, id) && NoneTaken(w, w1) && TempsOk(w1, pg, o, temp) && |temp| > 0
    requires temp[|temp| - 1] == Block(place, n, n)
    requires size <= n && Plays(w1, place, place + n, TempSpare(o, place)) && Vacant(w, pg, place, n)
    requires IsBlockSize(n, pg)
    requires forall a: nat :: SameAt(w, w1, a) || (w.os(a) == Unmapped && IsTemp(w1, o, a))
    requires TempsOwned(w1, o, temp)
    ensures var w' := Assign(w1, place, place + size, Scratch(o, place, id));
      && TempsOk(w', pg, o, temp[|temp| - 1 := Block(place, n, n - size)]) && Gentle(w, w', o, id) && NoneTaken(w, w')
      && ScratchOk(w', o, id, place, size, place) && TempsOwned(w', o, temp[|temp| - 1 := Block(place, n, n - size)])
      && (forall a: nat :: SameAt(w, w', a) || ((IsTemp(w, o, a) || w.os(a) == Unmapped) && IsTemp(w', o, a)))
  {
    var w' := Assign(w1, place, place + size, Scratch(o, place, id));
    TempTake(w1, pg, o, temp, |temp| - 1, Block(place, n, n - size), place, size, id);
    GentleTrans(w, w1, w', o, id);
    hide Gentle, TempsOk, TempsOwned;
    forall a: nat
      ensures SameAt(w, w', a) || ((IsTemp(w, o, a) || w.os(a) == Unmapped) && IsTemp(w', o, a))
    {
      assert SameAt(w, w1, a) || (w.os(a) == Unmapped && IsTemp(w1, o, a));
      assert SameAt(w1, w', a) || (IsTemp(w1, o, a) && IsTemp(w', o, a));
    }
  }

  // ---------------------------------------------------------------------------
  // Second maps.
  // ---------------------------------------------------------------------------

  /** The world after the second map of a block has been made writable. */
  ghost function OpenMirror(w: World, o: Owner, s: Split, place: nat): World {
    if !s.wrInit then Map(w, place, place + s.b.total, ReadWrite, Mirror(o, s.b.ptr, place))
    else Protect(w, s.wr, s.wr + s.b.total, ReadWrite)
  }

  /** Nothing is marked but the second map of one block. */
  ghost predicate OnlyMirror(w: World, w': World, o: Owner, s: Split) {
    forall a: nat :: (w'.role(a).Mirror? && w'.role(a).o == o) || IsTemp(w', o, a) ==>
      w'.role(a) == w.role(a) || OfMirror(s, o, w'.role(a), a)
  }

  lemma OpenMirrorSpec(w: World, pg: nat, o: Owner, s: Split, place: nat, id: nat)
    requires pg >= 1 && WorldOk(w) && SplitOk(w, pg, o, true, s) && !s.init
    requires !s.wrInit ==> Vacant(w, pg, place, s.b.total)
    ensures var w' := OpenMirror(w, o, s, place);
      && SplitOk(w', pg, o, true,
                 s.(wr := if s.wrInit then s.wr else place, alloc := true, wrInit := true, wrReady := true))
      && ChangesOnly(w, w', o, s) && Gentle(w, w', o, id) && NoneTaken(w, w')
      && OnlyMirror(w, w', o, if s.wrInit then s else s.(wr := place, wrInit := true))
  {
    var w' := OpenMirror(w, o, s, place);
    if s.wrInit {
      assert forall a: nat :: s.wr <= a < s.wr + s.b.total ==> w.role(a) == Mirror(o, s.b.ptr, s.wr);
    } else {
      assert forall a: nat :: place <= a < place + s.b.total ==> w.os(a) == Unmapped;
    }
    forall a: nat | s.b.ptr <= a < s.b.End()
      ensures w'.role(a) == w.role(a) && w'.os(a) == w.os(a)
    {
    }
  }

  /** DualMapAllocator::get_wr_ptr; the address must lie inside the block. */
  method GetWrPtr(s0: Split, rt: nat, pg: nat, place: nat, o: Owner, ghost id: nat, ghost w: World)
    returns (s: Split, wr: nat, ghost w': World)
    requires pg >= 1 && WorldOk(w) && SplitOk(w, pg, o, true, s0) && !s0.init
    requires s0.b.ptr <= rt < s0.b.End()
    requires !s0.wrInit ==> Vacant(w, pg, place, s0.b.total)
    ensures s == s0.(wr := if s0.wrInit then s0.wr else place, alloc := s0.alloc, wrInit := true, wrReady := true)
    ensures w' == OpenMirror(w, o, s0, place) || (w' == w && s == s0)
    ensures SplitOk(w', pg, o, true, s.(alloc := true)) && ChangesOnly(w, w', o, s0) && Gentle(w, w', o, id)
    ensures NoneTaken(w, w') && OnlyMirror(w, w', o, s)
    ensures wr - s.wr == rt - s.b.ptr
  {
    OpenMirrorSpec(w, pg, o, s0, place, id);
    s, w' := s0, w;
    if !s.wrInit {
      s := s.(wr := place, wrInit := true);
      w' := OpenMirror(w, o, s0, place);
    }
    if !s.wrReady {
      s := s.(wrReady := true);
      w' := OpenMirror(w, o, s0, place);
    } else {
      NothingChanged(w, o, s0, id);
    }
    wr := rt - s.b.ptr + s.wr;
  }

  lemma NothingChanged(w: World, o: Owner, s: Split, id: nat)
    requires WorldOk(w)
    ensures ChangesOnly(w, w, o, s) && Gentle(w, w, o, id)
  {
  }
}
