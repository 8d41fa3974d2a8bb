/**
ROAllocator::alloc (src/cgmemmgr.cpp): the search over the blocks, the change to a new block,
and the write address for memory that is already protected.
 */
module JitRo {
  import opened Bits
  import opened JitMemory
  import opened JitBlocks
  import opened JitAllocators

  /** The memory of allocation `id`, and how its write address reaches it. */
  ghost predicate Handed(w: World, o: Owner, id: nat, rt: nat, wr: nat, size: nat, via: Via) {
    && Plays(w, rt, rt + size, Taken(o, id)) && Has(w, wr, wr + size, ReadWrite)
    && match via
       case Direct => wr == rt
       case ViaMirror(base, mirror) => wr - mirror == rt - base && Plays(w, wr, wr + size, Mirror(o, base, mirror))
       case ViaTemp(base) => Plays(w, wr, wr + size, Scratch(o, base, id))
  }

  function SetBlock(r: RoAllocator, s: Split): RoAllocator
    requires |r.blocks| == BlockCount
  {
    r.(blocks := r.blocks[0 := s])
  }

  /** Handing out part of the current block. */
  lemma TakeHere(w: World, pg: nat, r: RoAllocator, b': Block, p: nat, size: nat, id: nat)
    requires pg >= 1 && WorldOk(w) && RoOk(w, pg, r) && !r.blocks[0].IsNull() && IsBump(r.blocks[0].b, b', p, size, pg)
    ensures var w' := Assign(w, p, p + size, Taken(r.o, id));
      && RoOk(w', pg, SetBlock(r, r.blocks[0].(b := b'))) && Gentle(w, w', r.o, id)
      && Has(w', p, p + size, if r.blocks[0].init then ReadWrite else Final(r.o))
  {
    var w' := Assign(w, p, p + size, Taken(r.o, id));
    var s, live := r.blocks[0], Live(r);
    var s' := s.(b := b');
    var r' := SetBlock(r, s');
    assert live[0] == s && Live(r') == live[0 := s'];
    TakeKeepsSplit(w, pg, r.o, r.dual, s, b', p, size, id);
    LiveUpdate(w, w', pg, r.o, r.dual, live, 0, s');
    TakeIsGentle(w, r.o, s.b.ptr, p, p + size, id);
    assert forall a: nat :: p <= a < p + size ==> w.role(a) == Spare(r.o, s.b.ptr);
    TempsFrame(w, w', pg, r.o, r.temp);
    assert Has(w, s.b.ptr, s.b.End(), if s.init then ReadWrite else Final(r.o)) by {
      assert SplitOk(w, pg, r.o, r.dual, s);
    }
    TakeSealed(w, w', r.o, live, s', p, size, id);
    MirrorsUpdate(live, 0, s');
    OwnedStep(w, w', r.o, live, Live(r'), r.temp);
    hide LiveOk, TempsOk, Sealed, Gentle, WorldOk, MirrorsOwned, TempsOwned;
  }

  lemma TakeSealed(w: World, w': World, o: Owner, live: seq<Split>, s': Split, p: nat, size: nat, id: nat)
    requires Sealed(w, o, live) && Gentle(w, w', o, id) && w' == Assign(w, p, p + size, Taken(o, id)) && |live| > 0
    requires s'.b.ptr == live[0].b.ptr && s'.b.total == live[0].b.total && s'.init == live[0].init
    requires s'.b.ptr <= p && p + size <= s'.b.End()
    requires Has(w, s'.b.ptr, s'.b.End(), if s'.init then ReadWrite else Final(o))
    ensures Sealed(w', o, live[0 := s'])
  {
    var live' := live[0 := s'];
    SameFirstBatch(live, live');
    forall a: nat | w'.role(a).Taken? && !w.role(a).Taken?
      ensures w'.os(a) == Final(o) || InFirstBatch(live', a)
    {
      assert p <= a < p + size;
      assert live'[0].init ==> live'[0].b.ptr <= a < live'[0].b.End();
    }
    SealedStep(w, w', o, id, live, live');
  }

  /** The blocks in their first batch cover the same addresses. */
  lemma SameFirstBatch(live: seq<Split>, live': seq<Split>)
    requires |live'| == |live|
    requires forall i :: 0 <= i < |live| ==>
               live'[i].b.ptr == live[i].b.ptr && live'[i].b.total == live[i].b.total && live'[i].init == live[i].init
    ensures forall a: nat :: InFirstBatch(live, a) ==> InFirstBatch(live', a)
  {
    forall a: nat | InFirstBatch(live, a)
      ensures InFirstBatch(live', a)
    {
      var i :| 0 <= i < |live| && live[i].init && live[i].b.ptr <= a < live[i].b.End();
      assert live'[i].init;
    }
  }

  /** Changing the flags or the mirror of the current block. */
  lemma FlagHere(w: World, w': World, pg: nat, r: RoAllocator, s': Split, id: nat)
    requires pg >= 1 && WorldOk(w) && RoOk(w, pg, r) && !r.blocks[0].IsNull()
    requires ChangesOnly(w, w', r.o, r.blocks[0]) && SplitOk(w', pg, r.o, r.dual, s') && Gentle(w, w', r.o, id)
    requires NoneTaken(w, w') && OnlyMirror(w, w', r.o, s')
    requires s'.b == r.blocks[0].b && s'.init == r.blocks[0].init
    requires r.blocks[0].wrInit ==> s'.wrInit && s'.wr == r.blocks[0].wr
    requires r.dual || w' == w
    ensures RoOk(w', pg, SetBlock(r, s'))
  {
    var s, live := r.blocks[0], Live(r);
    var r' := SetBlock(r, s');
    assert live[0] == s && Live(r') == live[0 := s'];
    LiveUpdate(w, w', pg, r.o, r.dual, live, 0, s');
    SameFirstBatch(live, Live(r'));
    SealedStep(w, w', r.o, id, live, Live(r'));
    MirrorsUpdate(live, 0, s');
    FlagOwned(w, w', r.o, live, Live(r'), s', r.temp);
    hide LiveOk, Sealed, Gentle, WorldOk, SplitOk, ChangesOnly, MirrorsOwned, TempsOwned;
  }

  lemma FlagOwned(w: World, w': World, o: Owner, live: seq<Split>, live': seq<Split>, s': Split, temp: seq<Block>)
    requires MirrorsOwned(w, o, live) && TempsOwned(w, o, temp) && OnlyMirror(w, w', o, s') && MirrorsKept(live, live')
    requires |live'| > 0 && live'[0] == s'
    ensures MirrorsOwned(w', o, live') && TempsOwned(w', o, temp)
  {
    hide InTemp, MirrorsKept;
    forall a: nat | w'.role(a).Mirror? && w'.role(a).o == o
      ensures InMirror(live', o, w'.role(a), a)
    {
      if OfMirror(s', o, w'.role(a), a) {
        assert OfMirror(live'[0], o, w'.role(a), a);
      } else {
        InMirrorKept(live, live', o, w'.role(a), a);
      }
    }
    forall a: nat | IsTemp(w', o, a)
      ensures InTemp(temp, w'.role(a).base, a)
    {
      assert w'.role(a) == w.role(a);
      assert IsTemp(w, o, a);
    }
  }

  /** Changing the temporary buffers. */
  lemma TempHere(w: World, w': World, pg: nat, r: RoAllocator, temp: seq<Block>, id: nat)
    requires pg >= 1 && WorldOk(w) && RoOk(w, pg, r) && !r.dual && TempsOk(w', pg, r.o, temp)
    requires Gentle(w, w', r.o, id) && NoneTaken(w, w') && TempsOwned(w', r.o, temp)
    requires forall a: nat :: SameAt(w, w', a) || ((IsTemp(w, r.o, a) || w.os(a) == Unmapped) && IsTemp(w', r.o, a))
    ensures RoOk(w', pg, r.(temp := temp))
  {
    LiveFrame(w, w', pg, r.o, r.dual, Live(r));
    SealedStep(w, w', r.o, id, Live(r), Live(r));
    TempMirrors(w, w', r.o, Live(r));
    hide LiveOk, TempsOk, Sealed, Gentle, WorldOk, MirrorsOwned, TempsOwned;
    assert Live(r.(temp := temp)) == Live(r);
  }

  lemma TempMirrors(w: World, w': World, o: Owner, live: seq<Split>)
    requires MirrorsOwned(w, o, live) && forall a: nat :: SameAt(w, w', a) || IsTemp(w', o, a) || w'.role(a) == Nobody
    ensures MirrorsOwned(w', o, live)
  {
    hide InMirror;
    forall a: nat | w'.role(a).Mirror? && w'.role(a).o == o
      ensures InMirror(live, o, w'.role(a), a)
    {
      assert SameAt(w, w', a) || IsTemp(w', o, a) || w'.role(a) == Nobody;
    }
  }

  // ---------------------------------------------------------------------------
  // A new block.
  // ---------------------------------------------------------------------------

  /** The allocator after the current block has been replaced; a block without flags is not kept. */
  function Replace(r: RoAllocator, s: Split): RoAllocator
    requires |r.blocks| == BlockCount
  {
    var was := r.blocks[0];
    SetBlock(r, s).(completed := r.completed + if was.HasState() then [was] else [])
  }

  ghost function ReplaceWorld(w: World, pg: nat, r: RoAllocator, place: nat, n: nat): World
    requires 1 <= pg <= Word && |r.blocks| == BlockCount && r.blocks[0].b.FreeLo() >= 0
  {
    var w1 := MapBlock(w, r.o, place, n);
    if r.blocks[0].HasState() then w1 else Reset(w1, pg, r.blocks[0].b)
  }

  lemma ReplaceLive(w: World, pg: nat, r: RoAllocator, place: nat, n: nat)
    requires IsPow2(pg) && 1 <= pg <= Word && WorldOk(w) && RoOk(w, pg, r) && Vacant(w, pg, place, n)
    requires IsBlockSize(n, pg)
    ensures r.blocks[0].b.FreeLo() >= 0
    ensures var w' := ReplaceWorld(w, pg, r, place, n);
      && LiveOk(w', pg, r.o, r.dual, Live(Replace(r, NewSplit(place, n))))
      && WorldOk(w') && NoneTaken(w, w') && NoneMarked(w, w', r.o)
      && (!r.blocks[0].HasState() && !r.blocks[0].IsNull() ==> GivenBack(w', pg, r.blocks[0].b))
      && (forall a: nat :: IsTemp(w, r.o, a) ==> SameAt(w, w', a))
      && forall id: nat :: Gentle(w, w', r.o, id)
  {
    var was, now := r.blocks[0], NewSplit(place, n);
    var w1 := MapBlock(w, r.o, place, n);
    var live := Live(Replace(r, now));
    NewBlockFacts(w, pg, r.o, place, n);
    if !was.IsNull() {
      assert Live(r)[0] == was;
      assert SplitOk(w, pg, r.o, r.dual, Live(r)[0]);
    }
    hide SplitOk, Gentle, LiveOk, IsPow2, MapBlock, NoneTaken, Vacant, TempsOk, Sealed, WorldOk, NewSplit, NoneMarked;
    hide MirrorsOwned, TempsOwned, GivenBack;
    if was.IsNull() {
      assert Live(r) == r.completed;
      LiveAdd(w, pg, r.o, r.dual, r.completed, place, n);
      assert live == [now] + r.completed by { NewIsNotNull(w, pg, place, n); }
    } else if was.HasState() {
      assert Live(r) == [was] + r.completed;
      LiveRotate(w, pg, r.o, r.dual, was, r.completed);
      LiveAdd(w, pg, r.o, r.dual, r.completed + [was], place, n);
      assert live == [now] + (r.completed + [was]) by { NewIsNotNull(w, pg, place, n); }
    } else {
      LiveAdd(w, pg, r.o, r.dual, Live(r), place, n);
      DropOld(w, w1, pg, r, place, n);
    }
  }

  lemma NewIsNotNull(w: World, pg: nat, place: nat, n: nat)
    requires pg >= 1 && Vacant(w, pg, place, n)
    ensures !NewSplit(place, n).IsNull()
  {
  }

  lemma NewBlockFacts(w: World, pg: nat, o: Owner, place: nat, n: nat)
    requires pg >= 1 && WorldOk(w) && Vacant(w, pg, place, n)
    ensures var w1 := MapBlock(w, o, place, n);
      && NoneTaken(w, w1) && NoneMarked(w, w1, o) && (forall id: nat :: Gentle(w, w1, o, id))
      && (forall a: nat :: IsTemp(w, o, a) ==> SameAt(w, w1, a))
  {
    forall id: nat
      ensures Gentle(w, MapBlock(w, o, place, n), o, id)
    {
      MapIsGentle(w, pg, o, place, n, Spare(o, place), id);
    }
    hide Gentle;
  }

  lemma DropOld(w: World, w1: World, pg: nat, r: RoAllocator, place: nat, n: nat)
    requires IsPow2(pg) && 1 <= pg <= Word && |r.blocks| == BlockCount && !r.blocks[0].IsNull()
    requires !r.blocks[0].HasState()
    requires WorldOk(w1) && LiveOk(w1, pg, r.o, r.dual, [NewSplit(place, n)] + Live(r))
    requires NoneTaken(w, w1) && NoneMarked(w, w1, r.o) && forall id: nat :: Gentle(w, w1, r.o, id)
    requires forall a: nat :: IsTemp(w, r.o, a) ==> SameAt(w, w1, a)
    ensures r.blocks[0].b.FreeLo() >= 0
    ensures var w' := Reset(w1, pg, r.blocks[0].b);
      && LiveOk(w', pg, r.o, r.dual, Live(Replace(r, NewSplit(place, n))))
      && WorldOk(w') && NoneTaken(w, w') && NoneMarked(w, w', r.o)
      && (!r.blocks[0].HasState() && !r.blocks[0].IsNull() ==> GivenBack(w', pg, r.blocks[0].b))
      && (forall a: nat :: IsTemp(w, r.o, a) ==> SameAt(w, w', a))
      && forall id: nat :: Gentle(w, w', r.o, id)
  {
    var was, now := r.blocks[0], NewSplit(place, n);
    var live := [now] + Live(r);
    assert live[1] == was && live[0] == now;
    assert SplitOk(w1, pg, r.o, r.dual, live[0]);
    assert SplitOk(w1, pg, r.o, r.dual, live[1]);
    ResetSpec(w1, pg, r.o, was.b);
    var w' := Reset(w1, pg, was.b);
    assert live[..1] + live[2..] == Live(Replace(r, now));
    assert NoneMarked(w1, w', r.o) by { ResetMarksNothing(w1, pg, r.o, was.b); }
    MarkedTrans(w, w1, w', r.o);
    hide LiveOk, Reset, SplitOk, NoneMarked, GivenBack;
    LiveRemove(w1, w', pg, r.o, r.dual, live, 1);
    forall id: nat
      ensures Gentle(w, w', r.o, id) && NoneTaken(w1, w')
    {
      ResetIsGentle(w1, pg, r.o, was.b, id);
      GentleTrans(w, w1, w', r.o, id);
    }
    hide Gentle;
  }

  lemma ResetMarksNothing(w: World, pg: nat, o: Owner, b: Block)
    requires IsPow2(pg) && 1 <= pg <= Word && WorldOk(w) && Carved(w, pg, o, b)
    ensures b.FreeLo() >= 0 && NoneMarked(w, Reset(w, pg, b), o)
  {
    ResetSpec(w, pg, o, b);
    hide Reset, Carved, IsPow2;
  }

  lemma MarkedTrans(w: World, w1: World, w2: World, o: Owner)
    requires NoneMarked(w, w1, o) && NoneMarked(w1, w2, o)
    ensures NoneMarked(w, w2, o)
  {
    forall a: nat | (w2.role(a).Mirror? && w2.role(a).o == o) || IsTemp(w2, o, a)
      ensures w2.role(a) == w.role(a)
    {
      assert w2.role(a) == w1.role(a);
      assert IsTemp(w2, o, a) ==> IsTemp(w1, o, a);
    }
  }

  lemma ReplaceMirrors(r: RoAllocator, s: Split)
    requires |r.blocks| == BlockCount && !s.IsNull()
    ensures MirrorsKept(Live(r), Live(Replace(r, s)))
  {
    var live, live' := Live(r), Live(Replace(r, s));
    forall i | 0 <= i < |live| && live[i].wrInit
      ensures exists j :: 0 <= j < |live'| && SameMirror(live[i], live'[j])
    {
      if !r.blocks[0].IsNull() && i == 0 {
        assert live'[|live'| - 1] == live[0];
      } else {
        assert live'[if r.blocks[0].IsNull() then i + 1 else i] == live[i];
      }
    }
  }

  lemma ReplaceOk(w: World, pg: nat, r: RoAllocator, place: nat, n: nat, id: nat)
    requires IsPow2(pg) && 1 <= pg <= Word && WorldOk(w) && RoOk(w, pg, r) && Vacant(w, pg, place, n)
    requires IsBlockSize(n, pg)
    ensures r.blocks[0].b.FreeLo() >= 0
    ensures var w' := ReplaceWorld(w, pg, r, place, n);
      && RoOk(w', pg, Replace(r, NewSplit(place, n))) && Gentle(w, w', r.o, id)
      && (!r.blocks[0].HasState() && !r.blocks[0].IsNull() ==> GivenBack(w', pg, r.blocks[0].b))
  {
    ReplaceLive(w, pg, r, place, n);
    var w', r' := ReplaceWorld(w, pg, r, place, n), Replace(r, NewSplit(place, n));
    TempsFrame(w, w', pg, r.o, r.temp);
    ReplaceFirstBatch(r, NewSplit(place, n));
    ReplaceMirrors(r, NewSplit(place, n));
    OwnedStep(w, w', r.o, Live(r), Live(r'), r.temp);
    hide LiveOk, WorldOk, ReplaceWorld, IsPow2, MirrorsOwned, TempsOwned, GivenBack, NoneMarked;
    SealedStep(w, w', r.o, id, Live(r), Live(r'));
  }

  lemma ReplaceFirstBatch(r: RoAllocator, s: Split)
    requires |r.blocks| == BlockCount && !s.IsNull()
    ensures forall a: nat :: InFirstBatch(Live(r), a) ==> InFirstBatch(Live(Replace(r, s)), a)
  {
    var live, live' := Live(r), Live(Replace(r, s));
    forall a: nat | InFirstBatch(live, a)
      ensures InFirstBatch(live', a)
    {
      var i :| 0 <= i < |live| && live[i].init && live[i].b.ptr <= a < live[i].b.End();
      if !r.blocks[0].IsNull() && i == 0 {
        assert live'[|live'| - 1] == live[0];
      } else {
        assert live'[if r.blocks[0].IsNull() then i + 1 else i] == live[i];
      }
    }
  }

  // ---------------------------------------------------------------------------
  // The operation.
  // ---------------------------------------------------------------------------

  /** A request the manager may make: a power-of-two alignment up to the page size. */
  ghost predicate Request(size: nat, align: nat, pg: nat) {
    IsPow2(pg) && IsPow2(align) && 1 <= align <= pg <= Word && size + pg <= Word
  }

  /** Where the operating system puts the new mapping, if this call makes one. */
  ghost predicate PlaceOk(w: World, pg: nat, r: RoAllocator, size: nat, align: nat, place: nat)
    requires 1 <= align <= pg <= Word && |r.blocks| == BlockCount
  {
    var s := r.blocks[0];
    if s.IsNull() || BlockAlloc(s.b, size, align).NoRoom? then Vacant(w, pg, place, BlockSize(size, pg))
    else if s.init then true
    else if r.dual then s.wrInit || Vacant(w, pg, place, s.b.total)
    else NoneFits(r.temp, size, align) ==> Vacant(w, pg, place, BlockSize(size, pg))
  }

  /** What get_wr_ptr asserts of the runtime address, were it called with this request. */
  predicate WriteAssert(r: RoAllocator, size: nat, align: nat)
    requires align <= Word && |r.blocks| == BlockCount
  {
    var s := r.blocks[0];
    r.dual && !s.IsNull() && !s.init && BlockAlloc(s.b, size, align).Room? ==>
      s.b.ptr <= BlockAlloc(s.b, size, align).p < s.b.End()
  }

  /** The assertion fails exactly for an empty request at the end of a full block. */
  lemma WriteAssertIff(w: World, pg: nat, r: RoAllocator, size: nat, align: nat)
    requires Request(size, align, pg) && RoOk(w, pg, r)
    ensures WriteAssert(r, size, align)
       <==> !(r.dual && !r.blocks[0].IsNull() && !r.blocks[0].init && size == 0 && r.blocks[0].b.avail < align)
  {
    var s := r.blocks[0];
    if !s.IsNull() {
      assert Live(r)[0] == s && SplitOk(w, pg, r.o, r.dual, Live(r)[0]);
      hide IsPow2, BlockAlloc, LiveOk, TempsOk, Sealed;
      BumpSpec(s.b, size, align, pg);
      if s.b.avail < align {
        DivModUnique(s.b.avail, align, 0, s.b.avail);
      } else {
        MultipleBelow(s.b.avail, align);
      }
    }
  }

  /** The request fits into the current block, which stays as `RoOk` describes it. */
  lemma HereBump(w: World, pg: nat, r: RoAllocator, size: nat, align: nat)
    requires Request(size, align, pg) && RoOk(w, pg, r) && !r.blocks[0].IsNull()
    requires BlockAlloc(r.blocks[0].b, size, align).Room?
    ensures var bump := BlockAlloc(r.blocks[0].b, size, align);
      bump.p % align == 0 && IsBump(r.blocks[0].b, bump.b, bump.p, size, pg)
  {
    assert Live(r)[0] == r.blocks[0] && SplitOk(w, pg, r.o, r.dual, Live(r)[0]);
    hide IsPow2, BlockAlloc, LiveOk, TempsOk, Sealed;
    BumpSpec(r.blocks[0].b, size, align, pg);
  }

  lemma CurrentBlock(w: World, pg: nat, r: RoAllocator)
    requires pg >= 1 && RoOk(w, pg, r) && !r.blocks[0].IsNull()
    ensures SplitOk(w, pg, r.o, r.dual, r.blocks[0])
  {
    assert Live(r)[0] == r.blocks[0];
  }

  /** No block has room for the request. */
  predicate NeedsBlock(r: RoAllocator, size: nat, align: nat)
    requires align <= Word && |r.blocks| == BlockCount
  {
    r.blocks[0].IsNull() || BlockAlloc(r.blocks[0].b, size, align).NoRoom?
  }

  /** The allocator with a new block whose first `size` bytes have been handed out. */
  function WithNewBlock(r: RoAllocator, place: nat, n: nat, size: nat): RoAllocator
    requires |r.blocks| == BlockCount && size <= n
  {
    Replace(r, NewSplit(place, n).(b := Block(place, n, n - size)))
  }

  /** An allocation out of the current block of `r0`, in the world `w`. */
  ghost predicate AllocDone(w: World, w': World, pg: nat, r0: RoAllocator, r: RoAllocator, id: nat, rt: nat, wr: nat,
                            size: nat, via: Via)
    requires pg >= 1
  {
    && WorldOk(w') && RoOk(w', pg, r) && Gentle(w, w', r0.o, id) && Handed(w', r0.o, id, rt, wr, size, via)
    && r.o == r0.o && r.dual == r0.dual && (if r0.dual then !via.ViaTemp? else !via.ViaMirror?)
  }

  /**
  The block in use had room: its free part shrinks from the front, nothing else is replaced, and
  the write address is the runtime address exactly while the block is in its first batch.
   */
  ghost predicate Reused(r0: RoAllocator, r: RoAllocator, size: nat, align: nat, rt: nat, via: Via)
    requires align <= Word && |r0.blocks| == BlockCount
  {
    var s, bump := r0.blocks[0], BlockAlloc(r0.blocks[0].b, size, align);
    && |r.blocks| == BlockCount && bump.Room? && rt == bump.p && r.blocks[0].b == bump.b
    && r.completed == r0.completed && r.blocks[0].init == s.init && r.blocks[0].alloc
    && via.Direct? == s.init && (!s.init ==> via.ViaMirror? == r0.dual)
  }

  lemma AllocDoneTrans(w: World, w1: World, w': World, pg: nat, r0: RoAllocator, r1: RoAllocator, r: RoAllocator,
                       id: nat, rt: nat, wr: nat, size: nat, via: Via)
    requires pg >= 1 && Gentle(w, w1, r0.o, id) && AllocDone(w1, w', pg, r1, r, id, rt, wr, size, via)
    requires r1.o == r0.o && r1.dual == r0.dual
    ensures AllocDone(w, w', pg, r0, r, id, rt, wr, size, via)
  {
    hide RoOk, Gentle, Handed, WorldOk;
    GentleTrans(w, w1, w', r0.o, id);
  }

  lemma AllocDoneDirect(w: World, w': World, pg: nat, r0: RoAllocator, r: RoAllocator, id: nat, rt: nat, size: nat)
    requires pg >= 1 && WorldOk(w') && RoOk(w', pg, r) && Gentle(w, w', r0.o, id)
    requires Plays(w', rt, rt + size, Taken(r0.o, id)) && Has(w', rt, rt + size, ReadWrite)
    requires r.o == r0.o && r.dual == r0.dual
    ensures AllocDone(w, w', pg, r0, r, id, rt, rt, size, Direct)
  {
    hide RoOk, Gentle, WorldOk;
  }

  method AllocHere(r0: RoAllocator, size: nat, align: nat, pg: nat, place: nat, id: nat, ghost w: World)
    returns (r: RoAllocator, rt: nat, wr: nat, ghost w': World, ghost via: Via)
    requires Request(size, align, pg) && WorldOk(w) && RoOk(w, pg, r0) && PlaceOk(w, pg, r0, size, align, place)
    requires WriteAssert(r0, size, align) && !r0.blocks[0].IsNull() && BlockAlloc(r0.blocks[0].b, size, align).Room?
    ensures AllocDone(w, w', pg, r0, r, id, rt, wr, size, via) && rt % align == 0
    ensures Reused(r0, r, size, align, rt, via)
  {
    hide RoOk, IsPow2, BlockAlloc, BlockSize, Vacant, WorldOk, Gentle, Plays, Has, PlaceOk, WriteAssert;
    hide NoneFits, AllocDone, FirstFit, Assign, Handed;
    EightBlocks(w, pg, r0);
    CurrentFlags(w, pg, r0);
    var bump := BlockAlloc(r0.blocks[0].b, size, align);
    HereTaken(w, pg, r0, size, align, id);
    ghost var w1 := Assign(w, bump.p, bump.p + size, Taken(r0.o, id));
    PlacesKept(w, w1, pg, r0, size, align, place);
    hide Assign;
    rt := bump.p;
    ghost var r1 := SetBlock(r0, r0.blocks[0].(b := bump.b));
    r, wr, w', via := WriteTaken(SetBlock(r0, r0.blocks[0].(b := bump.b)), rt, size, align, pg, place, id, w1);
    AllocDoneTrans(w, w1, w', pg, r0, r1, r, id, rt, wr, size, via);
  }

  /** The write address for memory that has just been taken out of the block in use. */
  method WriteTaken(r0: RoAllocator, rt: nat, size: nat, align: nat, pg: nat, place: nat, id: nat, ghost w: World)
    returns (r: RoAllocator, wr: nat, ghost w': World, ghost via: Via)
    requires Request(size, align, pg) && WorldOk(w) && RoOk(w, pg, r0) && !r0.blocks[0].IsNull()
    requires r0.blocks[0].b.ptr <= rt && rt + size <= r0.blocks[0].b.End() && Plays(w, rt, rt + size, Taken(r0.o, id))
    requires r0.blocks[0].init ==> Has(w, rt, rt + size, ReadWrite) && r0.blocks[0].alloc
    requires !r0.blocks[0].init && r0.dual ==>
               rt < r0.blocks[0].b.End() && (r0.blocks[0].wrInit || Vacant(w, pg, place, r0.blocks[0].b.total))
    requires !r0.blocks[0].init && !r0.dual && NoneFits(r0.temp, size, align) ==>
               Vacant(w, pg, place, BlockSize(size, pg))
    ensures AllocDone(w, w', pg, r0, r, id, rt, wr, size, via) && |r.blocks| == BlockCount
    ensures r.completed == r0.completed && r.blocks[0].b == r0.blocks[0].b && r.blocks[0].alloc
    ensures r.blocks[0].init == r0.blocks[0].init == via.Direct?
    ensures !r0.blocks[0].init ==> via.ViaMirror? == r0.dual
  {
    assert |r0.blocks| == BlockCount;
    hide RoOk, IsPow2, BlockSize, Vacant, WorldOk, Gentle, Plays, Has, NoneFits, AllocDone, FirstFit;
    if r0.blocks[0].init {
      assert AllocDone(w, w, pg, r0, r0, id, rt, rt, size, Direct) by {
        NothingChanged(w, r0.o, r0.blocks[0], id);
        AllocDoneDirect(w, w, pg, r0, r0, id, rt, size);
      }
      return r0, rt, w, Direct;
    }
    if r0.dual {
      r, wr, w', via := WriteThroughMirror(r0, rt, size, pg, place, id, w);
    } else {
      r, wr, w', via := WriteThroughTemp(r0, rt, size, align, pg, place, id, w);
    }
  }

  lemma CurrentFlags(w: World, pg: nat, r: RoAllocator)
    requires pg >= 1 && RoOk(w, pg, r) && !r.blocks[0].IsNull()
    ensures FlagsOk(r.dual, r.blocks[0])
  {
    CurrentBlock(w, pg, r);
  }

  /** Everything the rest of the operation needs to know once the memory has been taken. */
  lemma AssignPlays(w: World, lo: nat, hi: nat, role: Role)
    ensures Plays(Assign(w, lo, hi, role), lo, hi, role) && Assign(w, lo, hi, role).os == w.os
  {
  }

  lemma HereTaken(w: World, pg: nat, r: RoAllocator, size: nat, align: nat, id: nat)
    requires Request(size, align, pg) && WorldOk(w) && RoOk(w, pg, r)
    requires !r.blocks[0].IsNull() && BlockAlloc(r.blocks[0].b, size, align).Room?
    ensures var s := r.blocks[0];
      var bump := BlockAlloc(s.b, size, align);
      var w1 := Assign(w, bump.p, bump.p + size, Taken(r.o, id));
      && bump.p % align == 0 && bump.b.ptr == s.b.ptr && bump.b.total == s.b.total
      && s.b.ptr <= bump.p && bump.p + size <= s.b.End()
      && WorldOk(w1) && RoOk(w1, pg, SetBlock(r, s.(b := bump.b))) && Gentle(w, w1, r.o, id)
      && Plays(w1, bump.p, bump.p + size, Taken(r.o, id))
      && w1.os == w.os && (s.init ==> Has(w1, bump.p, bump.p + size, ReadWrite))
  {
    hide RoOk, IsPow2, BlockAlloc, Gentle, WorldOk, IsBump, Plays, Has, Assign, SetBlock;
    EightBlocks(w, pg, r);
    var s := r.blocks[0];
    var bump := BlockAlloc(s.b, size, align);
    HereBump(w, pg, r, size, align);
    BumpInside(s.b, bump.b, bump.p, size, pg);
    TakeHere(w, pg, r, bump.b, bump.p, size, id);
    var w1 := Assign(w, bump.p, bump.p + size, Taken(r.o, id));
    AssignPlays(w, bump.p, bump.p + size, Taken(r.o, id));
    GentleKeepsWorld(w, w1, r.o, id);
  }

  lemma EightBlocks(w: World, pg: nat, r: RoAllocator)
    requires pg >= 1 && RoOk(w, pg, r)
    ensures |r.blocks| == BlockCount
  {
  }

  lemma BumpInside(b: Block, b': Block, p: nat, size: nat, pg: nat)
    requires pg >= 1 && IsBump(b, b', p, size, pg)
    ensures b'.ptr == b.ptr && b'.total == b.total && b.ptr <= p && p + size <= b.End()
  {
  }

  lemma PlacesKept(w: World, w1: World, pg: nat, r: RoAllocator, size: nat, align: nat, place: nat)
    requires Request(size, align, pg) && |r.blocks| == BlockCount && PlaceOk(w, pg, r, size, align, place)
    requires WriteAssert(r, size, align)
    requires !r.blocks[0].IsNull() && BlockAlloc(r.blocks[0].b, size, align).Room? && w1.os == w.os
    ensures var s := r.blocks[0];
      && (!s.init && r.dual ==>
            BlockAlloc(s.b, size, align).p < s.b.End() && (s.wrInit || Vacant(w1, pg, place, s.b.total)))
      && (!s.init && !r.dual && NoneFits(r.temp, size, align) ==> Vacant(w1, pg, place, BlockSize(size, pg)))
  {
    hide IsPow2, BlockAlloc, BlockSize, NoneFits, Vacant;
    VacantKept(w, w1, pg, place, r.blocks[0].b.total);
    VacantKept(w, w1, pg, place, BlockSize(size, pg));
  }

  lemma VacantKept(w: World, w': World, pg: nat, place: nat, n: nat)
    requires pg >= 1 && w'.os == w.os
    ensures Vacant(w, pg, place, n) <==> Vacant(w', pg, place, n)
  {
  }

  method WriteThroughMirror(r0: RoAllocator, rt: nat, size: nat, pg: nat, place: nat, id: nat, ghost w: World)
    returns (r: RoAllocator, wr: nat, ghost w': World, ghost via: Via)
    requires pg >= 1 && WorldOk(w) && RoOk(w, pg, r0) && r0.dual && !r0.blocks[0].IsNull() && !r0.blocks[0].init
    requires r0.blocks[0].b.ptr <= rt < r0.blocks[0].b.End() && rt + size <= r0.blocks[0].b.End()
    requires Plays(w, rt, rt + size, Taken(r0.o, id))
    requires r0.blocks[0].wrInit || Vacant(w, pg, place, r0.blocks[0].b.total)
    ensures AllocDone(w, w', pg, r0, r, id, rt, wr, size, via) && via.ViaMirror? && |r.blocks| == BlockCount
    ensures r.completed == r0.completed && r.blocks[0].b == r0.blocks[0].b && !r.blocks[0].init && r.blocks[0].alloc
  {
    CurrentBlock(w, pg, r0);
    assert |r0.blocks| == BlockCount;
    hide RoOk, SplitOk, Gentle, ChangesOnly, Vacant, OpenMirror, NoneTaken, Plays;
    var s: Split;
    s, wr, w' := GetWrPtr(r0.blocks[0], rt, pg, place, r0.o, id, w);
    s := s.(alloc := true);
    FlagHere(w, w', pg, r0, s, id);
    r := SetBlock(r0, s);
    via := ViaMirror(s.b.ptr, s.wr);
    MirrorHanded(w, w', pg, r0.o, s, id, rt, wr, size);
    assert WorldOk(w') by { GentleKeepsWorld(w, w', r0.o, id); }
  }

  method WriteThroughTemp(r0: RoAllocator, rt: nat, size: nat, align: nat, pg: nat, place: nat, id: nat, ghost w: World)
    returns (r: RoAllocator, wr: nat, ghost w': World, ghost via: Via)
    requires Request(size, align, pg) && WorldOk(w) && RoOk(w, pg, r0) && !r0.dual && !r0.blocks[0].IsNull()
    requires Plays(w, rt, rt + size, Taken(r0.o, id))
    requires NoneFits(r0.temp, size, align) ==> Vacant(w, pg, place, BlockSize(size, pg))
    ensures AllocDone(w, w', pg, r0, r, id, rt, wr, size, via) && via.ViaTemp? && |r.blocks| == BlockCount
    ensures r == r0.(blocks := r0.blocks[0 := r0.blocks[0].(alloc := true)], temp := r.temp)
    ensures FirstFit(r0.temp, r.temp, size, align, pg, place, wr)
  {
    MarkAlloc(w, pg, r0, id);
    r := SetBlock(r0, r0.blocks[0].(alloc := true));
    assert TempsOk(w, pg, r.o, r.temp) && TempsOwned(w, r.o, r.temp);
    hide RoOk, Gentle, WorldOk, IsPow2, Vacant, TempsOk, BlockSize, NoneFits, NoneTaken, FirstFit, TempsOwned;
    var temp: seq<Block>;
    ghost var base: nat;
    temp, wr, w', base := TempAlloc(r.temp, size, align, pg, place, r.o, id, w);
    TempHere(w, w', pg, r, temp, id);
    r := r.(temp := temp);
    via := ViaTemp(base);
    StillTaken(w, w', r0.o, id, rt, size);
    assert WorldOk(w') by { GentleKeepsWorld(w, w', r0.o, id); }
  }

  lemma GentleKeepsWorld(w: World, w': World, o: Owner, id: nat)
    requires Gentle(w, w', o, id)
    ensures WorldOk(w')
  {
  }

  /**
  ROAllocator::alloc.  The search stops at the first unused block, and the block to replace is
  chosen among those it has seen, so only the first block is ever in use.
   */
  method RoAlloc(r0: RoAllocator, size: nat, align: nat, pg: nat, place: nat, id: nat, ghost w: World)
    returns (r: RoAllocator, rt: nat, wr: nat, ghost w': World, ghost via: Via)
    requires Request(size, align, pg) && WorldOk(w) && RoOk(w, pg, r0) && PlaceOk(w, pg, r0, size, align, place)
    requires WriteAssert(r0, size, align)
    ensures AllocDone(w, w', pg, r0, r, id, rt, wr, size, via) && rt % align == 0
    ensures NeedsBlock(r0, size, align) ==>
              && size <= BlockSize(size, pg) && r == WithNewBlock(r0, place, BlockSize(size, pg), size)
              && rt == place && via == Direct
              && (!r0.blocks[0].HasState() && !r0.blocks[0].IsNull() ==> GivenBack(w', pg, r0.blocks[0].b))
    ensures !NeedsBlock(r0, size, align) ==> Reused(r0, r, size, align, rt, via)
  {
    assert |r0.blocks| == BlockCount && forall i :: 1 <= i < BlockCount ==> r0.blocks[i] == NullSplit;
    hide RoOk, IsPow2, BlockAlloc, Vacant, BlockSize, WorldOk, Gentle, AllocDone, WriteAssert, Reused, GivenBack;
    var minSize: nat, minId: nat := Word - 1, 0;
    var i: nat := 0;
    while i < BlockCount && !r0.blocks[i].IsNull()
      invariant i <= 1 && minId == 0
      invariant i == 1 ==> BlockAlloc(r0.blocks[0].b, size, align).NoRoom?
      decreases BlockCount - i
    {
      if BlockAlloc(r0.blocks[i].b, size, align).Room? {
        r, rt, wr, w', via := AllocHere(r0, size, align, pg, place, id, w);
        return;
      }
      if r0.blocks[i].b.avail < minSize {
        minSize, minId := r0.blocks[i].b.avail, i;
      }
      i := i + 1;
    }
    assert r0.blocks[minId].IsNull() || BlockAlloc(r0.blocks[0].b, size, align).NoRoom?;
    r, w' := AllocNew(r0, size, align, pg, place, id, w);
    rt, wr, via := place, place, Direct;
  }

  method AllocNew(r0: RoAllocator, size: nat, align: nat, pg: nat, place: nat, id: nat, ghost w: World)
    returns (r: RoAllocator, ghost w': World)
    requires Request(size, align, pg) && WorldOk(w) && RoOk(w, pg, r0) && Vacant(w, pg, place, BlockSize(size, pg))
    ensures AllocDone(w, w', pg, r0, r, id, place, place, size, Direct) && place % align == 0
    ensures |r0.blocks| == BlockCount && size <= BlockSize(size, pg)
    ensures r == WithNewBlock(r0, place, BlockSize(size, pg), size)
    ensures !r0.blocks[0].HasState() && !r0.blocks[0].IsNull() ==> GivenBack(w', pg, r0.blocks[0].b)
  {
    hide RoOk, IsPow2, BlockAlloc, BlockSize, Vacant, WorldOk, Gentle, ReplaceWorld, AllocDone;
    var n := BlockSize(size, pg);
    NewBlockBump(w, pg, r0, size, align, place, id);
    var s := NewSplit(place, n);
    r := Replace(r0, s);
    ghost var w1 := ReplaceWorld(w, pg, r0, place, n);
    var bump := BlockAlloc(s.b, size, align);
    TakeHere(w1, pg, r, bump.b, bump.p, size, id);
    w' := Assign(w1, place, place + size, Taken(r0.o, id));
    r := SetBlock(r, s.(b := bump.b));
    GentleTrans(w, w1, w', r0.o, id);
    GentleKeepsWorld(w, w', r0.o, id);
    AllocDoneDirect(w, w', pg, r0, r, id, place, size);
    assert r.blocks == r0.blocks[0 := s.(b := bump.b)];
  }

  lemma NewBlockBump(w: World, pg: nat, r: RoAllocator, size: nat, align: nat, place: nat, id: nat)
    requires Request(size, align, pg) && WorldOk(w) && RoOk(w, pg, r) && Vacant(w, pg, place, BlockSize(size, pg))
    ensures |r.blocks| == BlockCount && r.blocks[0].b.FreeLo() >= 0 && place % align == 0 && place > 0
    ensures var n := BlockSize(size, pg);
      var w1 := ReplaceWorld(w, pg, r, place, n);
      && n >= size && BlockAlloc(Block(place, n, n), size, align) == Room(place, Block(place, n, n - size))
      && IsBump(Block(place, n, n), Block(place, n, n - size), place, size, pg)
      && RoOk(w1, pg, Replace(r, NewSplit(place, n))) && WorldOk(w1) && Gentle(w, w1, r.o, id)
      && (!r.blocks[0].HasState() && !r.blocks[0].IsNull() ==> GivenBack(w1, pg, r.blocks[0].b))
  {
    var n := BlockSize(size, pg);
    assert place % pg == 0 && place + n < Word && |r.blocks| == BlockCount && place > 0;
    BlockSizeSpec(size, pg);
    FreshBump(place, size, align, pg);
    PowersDivide(align, pg, place);
    hide RoOk, IsPow2, BlockAlloc, BlockSize, Vacant, WorldOk, Gentle, ReplaceWorld;
    ReplaceOk(w, pg, r, place, n, id);
    GentleKeepsWorld(w, ReplaceWorld(w, pg, r, place, n), r.o, id);
  }

  lemma MarkAlloc(w: World, pg: nat, r: RoAllocator, id: nat)
    requires pg >= 1 && WorldOk(w) && RoOk(w, pg, r) && !r.dual && !r.blocks[0].IsNull()
    ensures RoOk(w, pg, SetBlock(r, r.blocks[0].(alloc := true)))
  {
    CurrentBlock(w, pg, r);
    NothingChanged(w, r.o, r.blocks[0], id);
    FlagHere(w, w, pg, r, r.blocks[0].(alloc := true), id);
  }

  lemma StillTaken(w: World, w': World, o: Owner, id: nat, rt: nat, size: nat)
    requires Gentle(w, w', o, id) && Plays(w, rt, rt + size, Taken(o, id))
    ensures Plays(w', rt, rt + size, Taken(o, id))
  {
    forall a: nat | rt <= a < rt + size
      ensures w'.role(a) == Taken(o, id)
    {
      assert GentleAt(w, w', o, id, a);
    }
  }

  lemma MirrorHanded(w: World, w': World, pg: nat, o: Owner, s: Split, id: nat, rt: nat, wr: nat, size: nat)
    requires pg >= 1 && Gentle(w, w', o, id) && Plays(w, rt, rt + size, Taken(o, id)) && SplitOk(w', pg, o, true, s)
    requires s.wrInit && s.wrReady
    requires wr - s.wr == rt - s.b.ptr && s.b.ptr <= rt && rt + size <= s.b.End()
    ensures Handed(w', o, id, rt, wr, size, ViaMirror(s.b.ptr, s.wr))
  {
    StillTaken(w, w', o, id, rt, size);
    assert MirrorOk(w', o, s);
  }
}
