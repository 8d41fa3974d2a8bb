/**
The end of a batch (src/cgmemmgr.cpp): finalize of DualMapAllocator and SelfMemAllocator gives
every block used since the last time its final mode, takes write access away from the second
maps, and frees the completed blocks' unused pages and the temporary buffers.
 */
module JitFinalize {
  import opened JitMemory
  import opened JitBlocks
  import opened JitAllocators
  import opened JitRo

  /** What a finalizing step of allocator `o` may do at one address. */
  ghost predicate SettlesAt(w: World, w': World, o: Owner, a: nat) {
    && (w.role(a) != Nobody && w.role(a).o != o ==> SameAt(w, w', a))
    && (w'.role(a) != Nobody && w'.role(a).o != o ==> w'.role(a) == w.role(a))
    && (w.os(a) == Unmapped ==> w'.os(a) == Unmapped)
    && (w.role(a).Taken? <==> w'.role(a).Taken?)
    && (w.role(a).Taken? ==> w'.role(a) == w.role(a) && (w'.os(a) == w.os(a) || w'.os(a) == Final(o)))
  }

  ghost predicate Settles(w: World, w': World, o: Owner) {
    WorldOk(w') && forall a: nat :: SettlesAt(w, w', o, a)
  }

  lemma SettlesTrans(w: World, w1: World, w2: World, o: Owner)
    requires Settles(w, w1, o) && Settles(w1, w2, o)
    ensures Settles(w, w2, o)
  {
    forall a: nat
      ensures SettlesAt(w, w2, o, a)
    {
      assert SettlesAt(w, w1, o, a) && SettlesAt(w1, w2, o, a);
    }
  }

  /** Temporary buffers are not touched. */
  ghost predicate KeepsTemp(w: World, w': World, o: Owner) {
    forall a: nat :: IsTemp(w, o, a) ==> SameAt(w, w', a)
  }

  // ---------------------------------------------------------------------------
  // One block.
  // ---------------------------------------------------------------------------

  /** finalize_block of both allocators; the assertions of the source hold by `FlagsOk`. */
  function FinalizeBlock(dual: bool, s: Split, reset: bool): Split
    requires FlagsOk(dual, s)
  {
    if !s.alloc then s
    else if s.init then
      assert !(s.wrReady || s.wrInit);
      s.(init := false, alloc := false, wrInit := false, wrReady := false)
    else if dual then
      assert s.wrInit && s.wrReady;
      if reset then s else s.(init := false, alloc := false, wrInit := true, wrReady := false)
    else s
  }

  ghost function FinalizeWorld(w: World, o: Owner, dual: bool, s: Split, reset: bool): World {
    if !s.alloc then
      if dual && s.wrInit && reset then Unmap(w, s.wr, s.wr + s.b.total) else w
    else if s.init then Protect(w, s.b.ptr, s.b.End(), Final(o))
    else if dual then
      if reset then Unmap(w, s.wr, s.wr + s.b.total) else Protect(w, s.wr, s.wr + s.b.total, NoAccess)
    else w
  }

  lemma MirrorPlays(w: World, pg: nat, o: Owner, dual: bool, s: Split)
    requires pg >= 1 && SplitOk(w, pg, o, dual, s) && s.wrInit
    ensures forall a: nat :: s.wr <= a < s.wr + s.b.total ==> w.role(a) == Mirror(o, s.b.ptr, s.wr)
  {
  }

  lemma FinalizeSettles(w: World, pg: nat, o: Owner, dual: bool, s: Split, reset: bool)
    requires pg >= 1 && WorldOk(w) && SplitOk(w, pg, o, dual, s)
    ensures var w' := FinalizeWorld(w, o, dual, s, reset);
      && Settles(w, w', o) && KeepsTemp(w, w', o) && ChangesOnly(w, w', o, s)
      && Carved(w', pg, o, s.b) && Has(w', s.b.ptr, s.b.End(), Final(o))
  {
    hide SplitOk, Carved, Has, Settles, KeepsTemp, ChangesOnly, WorldOk, InBlock;
    FinalizeMode(w, pg, o, dual, s, reset);
    SplitFacts(w, pg, o, dual, s);
    if s.wrInit {
      MirrorPlays(w, pg, o, dual, s);
      MirrorSettles(w, o, s);
    }
    SealSettles(w, o, s);
    NothingSettles(w, o, s);
  }

  lemma SplitFacts(w: World, pg: nat, o: Owner, dual: bool, s: Split)
    requires pg >= 1 && SplitOk(w, pg, o, dual, s)
    ensures InBlock(w, o, s.b) && FlagsOk(dual, s)
  {
  }

  lemma NothingSettles(w: World, o: Owner, s: Split)
    requires WorldOk(w)
    ensures Settles(w, w, o) && KeepsTemp(w, w, o) && ChangesOnly(w, w, o, s)
  {
  }

  lemma SettlesSelf(w: World, o: Owner)
    requires WorldOk(w)
    ensures Settles(w, w, o)
  {
  }

  /** Taking the second map away, or access to it. */
  lemma MirrorSettles(w: World, o: Owner, s: Split)
    requires WorldOk(w) && s.wrInit && forall a: nat :: s.wr <= a < s.wr + s.b.total ==>
               w.role(a) == Mirror(o, s.b.ptr, s.wr)
    ensures forall w' | w' == Unmap(w, s.wr, s.wr + s.b.total) || w' == Protect(w, s.wr, s.wr + s.b.total, NoAccess) ::
              Settles(w, w', o) && KeepsTemp(w, w', o) && ChangesOnly(w, w', o, s)
  {
  }

  /** Giving the block its final mode. */
  lemma SealSettles(w: World, o: Owner, s: Split)
    requires WorldOk(w) && InBlock(w, o, s.b)
    ensures var w' := Protect(w, s.b.ptr, s.b.End(), Final(o));
      Settles(w, w', o) && KeepsTemp(w, w', o) && ChangesOnly(w, w', o, s)
  {
    assert Final(o) != Unmapped;
  }

  /** The block itself gets its final mode and is otherwise left alone. */
  lemma FinalizeMode(w: World, pg: nat, o: Owner, dual: bool, s: Split, reset: bool)
    requires pg >= 1 && SplitOk(w, pg, o, dual, s)
    ensures var w' := FinalizeWorld(w, o, dual, s, reset);
      && Carved(w', pg, o, s.b) && Has(w', s.b.ptr, s.b.End(), Final(o))
      && forall a: nat :: s.b.ptr <= a < s.b.End() ==>
           w'.role(a) == w.role(a) && (w'.os(a) == w.os(a) || w'.os(a) == Final(o))
  {
    if s.wrInit {
      MirrorPlays(w, pg, o, dual, s);
    }
    assert InBlock(w, o, s.b);
    var w' := FinalizeWorld(w, o, dual, s, reset);
    forall a: nat | s.b.ptr <= a < s.b.End()
      ensures w'.role(a) == w.role(a) && (w'.os(a) == w.os(a) || w'.os(a) == Final(o))
    {
    }
  }

  /** A block that stays in use keeps its second map, without access. */
  lemma FinalizeKeepsBlock(w: World, pg: nat, o: Owner, dual: bool, s: Split)
    requires pg >= 1 && WorldOk(w) && SplitOk(w, pg, o, dual, s)
    ensures SplitOk(FinalizeWorld(w, o, dual, s, false), pg, o, dual, FinalizeBlock(dual, s, false))
    ensures !FinalizeBlock(dual, s, false).init
  {
    FinalizeSettles(w, pg, o, dual, s, false);
    if s.wrInit {
      MirrorPlays(w, pg, o, dual, s);
    }
    hide Carved, Settles, ChangesOnly, KeepsTemp;
  }

  // ---------------------------------------------------------------------------
  // The whole allocator.
  // ---------------------------------------------------------------------------

  /** Handed-out memory stays sealed when the block at `k` has got its final mode. */
  lemma SealedSettle(w: World, w': World, o: Owner, live: seq<Split>, live': seq<Split>, k: nat)
    requires Sealed(w, o, live) && Settles(w, w', o) && k < |live|
    requires forall a: nat :: live[k].b.ptr <= a < live[k].b.End() && w'.role(a).Taken? ==> w'.os(a) == Final(o)
    requires forall i :: 0 <= i < |live| && i != k ==> live[i] in live'
    ensures Sealed(w', o, live')
  {
    hide WorldOk;
    forall a: nat | w'.role(a).Taken? && w'.role(a).o == o
      ensures w'.os(a) == Final(o) || InFirstBatch(live', a)
    {
      assert SettlesAt(w, w', o, a);
      if w'.os(a) != Final(o) {
        assert InFirstBatch(live, a);
        var i :| 0 <= i < |live| && live[i].init && live[i].b.ptr <= a < live[i].b.End();
        var j :| 0 <= j < |live'| && live'[j] == live[i];
      }
    }
  }

  lemma FinalizeCurrent(w: World, pg: nat, r: RoAllocator)
    requires pg >= 1 && WorldOk(w) && RoOk(w, pg, r) && !r.blocks[0].IsNull()
    ensures var s := r.blocks[0];
      && FlagsOk(r.dual, s)
      && var w' := FinalizeWorld(w, r.o, r.dual, s, false);
         RoOk(w', pg, SetBlock(r, FinalizeBlock(r.dual, s, false))) && Settles(w, w', r.o)
  {
    var s, live := r.blocks[0], Live(r);
    CurrentBlock(w, pg, r);
    var s', w' := FinalizeBlock(r.dual, s, false), FinalizeWorld(w, r.o, r.dual, s, false);
    var r' := SetBlock(r, s');
    assert live[0] == s && Live(r') == live[0 := s'];
    FinalizeSettles(w, pg, r.o, r.dual, s, false);
    FinalizeKeepsBlock(w, pg, r.o, r.dual, s);
    hide FinalizeWorld, SplitOk;
    LiveUpdate(w, w', pg, r.o, r.dual, live, 0, s');
    TempsFrame(w, w', pg, r.o, r.temp);
    assert forall i :: 0 <= i < |live| && i != 0 ==> live[0 := s'][i] == live[i];
    SealedSettle(w, w', r.o, live, live[0 := s'], 0);
    MirrorsUpdate(live, 0, s');
    assert NoneMarked(w, w', r.o) by { FinalizeMarksNothing(w, r.o, r.dual, s); }
    OwnedStep(w, w', r.o, live, live[0 := s'], r.temp);
    hide LiveOk, Sealed, TempsOk, Settles, WorldOk, ChangesOnly, KeepsTemp, MirrorsOwned, TempsOwned;
  }

  lemma FinalizeMarksNothing(w: World, o: Owner, dual: bool, s: Split)
    ensures NoneMarked(w, FinalizeWorld(w, o, dual, s, false), o)
  {
  }

  /** The world after a completed block has been finalized and its free pages given back. */
  ghost function RetireWorld(w: World, pg: nat, o: Owner, dual: bool, s: Split): World
    requires 1 <= pg <= Word && s.b.FreeLo() >= 0
  {
    Reset(FinalizeWorld(w, o, dual, s, true), pg, s.b)
  }

  lemma RetireSettles(w: World, pg: nat, o: Owner, dual: bool, s: Split)
    requires IsPow2(pg) && pg >= 1 && WorldOk(w) && SplitOk(w, pg, o, dual, s)
    ensures pg <= Word && s.b.FreeLo() >= 0
    ensures var w' := RetireWorld(w, pg, o, dual, s);
      && Settles(w, w', o) && KeepsTemp(w, w', o) && ChangesOnly(w, w', o, s)
      && (forall a: nat :: s.b.ptr <= a < s.b.End() && w'.role(a).Taken? ==> w'.os(a) == Final(o))
      && NoneMarked(w, w', o) && GivenBack(w', pg, s.b)
      && (s.wrInit ==> Plays(w', s.wr, s.wr + s.b.total, Nobody))
  {
    var w1 := FinalizeWorld(w, o, dual, s, true);
    RetireUnmaps(w, pg, o, dual, s);
    FinalizeSettles(w, pg, o, dual, s, true);
    assert BlockOk(s.b, pg);
    ResetSpec(w1, pg, o, s.b);
    var w' := Reset(w1, pg, s.b);
    assert InBlock(w, o, s.b);
    assert NoneMarked(w1, w', o) by { ResetMarksNothing(w1, pg, o, s.b); }
    MarkedTrans(w, w1, w', o);
    hide FinalizeWorld, Reset, Carved, IsPow2, SplitOk, GivenBack, NoneMarked;
    assert Settles(w1, w', o);
    SettlesTrans(w, w1, w', o);
    RetireTouches(w, w1, w', o, s);
  }

  /** A block that is not used any more loses its second map. */
  lemma RetireUnmaps(w: World, pg: nat, o: Owner, dual: bool, s: Split)
    requires pg >= 1 && SplitOk(w, pg, o, dual, s)
    ensures var w1 := FinalizeWorld(w, o, dual, s, true);
      NoneMarked(w, w1, o) && (s.wrInit ==> Plays(w1, s.wr, s.wr + s.b.total, Nobody))
  {
    assert FlagsOk(dual, s);
    hide SplitOk;
  }

  lemma RetireTouches(w: World, w1: World, w': World, o: Owner, s: Split)
    requires KeepsTemp(w, w1, o) && ChangesOnly(w, w1, o, s) && InBlock(w, o, s.b) && InBlock(w1, o, s.b)
    requires forall a: nat ::
               || SameAt(w1, w', a)
               || (s.b.ptr <= a < s.b.End() && w1.role(a) == Spare(o, s.b.ptr) && w'.role(a) == Nobody)
    ensures KeepsTemp(w, w', o) && ChangesOnly(w, w', o, s)
  {
    forall a: nat | IsTemp(w, o, a)
      ensures SameAt(w, w', a)
    {
      assert SameAt(w, w1, a);
      assert SameAt(w1, w', a) || (s.b.ptr <= a < s.b.End() && w1.role(a) == Spare(o, s.b.ptr));
    }
    forall a: nat
      ensures
        || (w'.role(a) == w.role(a) && w'.os(a) == w.os(a))
        || s.b.ptr <= a < s.b.End()
        || (s.wrInit && w.role(a) == Mirror(o, s.b.ptr, s.wr))
        || w.os(a) == Unmapped
        || ((w.role(a).TempSpare? || w.role(a).Scratch?) && w.role(a).o == o)
    {
      assert SameAt(w1, w', a) || s.b.ptr <= a < s.b.End();
    }
  }

  lemma RetireFirst(w: World, pg: nat, r: RoAllocator)
    requires IsPow2(pg) && pg >= 1 && WorldOk(w) && RoOk(w, pg, r) && |r.completed| > 0
    ensures var s := r.completed[0];
      && pg <= Word && s.b.FreeLo() >= 0 && FlagsOk(r.dual, s)
      && var w' := RetireWorld(w, pg, r.o, r.dual, s);
         && RoOk(w', pg, r.(completed := r.completed[1..])) && Settles(w, w', r.o)
         && RetiredBlock(w', pg, s)
  {
    var s, live := r.completed[0], Live(r);
    var k := CompletedInLive(r);
    var r' := r.(completed := r.completed[1..]);
    assert SplitOk(w, pg, r.o, r.dual, live[k]);
    RetireSettles(w, pg, r.o, r.dual, s);
    var w' := RetireWorld(w, pg, r.o, r.dual, s);
    assert s.wrInit ==> Has(w', s.wr, s.wr + s.b.total, Unmapped) by { SettlesWorld(w, w', r.o); }
    RetireOwned(w, w', pg, r.o, r.dual, live, k, r.temp);
    hide RetireWorld, SplitOk, IsPow2, LiveOk, Sealed, TempsOk, Settles, WorldOk, ChangesOnly, KeepsTemp, Live;
    hide GivenBack, MirrorsOwned, TempsOwned, NoneMarked, Plays, Has;
    LiveRemove(w, w', pg, r.o, r.dual, live, k);
    assert TempsOk(w', pg, r.o, r.temp) by { TempsKept(w, w', pg, r.o, r.temp); }
    SealedSettle(w, w', r.o, live, Live(r'), k);
  }

  /** With the second map of block `k` gone, all the others still have their block. */
  lemma RetireOwned(w: World, w': World, pg: nat, o: Owner, dual: bool, live: seq<Split>, k: nat, temp: seq<Block>)
    requires pg >= 1 && LiveOk(w, pg, o, dual, live) && k < |live| && NoneMarked(w, w', o)
    requires MirrorsOwned(w, o, live) && TempsOwned(w, o, temp)
    requires live[k].wrInit ==> Plays(w', live[k].wr, live[k].wr + live[k].b.total, Nobody)
    ensures MirrorsOwned(w', o, live[..k] + live[k + 1..]) && TempsOwned(w', o, temp)
  {
    var live' := live[..k] + live[k + 1..];
    hide LiveOk;
    forall a: nat | w'.role(a).Mirror? && w'.role(a).o == o
      ensures InMirror(live', o, w'.role(a), a)
    {
      var i :| 0 <= i < |live| && OfMirror(live[i], o, w.role(a), a);
      assert i != k;
      assert live'[if i < k then i else i - 1] == live[i];
    }
    forall a: nat | IsTemp(w', o, a)
      ensures InTemp(temp, w'.role(a).base, a)
    {
      assert IsTemp(w, o, a);
    }
  }

  lemma TempsKept(w: World, w': World, pg: nat, o: Owner, temp: seq<Block>)
    requires pg >= 1 && TempsOk(w, pg, o, temp) && KeepsTemp(w, w', o)
    ensures TempsOk(w', pg, o, temp)
  {
    TempsFrame(w, w', pg, o, temp);
  }

  /** The first completed block, among the live ones. */
  lemma CompletedInLive(r: RoAllocator) returns (k: nat)
    requires |r.blocks| == BlockCount && |r.completed| > 0
    ensures var live, live' := Live(r), Live(r.(completed := r.completed[1..]));
      && k < |live| && live[k] == r.completed[0] && live' == live[..k] + live[k + 1..]
      && forall i :: 0 <= i < |live| && i != k ==> live[i] in live'
  {
    var live, live' := Live(r), Live(r.(completed := r.completed[1..]));
    k := if r.blocks[0].IsNull() then 0 else 1;
    forall i | 0 <= i < |live| && i != k
      ensures live[i] in live'
    {
      assert live[i] == live'[if i < k then i else i - 1];
    }
  }

  // ---------------------------------------------------------------------------
  // Temporary buffers.
  // ---------------------------------------------------------------------------

  /** Only temporary buffers change. */
  ghost predicate TempOnly(w: World, w': World, o: Owner) {
    forall a: nat :: SameAt(w, w', a) || IsTemp(w, o, a)
  }

  lemma TempOnlyOk(w: World, w': World, pg: nat, r: RoAllocator, temp: seq<Block>)
    requires pg >= 1 && WorldOk(w) && WorldOk(w') && RoOk(w, pg, r) && !r.dual && TempsOk(w', pg, r.o, temp)
    requires TempOnly(w, w', r.o)
    requires forall a: nat :: IsTemp(w, r.o, a) ==> w'.role(a) == Nobody || IsTemp(w', r.o, a)
    requires TempsOwned(w', r.o, temp)
    ensures RoOk(w', pg, r.(temp := temp)) && Settles(w, w', r.o)
  {
    LiveFrame(w, w', pg, r.o, r.dual, Live(r));
    TempMirrors(w, w', r.o, Live(r));
    assert Live(r.(temp := temp)) == Live(r);
    forall a: nat
      ensures SettlesAt(w, w', r.o, a)
    {
      assert SameAt(w, w', a) || IsTemp(w, r.o, a);
    }
    hide LiveOk, TempsOk, WorldOk, InFirstBatch, MirrorsOwned, TempsOwned;
    forall a: nat | w'.role(a).Taken? && w'.role(a).o == r.o
      ensures w'.os(a) == Final(r.o) || InFirstBatch(Live(r), a)
    {
      assert SameAt(w, w', a) || IsTemp(w, r.o, a);
    }
  }

  /** The first buffer is kept, empty. */
  lemma TempKeep(w: World, pg: nat, o: Owner, temp: seq<Block>)
    requires pg >= 1 && WorldOk(w) && TempsOk(w, pg, o, temp) && |temp| > 0
    ensures var t := temp[0];
      var w' := Assign(w, t.ptr, t.End(), TempSpare(o, t.ptr));
      && WorldOk(w') && TempOnly(w, w', o) && (forall a: nat :: IsTemp(w, o, a) ==> IsTemp(w', o, a))
      && TempsOk(w', pg, o, temp[0 := t.(avail := t.total)])
      && (TempsOwned(w, o, temp) ==> TempsOwned(w', o, temp[0 := t.(avail := t.total)]))
  {
    var t := temp[0];
    var w' := Assign(w, t.ptr, t.End(), TempSpare(o, t.ptr));
    assert TempOk(w, pg, o, t);
    var temp' := temp[0 := t.(avail := t.total)];
    forall i | 0 <= i < |temp|
      ensures TempOk(w', pg, o, temp'[i])
    {
      assert TempOk(w, pg, o, temp[i]);
      if i != 0 {
        assert temp[0].ptr != temp[i].ptr;
        forall a: nat | temp[i].ptr <= a < temp[i].End()
          ensures w'.role(a) == w.role(a)
        {
        }
      }
    }
    if TempsOwned(w, o, temp) {
      TempKeepOwned(w, o, temp);
    }
  }

  lemma TempKeepOwned(w: World, o: Owner, temp: seq<Block>)
    requires TempsOwned(w, o, temp) && |temp| > 0
    ensures var t := temp[0];
      TempsOwned(Assign(w, t.ptr, t.End(), TempSpare(o, t.ptr)), o, temp[0 := t.(avail := t.total)])
  {
    var t := temp[0];
    var w', temp' := Assign(w, t.ptr, t.End(), TempSpare(o, t.ptr)), temp[0 := t.(avail := t.total)];
    forall a: nat | IsTemp(w', o, a)
      ensures InTemp(temp', w'.role(a).base, a)
    {
      if t.ptr <= a < t.End() {
        assert temp'[0].ptr == w'.role(a).base;
      } else {
        assert IsTemp(w, o, a);
        var i :| 0 <= i < |temp| && temp[i].ptr == w.role(a).base && temp[i].ptr <= a < temp[i].End();
        assert temp'[i].ptr == temp[i].ptr;
      }
    }
  }

  lemma TempDropOwned(w: World, o: Owner, temp: seq<Block>)
    requires TempsOwned(w, o, temp) && |temp| > 1
    ensures TempsOwned(Unmap(w, temp[1].ptr, temp[1].End()), o, [temp[0]] + temp[2..])
  {
    var w', temp' := Unmap(w, temp[1].ptr, temp[1].End()), [temp[0]] + temp[2..];
    forall a: nat | IsTemp(w', o, a)
      ensures InTemp(temp', w'.role(a).base, a)
    {
      assert IsTemp(w, o, a);
      var i :| 0 <= i < |temp| && temp[i].ptr == w.role(a).base && temp[i].ptr <= a < temp[i].End();
      assert temp'[if i == 0 then 0 else i - 1] == temp[i];
    }
  }

  /** Any other buffer is unmapped. */
  lemma TempDrop(w: World, pg: nat, o: Owner, temp: seq<Block>)
    requires pg >= 1 && WorldOk(w) && TempsOk(w, pg, o, temp) && |temp| > 1
    ensures var t := temp[1];
      var w' := Unmap(w, t.ptr, t.End());
      && WorldOk(w') && TempOnly(w, w', o) && (forall a: nat :: IsTemp(w, o, a) ==>
           w'.role(a) == Nobody || IsTemp(w', o, a))
      && TempsOk(w', pg, o, [temp[0]] + temp[2..])
  {
    var t := temp[1];
    var w' := Unmap(w, t.ptr, t.End());
    assert TempOk(w, pg, o, t);
    forall i | 0 <= i < |temp| && i != 1
      ensures TempOk(w', pg, o, temp[i])
    {
      assert TempOk(w, pg, o, temp[i]);
      assert temp[1].ptr != temp[i].ptr by { assert i < 1 || 1 < i; }
      forall a: nat | temp[i].ptr <= a < temp[i].End()
        ensures w'.role(a) == w.role(a) && w'.os(a) == w.os(a)
      {
      }
    }
    var temp' := [temp[0]] + temp[2..];
    assert temp'[0] == temp[0] && forall i :: 1 <= i < |temp'| ==> temp'[i] == temp[i + 1];
    hide TempOk;
  }

  lemma KeepFirst(w: World, pg: nat, r: RoAllocator)
    requires pg >= 1 && WorldOk(w) && RoOk(w, pg, r) && !r.dual && |r.temp| > 0
    ensures var t := r.temp[0];
      var w' := Assign(w, t.ptr, t.End(), TempSpare(r.o, t.ptr));
      WorldOk(w') && RoOk(w', pg, r.(temp := r.temp[0 := t.(avail := t.total)])) && Settles(w, w', r.o)
  {
    assert TempsOk(w, pg, r.o, r.temp) && TempsOwned(w, r.o, r.temp);
    hide RoOk, Settles, TempsOk, TempsOwned, WorldOk, TempOnly;
    var t := r.temp[0];
    TempKeep(w, pg, r.o, r.temp);
    TempOnlyOk(w, Assign(w, t.ptr, t.End(), TempSpare(r.o, t.ptr)), pg, r, r.temp[0 := t.(avail := t.total)]);
  }

  lemma DropSecond(w: World, pg: nat, r: RoAllocator)
    requires pg >= 1 && WorldOk(w) && RoOk(w, pg, r) && !r.dual && |r.temp| > 1
    ensures var w' := Unmap(w, r.temp[1].ptr, r.temp[1].End());
      WorldOk(w') && RoOk(w', pg, r.(temp := [r.temp[0]] + r.temp[2..])) && Settles(w, w', r.o)
  {
    assert TempsOk(w, pg, r.o, r.temp) && TempsOwned(w, r.o, r.temp);
    hide RoOk, Settles, TempsOk, TempsOwned, WorldOk, TempOnly;
    TempDrop(w, pg, r.o, r.temp);
    TempDropOwned(w, r.o, r.temp);
    TempOnlyOk(w, Unmap(w, r.temp[1].ptr, r.temp[1].End()), pg, r, [r.temp[0]] + r.temp[2..]);
  }

  method FinalizeTemp(r0: RoAllocator, pg: nat, ghost w: World) returns (r: RoAllocator, ghost w': World)
    requires pg >= 1 && WorldOk(w) && RoOk(w, pg, r0) && !r0.dual
    ensures WorldOk(w') && RoOk(w', pg, r) && Settles(w, w', r0.o)
    ensures r == r0.(temp := if r0.temp == [] then [] else [r0.temp[0].(avail := r0.temp[0].total)])
  {
    r, w' := r0, w;
    SettlesSelf(w, r0.o);
    KeptEnds(r0.temp);
    hide RoOk, Settles, WorldOk, Assign, Unmap, Kept;
    var cached := false;
    var i := 0;
    while i < |r0.temp|
      invariant 0 <= i <= |r0.temp| && cached == (i > 0) && r == r0.(temp := Kept(r0.temp, i))
      invariant WorldOk(w') && RoOk(w', pg, r) && Settles(w, w', r0.o)
    {
      ghost var w1 := w';
      KeptStep(r0.temp, i);
      if cached {
        DropSecond(w', pg, r);
        w' := Unmap(w', r0.temp[i].ptr, r0.temp[i].End());
        r := r.(temp := [r.temp[0]] + r.temp[2..]);
      } else {
        KeepFirst(w', pg, r);
        var t := r.temp[0];
        w' := Assign(w', t.ptr, t.End(), TempSpare(r.o, t.ptr));
        r := r.(temp := r.temp[0 := t.(avail := t.total)]);
        cached := true;
      }
      SettlesTrans(w, w1, w', r0.o);
      i := i + 1;
    }
  }

  /** The buffers after `i` of them have been dealt with. */
  function Kept(temp: seq<Block>, i: nat): seq<Block>
    requires i <= |temp|
  {
    if i == 0 then temp else [temp[0].(avail := temp[0].total)] + temp[i..]
  }

  lemma KeptStep(temp: seq<Block>, i: nat)
    requires i < |temp|
    ensures |Kept(temp, i)| > 0
    ensures i == 0 ==>
              Kept(temp, 1) == Kept(temp, i)[0 := temp[0].(avail := temp[0].total)] && Kept(temp, i)[0] == temp[0]
    ensures i > 0 ==> |Kept(temp, i)| > 1 && Kept(temp, i)[1] == temp[i]
    ensures i > 0 ==> Kept(temp, i + 1) == [Kept(temp, i)[0]] + Kept(temp, i)[2..]
  {
  }

  lemma KeptEnds(temp: seq<Block>)
    ensures Kept(temp, 0) == temp
    ensures Kept(temp, |temp|) == if temp == [] then [] else [temp[0].(avail := temp[0].total)]
  {
  }

  // ---------------------------------------------------------------------------
  // The operation.
  // ---------------------------------------------------------------------------

  /** All handed-out memory of `o` has its final mode. */
  ghost predicate AllFinal(w: World, o: Owner) {
    forall a: nat :: w.role(a).Taken? && w.role(a).o == o ==> w.os(a) == Final(o)
  }

  /** The block in use has been finalized, to be used further. */
  predicate FirstBlockDone(r0: RoAllocator, r: RoAllocator) {
    && |r.blocks| == |r0.blocks| == BlockCount && FlagsOk(r0.dual, r0.blocks[0])
    && r.blocks[0] == FinalizeBlock(r0.dual, r0.blocks[0], false)
  }

  method FinalizeBlocks(r0: RoAllocator, pg: nat, ghost w: World) returns (r: RoAllocator, ghost w': World)
    requires pg >= 1 && WorldOk(w) && RoOk(w, pg, r0)
    ensures WorldOk(w') && RoOk(w', pg, r) && Settles(w, w', r0.o)
    ensures r == r0.(blocks := r.blocks) && !r.blocks[0].init && FirstBlockDone(r0, r)
  {
    r, w' := r0, w;
    SettlesSelf(w, r0.o);
    for i := 0 to BlockCount
      invariant WorldOk(w') && RoOk(w', pg, r) && Settles(w, w', r0.o) && r == r0.(blocks := r.blocks)
      invariant i == 0 ==> r == r0
      invariant i > 0 ==> !r.blocks[0].init && FirstBlockDone(r0, r)
    {
      if r.blocks[i].IsNull() {
        assert r.blocks[i] == NullSplit;
        r := r.(blocks := r.blocks[i := FinalizeBlock(r.dual, r.blocks[i], false)]);
        assert r.blocks[i] == NullSplit;
        hide RoOk;
      } else {
        assert i == 0;
        CurrentBlock(w', pg, r);
        assert FlagsOk(r.dual, r.blocks[0]);
        hide RoOk, Settles, WorldOk, SplitOk, FinalizeWorld;
        FinalizeCurrent(w', pg, r);
        ghost var w1 := w';
        w' := FinalizeWorld(w', r.o, r.dual, r.blocks[0], false);
        r := r.(blocks := r.blocks[0 := FinalizeBlock(r.dual, r.blocks[0], false)]);
        SettlesTrans(w, w1, w', r0.o);
        assert WorldOk(w') by { SettlesWorld(w1, w', r0.o); }
      }
    }
  }

  lemma SettlesWorld(w: World, w': World, o: Owner)
    requires Settles(w, w', o)
    ensures WorldOk(w')
  {
  }

  /** finalize of either allocator: afterwards nothing that was handed out is writable in place. */
  method RoFinalize(r0: RoAllocator, pg: nat, ghost w: World) returns (r: RoAllocator, ghost w': World)
    requires IsPow2(pg) && pg >= 1 && WorldOk(w) && RoOk(w, pg, r0)
    ensures WorldOk(w') && RoOk(w', pg, r) && Settles(w, w', r0.o) && AllFinal(w', r0.o)
    ensures r.o == r0.o && r.dual == r0.dual && r.completed == [] && FirstBlockDone(r0, r)
    ensures r.temp == if r0.temp == [] then [] else [r0.temp[0].(avail := r0.temp[0].total)]
    ensures Tidy(w', r) && Retired(w', pg, r0.completed)
  {
    assert r0.dual ==> r0.temp == [];
    hide IsPow2, Settles, WorldOk;
    r, w' := FinalizeBlocks(r0, pg, w);
    var k := 0;
    while k < |r0.completed|
      invariant 0 <= k <= |r0.completed| && r == r0.(blocks := r.blocks, completed := r0.completed[k..])
      invariant WorldOk(w') && RoOk(w', pg, r) && Settles(w, w', r0.o)
      invariant !r.blocks[0].init && FirstBlockDone(r0, r) && Retired(w', pg, r0.completed[..k])
    {
      hide RoOk, RetireWorld, Settles, Retired, FirstBlockDone;
      RetireFirst(w', pg, r);
      ghost var w1 := w';
      w' := RetireWorld(w', pg, r.o, r.dual, r.completed[0]);
      RetiredMore(w1, w', pg, r0.completed, k, r0.o);
      SettlesTrans(w, w1, w', r0.o);
      assert WorldOk(w') by { SettlesWorld(w1, w', r0.o); }
      r := r.(completed := r.completed[1..]);
      k := k + 1;
    }
    if !r.dual {
      ghost var w1 := w';
      r, w' := FinalizeTemp(r, pg, w1);
      StaysRetired(w1, w', pg, r0.completed, r0.o);
      SettlesTrans(w, w1, w', r0.o);
    }
    NoFirstBatch(w', pg, r);
    FinalizedIsTidy(w', pg, r0, r);
  }

  /** No second map but that of the block in use, and no access to it; nothing in temporary buffers. */
  ghost predicate Tidy(w: World, r: RoAllocator)
    requires |r.blocks| == BlockCount
  {
    && (forall a: nat :: w.role(a).Mirror? && w.role(a).o == r.o ==>
          OfMirror(r.blocks[0], r.o, w.role(a), a) && w.os(a) == NoAccess)
    && (forall a: nat :: !(w.role(a).Scratch? && w.role(a).o == r.o))
  }

  lemma FinalizedIsTidy(w: World, pg: nat, r0: RoAllocator, r: RoAllocator)
    requires pg >= 1 && RoOk(w, pg, r) && r.completed == [] && FirstBlockDone(r0, r) && r.dual == r0.dual
    requires r.temp == if r0.temp == [] then [] else [r0.temp[0].(avail := r0.temp[0].total)]
    ensures Tidy(w, r)
  {
    var s := r.blocks[0];
    forall a: nat | w.role(a).Mirror? && w.role(a).o == r.o
      ensures OfMirror(s, r.o, w.role(a), a) && w.os(a) == NoAccess
    {
      assert InMirror(Live(r), r.o, w.role(a), a);
      assert OfMirror(s, r.o, w.role(a), a);
      CurrentBlock(w, pg, r);
      assert MirrorOk(w, r.o, s) && !s.wrReady;
    }
    forall a: nat
      ensures !(w.role(a).Scratch? && w.role(a).o == r.o)
    {
      if IsTemp(w, r.o, a) {
        assert InTemp(r.temp, w.role(a).base, a);
        assert TempOk(w, pg, r.o, r.temp[0]);
        assert w.role(a) == TempSpare(r.o, r.temp[0].ptr);
      }
    }
  }

  /** Completed blocks have lost their free pages and their second maps. */
  ghost predicate Retired(w: World, pg: nat, completed: seq<Split>)
    requires pg >= 1
  {
    forall i :: 0 <= i < |completed| ==> RetiredBlock(w, pg, completed[i])
  }

  ghost predicate RetiredBlock(w: World, pg: nat, s: Split)
    requires pg >= 1
  {
    GivenBack(w, pg, s.b) && (s.wrInit ==> Has(w, s.wr, s.wr + s.b.total, Unmapped))
  }

  lemma StaysRetired(w: World, w': World, pg: nat, completed: seq<Split>, o: Owner)
    requires pg >= 1 && Settles(w, w', o) && Retired(w, pg, completed)
    ensures Retired(w', pg, completed)
  {
    hide WorldOk;
    forall i | 0 <= i < |completed|
      ensures RetiredBlock(w', pg, completed[i])
    {
      var s := completed[i];
      assert RetiredBlock(w, pg, s);
      forall a: nat | w.os(a) == Unmapped
        ensures w'.os(a) == Unmapped
      {
        assert SettlesAt(w, w', o, a);
      }
    }
  }

  lemma RetiredMore(w: World, w': World, pg: nat, completed: seq<Split>, k: nat, o: Owner)
    requires pg >= 1 && k < |completed| && Settles(w, w', o) && Retired(w, pg, completed[..k])
    requires RetiredBlock(w', pg, completed[k])
    ensures Retired(w', pg, completed[..k + 1])
  {
    StaysRetired(w, w', pg, completed[..k], o);
    hide RetiredBlock, Settles;
    assert completed[..k + 1] == completed[..k] + [completed[k]];
  }

  lemma NoFirstBatch(w: World, pg: nat, r: RoAllocator)
    requires pg >= 1 && RoOk(w, pg, r) && !r.blocks[0].init && r.completed == []
    ensures AllFinal(w, r.o)
  {
    hide LiveOk, TempsOk;
    assert forall i :: 0 <= i < |Live(r)| ==> !Live(r)[i].init;
  }
}
