/**
The blocks of a read-only or code allocator (src/cgmemmgr.cpp): their state flags, what each
flag promises about the address space, and the steps that change one block.
 */
module JitBlocks {
  import opened JitMemory

  /** A block with its write address and its state flags. */
  datatype Split = Split(b: Block, wr: nat, init: bool, alloc: bool, wrInit: bool, wrReady: bool) {
    predicate HasState() { init || alloc || wrInit || wrReady }
    predicate IsNull() { b.ptr == 0 }
  }

  const NullSplit: Split := Split(Null, 0, false, false, false, false)

  /** The permission of finished memory. */
  function Final(o: Owner): Perm {
    match o
    case Data => ReadWrite
    case Const => ReadOnly
    case Code => ReadExec
  }

  /** An address of a block is spare or handed out. */
  ghost predicate InBlock(w: World, o: Owner, b: Block) {
    forall a: nat :: b.ptr <= a < b.End() ==> w.role(a) == Spare(o, b.ptr) || (w.role(a).Taken? && w.role(a).o == o)
  }

  /** Its free part is spare, and the whole is whole pages. */
  ghost predicate Carved(w: World, pg: nat, o: Owner, b: Block)
    requires pg >= 1
  {
    && b.ptr > 0 && IsBlockSize(b.total, pg) && BlockOk(b, pg) && InBlock(w, o, b)
    && Plays(w, b.FreeLo(), b.End(), Spare(o, b.ptr))
  }

  /** The second map of a block. */
  ghost predicate MirrorOk(w: World, o: Owner, s: Split) {
    && Plays(w, s.wr, s.wr + s.b.total, Mirror(o, s.b.ptr, s.wr))
    && Has(w, s.wr, s.wr + s.b.total, if s.wrReady then ReadWrite else NoAccess)
  }

  /** The flags agree with each other. */
  predicate FlagsOk(dual: bool, s: Split) {
    && (s.init ==> s.alloc && !s.wrInit && !s.wrReady)
    && (s.wrReady ==> s.wrInit)
    && (if dual then s.wrReady <==> s.alloc && !s.init else !s.wrInit)
  }

  /** A block that is still in its first batch is writable in place; any other has its final mode. */
  ghost predicate SplitOk(w: World, pg: nat, o: Owner, dual: bool, s: Split)
    requires pg >= 1
  {
    && Carved(w, pg, o, s.b) && FlagsOk(dual, s)
    && Has(w, s.b.ptr, s.b.End(), if s.init then ReadWrite else Final(o))
    && (s.wrInit ==> MirrorOk(w, o, s))
  }

  /** Everything but the block, its mirror, temporary buffers and unmapped memory is as before. */
  ghost predicate ChangesOnly(w: World, w': World, o: Owner, s: Split) {
    forall a: nat ::
      || (w'.role(a) == w.role(a) && w'.os(a) == w.os(a))
      || s.b.ptr <= a < s.b.End()
      || (s.wrInit && w.role(a) == Mirror(o, s.b.ptr, s.wr))
      || w.os(a) == Unmapped
      || ((w.role(a).TempSpare? || w.role(a).Scratch?) && w.role(a).o == o)
  }

  ghost predicate Apart(b: Block, c: Block) {
    b.End() <= c.ptr || c.End() <= b.ptr
  }

  /** A block does not notice what happens in another one. */
  lemma OtherBlockKept(w: World, w': World, pg: nat, o: Owner, dual: bool, s: Split, t: Split)
    requires pg >= 1 && WorldOk(w) && SplitOk(w, pg, o, dual, s) && SplitOk(w, pg, o, dual, t) && Apart(s.b, t.b)
    requires ChangesOnly(w, w', o, s)
    ensures SplitOk(w', pg, o, dual, t)
  {
    forall a: nat | t.b.ptr <= a < t.b.End()
      ensures w'.role(a) == w.role(a) && w'.os(a) == w.os(a)
    {
    }
    if t.wrInit {
      forall a: nat | t.wr <= a < t.wr + t.b.total
        ensures w'.role(a) == w.role(a) && w'.os(a) == w.os(a)
      {
        assert w.role(a) == Mirror(o, t.b.ptr, t.wr);
      }
    }
  }

  // ---------------------------------------------------------------------------
  // Handing out memory.
  // ---------------------------------------------------------------------------

  /** What a bump looks like from the outside. */
  ghost predicate IsBump(b: Block, b': Block, p: nat, size: nat, pg: nat)
    requires pg >= 1
  {
    b.FreeLo() <= p && b.ptr <= p && p + size == b'.FreeLo() <= b.End() && b'.ptr == b.ptr && b'.total == b.total &&
    BlockOk(b', pg)
  }

  lemma TakeKeepsCarved(w: World, pg: nat, o: Owner, b: Block, b': Block, p: nat, size: nat, id: nat)
    requires pg >= 1 && Carved(w, pg, o, b) && IsBump(b, b', p, size, pg)
    ensures Carved(Assign(w, p, p + size, Taken(o, id)), pg, o, b')
  {
  }

  /** Handing out part of a block: its flags and mirror stay as they are. */
  lemma TakeKeepsSplit(w: World, pg: nat, o: Owner, dual: bool, s: Split, b': Block, p: nat, size: nat, id: nat)
    requires pg >= 1 && WorldOk(w) && SplitOk(w, pg, o, dual, s) && IsBump(s.b, b', p, size, pg)
    ensures var w' := Assign(w, p, p + size, Taken(o, id));
      && WorldOk(w') && SplitOk(w', pg, o, dual, s.(b := b')) && ChangesOnly(w, w', o, s)
      && Plays(w, p, p + size, Spare(o, s.b.ptr))
  {
    var w' := Assign(w, p, p + size, Taken(o, id));
    TakeKeepsCarved(w, pg, o, s.b, b', p, size, id);
    assert Plays(w, p, p + size, Spare(o, s.b.ptr));
    hide Carved;
    if s.wrInit {
      forall a: nat | s.wr <= a < s.wr + s.b.total
        ensures w'.role(a) == w.role(a)
      {
        assert w.role(a) == Mirror(o, s.b.ptr, s.wr);
      }
    }
  }

  // ---------------------------------------------------------------------------
  // Giving back.
  // ---------------------------------------------------------------------------

  /** The world after `reset` has given back the free pages of a block. */
  ghost function Reset(w: World, pg: nat, b: Block): World
    requires 1 <= pg <= Word && b.FreeLo() >= 0
  {
    if b.avail >= pg then Unmap(w, FirstFree(b, pg), b.End()) else w
  }

  /** Only spare pages go; handed-out memory stays. */
  lemma ResetSpec(w: World, pg: nat, o: Owner, b: Block)
    requires IsPow2(pg) && pg >= 1 && WorldOk(w) && Carved(w, pg, o, b)
    ensures pg <= Word && WorldOk(Reset(w, pg, b))
    ensures forall a: nat :: var w' := Reset(w, pg, b);
      || (w'.role(a) == w.role(a) && w'.os(a) == w.os(a))
      || (b.ptr <= a < b.End() && w.role(a) == Spare(o, b.ptr) && w'.role(a) == Nobody)
    ensures GivenBack(Reset(w, pg, b), pg, b)
  {
    Pow2Facts(pg);
    if b.avail >= pg {
      FirstFreeSpec(b, pg);
      hide FirstFree, IsPow2;
      assert forall a: nat :: FirstFree(b, pg) <= a < b.End() ==> w.role(a) == Spare(o, b.ptr);
    }
    ResetGivesBack(w, pg, b);
  }

  /** Every page of the free part that is free as a whole has been unmapped. */
  ghost predicate GivenBack(w: World, pg: nat, b: Block)
    requires pg >= 1
  {
    forall a: nat :: OnFreePage(b, pg, a) ==> w.os(a) == Unmapped
  }

  /** The page of `a` lies in the free part of the block. */
  predicate OnFreePage(b: Block, pg: nat, a: nat)
    requires pg >= 1
  {
    b.FreeLo() <= a - a % pg && a < b.End()
  }

  lemma ResetGivesBack(w: World, pg: nat, b: Block)
    requires IsPow2(pg) && 1 <= pg <= Word && BlockOk(b, pg)
    ensures GivenBack(Reset(w, pg, b), pg, b)
  {
    forall a: nat | OnFreePage(b, pg, a)
      ensures Reset(w, pg, b).os(a) == Unmapped
    {
      FreePageIsReset(b, pg, a);
    }
  }

  lemma FreePageIsReset(b: Block, pg: nat, a: nat)
    requires IsPow2(pg) && 1 <= pg <= Word && BlockOk(b, pg) && OnFreePage(b, pg, a)
    ensures b.avail >= pg && FirstFree(b, pg) <= a
  {
    var p := a - a % pg;
    MultipleBelow(a, pg);
    MultiplesAdd(b.ptr, b.total, pg);
    MultiplesApart(p, b.End(), pg);
    FirstFreeSpec(b, pg);
    hide FirstFree, IsPow2;
    if p < FirstFree(b, pg) {
      MultiplesApart(p, FirstFree(b, pg), pg);
      FirstFreeClose(b, pg);
    }
  }
}
