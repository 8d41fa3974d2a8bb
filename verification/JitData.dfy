/**
RWAllocator (src/cgmemmgr.cpp): plain pools for memory that stays writable.
 */
module JitData {
  import opened JitMemory
  import opened JitBlocks
  import opened JitAllocators
  import opened JitRo

  /** The pool: only the first block is in use, and all that was handed out is writable. */
  ghost predicate DataOk(w: World, pg: nat, blocks: seq<Block>)
    requires pg >= 1
  {
    && |blocks| == BlockCount && (forall i :: 1 <= i < BlockCount ==> blocks[i] == Null)
    && (if blocks[0].ptr == 0 then blocks[0] == Null
        else Carved(w, pg, Data, blocks[0]) && Has(w, blocks[0].ptr, blocks[0].End(), ReadWrite))
    && (forall a: nat :: w.role(a).Taken? && w.role(a).o == Data ==> w.os(a) == ReadWrite)
    && (forall a: nat :: w.role(a) != Nobody && w.role(a).o == Data ==> w.role(a).Spare? || w.role(a).Taken?)
  }

  lemma DataTake(w: World, pg: nat, blocks: seq<Block>, b': Block, p: nat, size: nat, id: nat)
    requires pg >= 1 && WorldOk(w) && DataOk(w, pg, blocks) && blocks[0].ptr != 0 && IsBump(blocks[0], b', p, size, pg)
    ensures var w' := Assign(w, p, p + size, Taken(Data, id));
      && WorldOk(w') && DataOk(w', pg, blocks[0 := b']) && Gentle(w, w', Data, id) &&
         Handed(w', Data, id, p, p, size, Direct)
  {
    var w' := Assign(w, p, p + size, Taken(Data, id));
    var b := blocks[0];
    TakeKeepsCarved(w, pg, Data, b, b', p, size, id);
    TakeIsGentle(w, Data, b.ptr, p, p + size, id);
    hide Carved, Gentle;
  }

  /** A new block in place of the first one, whose free pages go. */
  lemma DataReplace(w: World, pg: nat, blocks: seq<Block>, place: nat, n: nat, id: nat)
    requires IsPow2(pg) && 1 <= pg <= Word && WorldOk(w) && DataOk(w, pg, blocks) && Vacant(w, pg, place, n)
    requires IsBlockSize(n, pg)
    ensures blocks[0].FreeLo() >= 0
    ensures var w' := Reset(MapBlock(w, Data, place, n), pg, blocks[0]);
      && WorldOk(w') && DataOk(w', pg, blocks[0 := Block(place, n, n)]) && Gentle(w, w', Data, id)
      && (blocks[0].ptr != 0 ==> GivenBack(w', pg, blocks[0]))
  {
    hide Carved, Gentle, MapBlock, WorldOk, IsPow2, Vacant, DataOk, Reset, GivenBack;
    var w1 := MapBlock(w, Data, place, n);
    DataShape(w, pg, blocks);
    var w' := Reset(w1, pg, blocks[0]);
    MappedGently(w, pg, place, n, id);
    DataMapped(w, pg, blocks, place, n);
    if blocks[0].ptr == 0 {
      NothingReset(w1, pg);
    } else {
      ResetSpec(w1, pg, Data, blocks[0]);
      ResetIsGentle(w1, pg, Data, blocks[0], id);
      GentleTrans(w, w1, w', Data, id);
    }
    DataReplaced(w1, w', pg, blocks, place, n);
  }

  lemma DataShape(w: World, pg: nat, blocks: seq<Block>)
    requires pg >= 1 && DataOk(w, pg, blocks)
    ensures |blocks| == BlockCount && forall i :: 1 <= i < BlockCount ==> blocks[i] == Null
    ensures blocks[0].ptr == 0 ==> blocks[0] == Null
    ensures blocks[0].FreeLo() >= 0
  {
  }

  lemma MappedGently(w: World, pg: nat, place: nat, n: nat, id: nat)
    requires pg >= 1 && WorldOk(w) && Vacant(w, pg, place, n)
    ensures Gentle(w, MapBlock(w, Data, place, n), Data, id) && WorldOk(MapBlock(w, Data, place, n))
  {
    MapIsGentle(w, pg, Data, place, n, Spare(Data, place), id);
  }

  lemma NothingReset(w: World, pg: nat)
    requires 1 <= pg <= Word
    ensures Reset(w, pg, Null) == w
  {
  }

  lemma DataMapped(w: World, pg: nat, blocks: seq<Block>, place: nat, n: nat)
    requires pg >= 1 && WorldOk(w) && DataOk(w, pg, blocks) && Vacant(w, pg, place, n) && IsBlockSize(n, pg)
    ensures var w1 := MapBlock(w, Data, place, n);
      && Carved(w1, pg, Data, Block(place, n, n)) && Has(w1, place, place + n, ReadWrite)
      && Plays(w1, place, place + n, Spare(Data, place))
      && (forall a: nat :: w1.role(a).Taken? && w1.role(a).o == Data ==> w1.os(a) == ReadWrite)
      && (forall a: nat :: w1.role(a) != Nobody && w1.role(a).o == Data ==> w1.role(a).Spare? || w1.role(a).Taken?)
      && blocks[0].ptr != place && (blocks[0].ptr != 0 ==> Carved(w1, pg, Data, blocks[0]))
  {
    assert w.os(place) == Unmapped;
    if blocks[0].ptr != 0 {
      assert w.os(blocks[0].ptr) == ReadWrite;
    }
  }

  lemma DataReplaced(w1: World, w': World, pg: nat, blocks: seq<Block>, place: nat, n: nat)
    requires pg >= 1 && |blocks| == BlockCount && (forall i :: 1 <= i < BlockCount ==>
               blocks[i] == Null) && blocks[0].ptr != place
    requires Carved(w1, pg, Data, Block(place, n, n)) && Has(w1, place, place + n, ReadWrite)
    requires Plays(w1, place, place + n, Spare(Data, place))
    requires forall a: nat :: w1.role(a).Taken? && w1.role(a).o == Data ==> w1.os(a) == ReadWrite
    requires forall a: nat :: w1.role(a) != Nobody && w1.role(a).o == Data ==> w1.role(a).Spare? || w1.role(a).Taken?
    requires forall a: nat ::
      || (w'.role(a) == w1.role(a) && w'.os(a) == w1.os(a))
      || (w1.role(a) == Spare(Data, blocks[0].ptr) && w'.role(a) == Nobody)
    ensures DataOk(w', pg, blocks[0 := Block(place, n, n)])
  {
    assert forall a: nat :: place <= a < place + n ==> w1.role(a) == Spare(Data, place);
  }

  /** The block in use is used as long as it has room, and replaced by a new one otherwise. */
  ghost predicate DataNext(blocks0: seq<Block>, blocks: seq<Block>, size: nat, align: nat, pg: nat, place: nat, rt: nat)
    requires align <= pg <= Word && pg >= 1 && |blocks0| == BlockCount
  {
    var bump := BlockAlloc(blocks0[0], size, align);
    if blocks0[0].ptr != 0 && bump.Room? then blocks == blocks0[0 := bump.b] && rt == bump.p
    else
      var n := BlockSize(size, pg);
      size <= n && blocks == blocks0[0 := Block(place, n, n - size)] && rt == place
  }

  /** RWAllocator::alloc. */
  method RwAlloc(blocks0: seq<Block>, size: nat, align: nat, pg: nat, place: nat, id: nat, ghost w: World)
    returns (blocks: seq<Block>, rt: nat, ghost w': World)
    requires Request(size, align, pg) && WorldOk(w) && DataOk(w, pg, blocks0)
    requires blocks0[0].ptr == 0 || BlockAlloc(blocks0[0], size, align).NoRoom? ==>
               Vacant(w, pg, place, BlockSize(size, pg))
    ensures WorldOk(w') && DataOk(w', pg, blocks) && Gentle(w, w', Data, id)
    ensures Handed(w', Data, id, rt, rt, size, Direct) && rt % align == 0
    ensures DataNext(blocks0, blocks, size, align, pg, place, rt)
    ensures blocks0[0].ptr != 0 && BlockAlloc(blocks0[0], size, align).NoRoom? ==> GivenBack(w', pg, blocks0[0])
  {
    assert |blocks0| == BlockCount && (forall i :: 1 <= i < BlockCount ==> blocks0[i] == Null);
    hide DataOk, IsPow2, BlockAlloc, Vacant, BlockSize, WorldOk, Gentle, Handed, Reset, MapBlock, GivenBack;
    var minSize: nat, minId: nat := Word - 1, 0;
    var i: nat := 0;
    while i < BlockCount && blocks0[i].ptr != 0
      invariant i <= 1 && minId == 0
      invariant i == 1 ==> BlockAlloc(blocks0[0], size, align).NoRoom?
      decreases BlockCount - i
    {
      var bump := BlockAlloc(blocks0[i], size, align);
      if bump.Room? {
        DataHere(w, pg, blocks0, size, align, id);
        w' := Assign(w, bump.p, bump.p + size, Taken(Data, id));
        return blocks0[i := bump.b], bump.p, w';
      }
      if blocks0[i].avail < minSize {
        minSize, minId := blocks0[i].avail, i;
      }
      i := i + 1;
    }
    blocks, rt, w' := RwAllocNew(blocks0, minId, size, align, pg, place, id, w);
  }

  method RwAllocNew(blocks0: seq<Block>, minId: nat, size: nat, align: nat, pg: nat, place: nat, id: nat,
                    ghost w: World)
    returns (blocks: seq<Block>, rt: nat, ghost w': World)
    requires Request(size, align, pg) && WorldOk(w) && DataOk(w, pg, blocks0)
    requires Vacant(w, pg, place, BlockSize(size, pg)) && minId == 0
    requires blocks0[0].ptr == 0 || BlockAlloc(blocks0[0], size, align).NoRoom?
    ensures WorldOk(w') && DataOk(w', pg, blocks) && Gentle(w, w', Data, id)
    ensures Handed(w', Data, id, rt, rt, size, Direct) && rt % align == 0
    ensures DataNext(blocks0, blocks, size, align, pg, place, rt)
    ensures blocks0[0].ptr != 0 ==> GivenBack(w', pg, blocks0[0])
  {
    DataNewBlock(w, pg, blocks0, size, align, place, id);
    assert |blocks0| == BlockCount;
    hide DataOk, IsPow2, BlockAlloc, Vacant, BlockSize, WorldOk, Gentle, Handed, Reset, MapBlock, GivenBack;
    var n := BlockSize(size, pg);
    var bump := BlockAlloc(Block(place, n, n), size, align);
    ghost var w1 := Reset(MapBlock(w, Data, place, n), pg, blocks0[minId]);
    blocks, rt := blocks0[minId := bump.b], bump.p;
    w' := Assign(w1, place, place + size, Taken(Data, id));
  }

  lemma DataHere(w: World, pg: nat, blocks: seq<Block>, size: nat, align: nat, id: nat)
    requires Request(size, align, pg) && WorldOk(w) && DataOk(w, pg, blocks)
    requires blocks[0].ptr != 0 && BlockAlloc(blocks[0], size, align).Room?
    ensures var bump := BlockAlloc(blocks[0], size, align);
      var w' := Assign(w, bump.p, bump.p + size, Taken(Data, id));
      && WorldOk(w') && DataOk(w', pg, blocks[0 := bump.b]) && Gentle(w, w', Data, id)
      && Handed(w', Data, id, bump.p, bump.p, size, Direct) && bump.p % align == 0
  {
    var bump := BlockAlloc(blocks[0], size, align);
    assert BlockOk(blocks[0], pg);
    hide DataOk, IsPow2, BlockAlloc, WorldOk, Gentle, Handed;
    BumpSpec(blocks[0], size, align, pg);
    DataTake(w, pg, blocks, bump.b, bump.p, size, id);
  }

  lemma StillGivenBack(w: World, w': World, pg: nat, b: Block)
    requires pg >= 1 && w'.os == w.os && GivenBack(w, pg, b)
    ensures GivenBack(w', pg, b)
  {
  }

  lemma RequestedPage(size: nat, align: nat, pg: nat)
    requires Request(size, align, pg)
    ensures 1 <= pg <= Word && IsPow2(pg)
  {
  }

  lemma DataNewBlock(w: World, pg: nat, blocks: seq<Block>, size: nat, align: nat, place: nat, id: nat)
    requires Request(size, align, pg) && WorldOk(w) && DataOk(w, pg, blocks)
    requires Vacant(w, pg, place, BlockSize(size, pg))
    ensures blocks[0].FreeLo() >= 0 && place % align == 0 && size <= BlockSize(size, pg)
    ensures var n := BlockSize(size, pg);
      var w1 := Reset(MapBlock(w, Data, place, n), pg, blocks[0]);
      var w' := Assign(w1, place, place + size, Taken(Data, id));
      && BlockAlloc(Block(place, n, n), size, align) == Room(place, Block(place, n, n - size))
      && WorldOk(w') && DataOk(w', pg, blocks[0 := Block(place, n, n - size)]) && Gentle(w, w', Data, id)
      && Handed(w', Data, id, place, place, size, Direct) && (blocks[0].ptr != 0 ==> GivenBack(w', pg, blocks[0]))
  {
    hide DataOk, IsPow2, BlockAlloc, BlockSize, Vacant, WorldOk, Gentle, Reset, Handed, MapBlock, GivenBack, IsBump;
    hide IsBlockSize, Request, Word, Assign;
    RequestedPage(size, align, pg);
    var n := BlockSize(size, pg);
    NewDataBump(w, pg, size, align, place);
    DataShape(w, pg, blocks);
    DataReplace(w, pg, blocks, place, n, id);
    DataNewTaken(w, Reset(MapBlock(w, Data, place, n), pg, blocks[0]), pg, blocks, place, n, size, id);
  }

  /** The request is taken from the new block. */
  lemma DataNewTaken(w: World, w1: World, pg: nat, blocks: seq<Block>, place: nat, n: nat, size: nat, id: nat)
    requires pg >= 1 && place > 0 && size <= n && |blocks| == BlockCount
    requires Gentle(w, w1, Data, id) && WorldOk(w1) && DataOk(w1, pg, blocks[0 := Block(place, n, n)])
    requires IsBump(Block(place, n, n), Block(place, n, n - size), place, size, pg)
    requires blocks[0].ptr != 0 ==> GivenBack(w1, pg, blocks[0])
    ensures var w' := Assign(w1, place, place + size, Taken(Data, id));
      && WorldOk(w') && DataOk(w', pg, blocks[0 := Block(place, n, n - size)]) && Gentle(w, w', Data, id)
      && Handed(w', Data, id, place, place, size, Direct) && (blocks[0].ptr != 0 ==> GivenBack(w', pg, blocks[0]))
  {
    hide DataOk, WorldOk, Gentle, Handed, GivenBack, IsBump, Assign;
    var w' := Assign(w1, place, place + size, Taken(Data, id));
    var blocks1 := blocks[0 := Block(place, n, n)];
    DataTake(w1, pg, blocks1, Block(place, n, n - size), place, size, id);
    assert blocks1[0 := Block(place, n, n - size)] == blocks[0 := Block(place, n, n - size)];
    if blocks[0].ptr != 0 {
      assert w'.os == w1.os by { AssignPlays(w1, place, place + size, Taken(Data, id)); }
      StillGivenBack(w1, w', pg, blocks[0]);
    }
    GentleTrans(w, w1, w', Data, id);
  }

  lemma NewDataBump(w: World, pg: nat, size: nat, align: nat, place: nat)
    requires Request(size, align, pg) && Vacant(w, pg, place, BlockSize(size, pg))
    ensures place > 0 && place % align == 0
    ensures var n := BlockSize(size, pg);
      && size <= n && IsBlockSize(n, pg)
      && BlockAlloc(Block(place, n, n), size, align) == Room(place, Block(place, n, n - size))
      && IsBump(Block(place, n, n), Block(place, n, n - size), place, size, pg)
  {
    var n := BlockSize(size, pg);
    assert place % pg == 0 && place + n < Word && place > 0;
    BlockSizeSpec(size, pg);
    FreshBump(place, size, align, pg);
    PowersDivide(align, pg, place);
    hide IsPow2, BlockAlloc, BlockSize, Vacant;
  }
}
