/**
The address space that the JIT's allocators carve up (src/cgmemmgr.cpp): page permissions as
the operating system sees them, the role each address plays for the allocators, and the bump
allocation out of one block.

Roles make disjointness pointwise: an address has one role, so two things that claim every
address of their range under different roles cannot overlap.
 */
module JitMemory {
  import opened Bits

  /** Addresses and sizes are 64-bit words. */
  const Word: nat := 0x1_0000_0000_0000_0000

  datatype Perm = Unmapped | NoAccess | ReadOnly | ReadExec | ReadWrite

  /** The three allocators of the manager: read-write data, read-only data, code. */
  datatype Owner = Data | Const | Code

  datatype Role =
    | Nobody
    | Spare(o: Owner, base: nat)                  // in the block at `base`, not handed out
    | Taken(o: Owner, id: nat)                    // runtime memory of allocation `id`
    | Mirror(o: Owner, base: nat, wr: nat)        // in the second map, at `wr`, of the block at `base`
    | TempSpare(o: Owner, base: nat)              // in the temporary buffer at `base`, not handed out
    | Scratch(o: Owner, base: nat, id: nat)       // write memory of allocation `id` in a temporary buffer

  /** The mappings that the manager has made: their permissions and their roles. */
  datatype World = World(os: nat -> Perm, role: nat -> Role)

  /** What is mapped plays a role, and only that. */
  ghost predicate WorldOk(w: World) {
    forall a: nat :: w.role(a) != Nobody <==> w.os(a) != Unmapped
  }

  /** Every address of a range plays the given role. */
  ghost predicate Plays(w: World, lo: int, hi: int, r: Role) {
    forall a: nat :: lo <= a < hi ==> w.role(a) == r
  }

  /** Every address of a range has the given permission. */
  ghost predicate Has(w: World, lo: int, hi: int, p: Perm) {
    forall a: nat :: lo <= a < hi ==> w.os(a) == p
  }

  ghost function Assign(w: World, lo: int, hi: int, r: Role): World {
    World(w.os, (a: nat) => if lo <= a < hi then r else w.role(a))
  }

  ghost function Protect(w: World, lo: int, hi: int, p: Perm): World {
    World((a: nat) => if lo <= a < hi then p else w.os(a), w.role)
  }

  ghost function Map(w: World, lo: int, hi: int, p: Perm, r: Role): World {
    Assign(Protect(w, lo, hi, p), lo, hi, r)
  }

  ghost function Unmap(w: World, lo: int, hi: int): World {
    Map(w, lo, hi, Unmapped, Nobody)
  }

  /** A place where the operating system may put `n` new bytes. */
  ghost predicate Vacant(w: World, pg: nat, base: nat, n: nat)
    requires pg >= 1
  {
    base > 0 && base % pg == 0 && base + n < Word && Has(w, base, base + n, Unmapped)
  }

  /** A step of one allocator: nothing that plays a role for another one changes. */
  ghost predicate StepOf(w: World, w': World, o: Owner) {
    forall a: nat ::
      && (w.role(a) != Nobody && w.role(a).o != o ==> w'.role(a) == w.role(a) && w'.os(a) == w.os(a))
      && (w'.role(a) != Nobody && w'.role(a).o != o ==> w'.role(a) == w.role(a))
  }

  // ---------------------------------------------------------------------------
  // Alignment.
  // ---------------------------------------------------------------------------

  ghost predicate IsPow2(x: nat) {
    exists k: nat :: k < 64 && x == Pow2(k)
  }

  /** `x & -align` on 64-bit words. */
  function RoundDown(x: nat, align: nat): nat
    requires align <= Word
  {
    And(x, Word - align)
  }

  /** LLT_ALIGN. */
  function RoundUp(x: nat, align: nat): nat
    requires 1 <= align <= Word
  {
    RoundDown(x + align - 1, align)
  }

  lemma WordIsPower(k: nat) returns (n: nat)
    requires k < 64
    ensures n == 64 && Pow2(n) == Word && 1 <= Pow2(k) <= Word
  {
    Pow2Words();
    n := 64;
    hide Pow2;
    Pow2Monotone(k, n);
  }

  lemma Pow2Facts(x: nat)
    requires IsPow2(x)
    ensures 1 <= x <= Word
  {
    var k: nat :| k < 64 && x == Pow2(k);
    hide Pow2;
    var n := WordIsPower(k);
  }

  lemma RoundDownSpec(x: nat, align: nat)
    requires IsPow2(align) && x < Word
    ensures 1 <= align <= Word
    ensures RoundDown(x, align) == x - x % align
  {
    var k: nat :| k < 64 && align == Pow2(k);
    hide Pow2, And;
    var n := WordIsPower(k);
    AndHighMask(x, k, n);
  }

  lemma RoundUpSpec(x: nat, align: nat)
    requires IsPow2(align) && x + align <= Word
    ensures 1 <= align <= Word
    ensures x <= RoundUp(x, align) < x + align && RoundUp(x, align) % align == 0
  {
    RoundDownSpec(x + align - 1, align);
    hide RoundDown, IsPow2;
    MultipleBelow(x + align - 1, align);
  }

  lemma MultipleBelow(x: nat, d: nat)
    requires d >= 1
    ensures 0 <= x % d < d && (x - x % d) % d == 0
  {
    ModAddMultiple(0, x / d, d);
    assert x - x % d == 0 + (x / d) * d;
  }

  /** The smaller of two powers of two divides the larger. */
  lemma PowersDivide(a: nat, b: nat, x: nat)
    requires IsPow2(a) && IsPow2(b) && a <= b && x % b == 0
    ensures a >= 1 && x % a == 0
  {
    Pow2Facts(a);
    var i: nat :| i < 64 && a == Pow2(i);
    var j: nat :| j < 64 && b == Pow2(j);
    hide Pow2;
    if j < i {
      Pow2Monotone(j, i);
      Pow2Facts(b);
    } else {
      Pow2Add(i, j - i);
      ProductDivides(x, Pow2(i), Pow2(j - i));
    }
  }

  lemma ProductDivides(x: nat, a: nat, b: nat)
    requires a >= 1 && b >= 1 && a * b >= 1 && x % (a * b) == 0
    ensures x % a == 0
  {
    DivDiv(x, a, b);
    MulBound(a, x / a % b, a, b);
  }

  lemma MultiplesAdd(x: int, y: int, d: nat)
    requires d >= 1 && x % d == 0 && y % d == 0
    ensures (x + y) % d == 0 && (x - y) % d == 0
  {
    ModAddMultiple(x, y / d, d);
    ModAddMultiple(x, 0 - y / d, d);
    assert (0 - y / d) * d == 0 - (y / d) * d;
  }

  /** Two different multiples are at least that far apart. */
  lemma MultiplesApart(x: nat, y: nat, d: nat)
    requires d >= 1 && x % d == 0 && y % d == 0 && x < y
    ensures x + d <= y
  {
    MultiplesAdd(y, x, d);
    if y - x < d {
      DivModUnique(y - x, d, 0, y - x);
    }
  }

  /** At least 256 pages, and whole pages. */
  function BlockSize(size: nat, pg: nat): nat
    requires 1 <= pg <= Word
  {
    if size > pg * 256 then RoundUp(size, pg) else pg * 256
  }

  predicate IsBlockSize(n: nat, pg: nat)
    requires pg >= 1
  {
    n % pg == 0 && n >= 256 * pg
  }

  lemma BlockSizeSpec(size: nat, pg: nat)
    requires IsPow2(pg) && size + pg <= Word
    ensures 1 <= pg <= Word
    ensures BlockSize(size, pg) >= size && IsBlockSize(BlockSize(size, pg), pg)
  {
    hide RoundUp, IsPow2;
    RoundUpSpec(size, pg);
    MulDivCancel(256, pg);
  }

  /** No smaller number of whole pages would do. */
  lemma BlockSizeLeast(size: nat, pg: nat, n: nat)
    requires IsPow2(pg) && pg >= 1 && size + pg <= Word && IsBlockSize(n, pg) && n >= size
    ensures pg <= Word && BlockSize(size, pg) <= n
  {
    BlockSizeSpec(size, pg);
    RoundUpSpec(size, pg);
    hide RoundUp, IsPow2;
    if n < BlockSize(size, pg) {
      MultiplesApart(n, BlockSize(size, pg), pg);
    }
  }

  // ---------------------------------------------------------------------------
  // Blocks.
  // ---------------------------------------------------------------------------

  /** The last `avail` of the `total` bytes at `ptr` are free; a null pointer is 0. */
  datatype Block = Block(ptr: nat, total: nat, avail: nat) {
    function End(): nat { ptr + total }
    function FreeLo(): int { ptr + total - avail }
  }

  const Null: Block := Block(0, 0, 0)

  /** Whole pages, and not more free than there is. */
  ghost predicate BlockOk(b: Block, pg: nat)
    requires pg >= 1
  {
    && b.avail <= b.total && b.End() < Word && b.ptr % pg == 0 && b.total % pg == 0
  }

  datatype Bump = NoRoom | Room(p: nat, b: Block)

  /** The second test never fires: what is free lies inside the block. */
  function BlockAlloc(b: Block, size: nat, align: nat): Bump
    requires align <= Word
  {
    var aligned := RoundDown(b.avail, align);
    if aligned < size || b.End() < aligned then NoRoom
    else Room(b.End() - aligned, b.(avail := aligned - size))
  }

  /**
  A bump takes an aligned range out of the free part and leaves what follows free.  It fails
  only when less than `size` bytes remain after aligning.
   */
  lemma BumpSpec(b: Block, size: nat, align: nat, pg: nat)
    requires IsPow2(pg) && IsPow2(align) && align <= pg && pg >= 1 && BlockOk(b, pg)
    ensures 1 <= align <= Word
    ensures match BlockAlloc(b, size, align)
      case NoRoom => b.avail - b.avail % align < size
      case Room(p, b') =>
        && b.avail - b.avail % align >= size
        && p % align == 0 && b.FreeLo() <= p && b.ptr <= p && p + size == b'.FreeLo() <= b.End()
        && b'.ptr == b.ptr && b'.total == b.total && BlockOk(b', pg)
        && p == b.End() - (b.avail - b.avail % align)
  {
    RoundDownSpec(b.avail, align);
    hide RoundDown, IsPow2;
    MultipleBelow(b.avail, align);
    PowersDivide(align, pg, b.ptr);
    PowersDivide(align, pg, b.total);
    MultiplesAdd(b.ptr, b.total, align);
    MultiplesAdd(b.End(), b.avail - b.avail % align, align);
  }

  /**
  Alignments of any size, also above the page size: a bump succeeds exactly when enough is left
  after rounding the free part down, and its address is aligned exactly when the block's end is.
  So in a new block an alignment above the page size can fail, or yield an unaligned address.
   */
  lemma AnyAlignment(b: Block, size: nat, align: nat)
    requires IsPow2(align) && b.avail <= b.total && b.End() < Word
    ensures 1 <= align <= Word
    ensures BlockAlloc(b, size, align).Room? <==> b.avail - b.avail % align >= size
    ensures match BlockAlloc(b, size, align)
      case NoRoom => true
      case Room(p, b') => p + size == b'.FreeLo() && (p % align == 0 <==> b.End() % align == 0)
  {
    RoundDownSpec(b.avail, align);
    hide RoundDown, IsPow2;
    MultipleBelow(b.avail, align);
    var aligned := b.avail - b.avail % align;
    if b.End() % align == 0 {
      MultiplesAdd(b.End(), aligned, align);
    }
    if (b.End() - aligned) % align == 0 {
      MultiplesAdd(b.End() - aligned, aligned, align);
    }
  }

  /** A request of one page aligned to 512 pages never finds room in the block made for it. */
  lemma LargeAlignmentFails(base: nat)
    requires base + 0x10_0000 < Word
    ensures BlockSize(0x1000, 0x1000) == 0x10_0000
    ensures BlockAlloc(Block(base, 0x10_0000, 0x10_0000), 0x1000, 0x20_0000).NoRoom?
  {
    Pow2Words();
    var k: nat := 21;
    assert Pow2(k) == 0x20_0000 by {
      Pow2Add(5, 16);
      Pow2Small();
    }
    AnyAlignment(Block(base, 0x10_0000, 0x10_0000), 0x1000, 0x20_0000);
  }

  /** A new block has room at its very start. */
  lemma FreshBump(base: nat, size: nat, align: nat, pg: nat)
    requires IsPow2(pg) && IsPow2(align) && align <= pg && size + pg <= Word
    requires pg >= 1 && base % pg == 0 && pg <= Word && base + BlockSize(size, pg) < Word
    ensures var n := BlockSize(size, pg);
      && n >= size && align <= Word && BlockOk(Block(base, n, n), pg)
      && BlockAlloc(Block(base, n, n), size, align) == Room(base, Block(base, n, n - size))
  {
    BlockSizeSpec(size, pg);
    var n := BlockSize(size, pg);
    hide BlockSize, RoundDown, IsPow2, BlockAlloc;
    BumpSpec(Block(base, n, n), size, align, pg);
    PowersDivide(align, pg, n);
  }

  /** The first page boundary in the free part: what `reset` gives back starts here. */
  function FirstFree(b: Block, pg: nat): nat
    requires 1 <= pg <= Word && b.FreeLo() >= 0
  {
    RoundUp(b.FreeLo(), pg)
  }

  lemma FirstFreeClose(b: Block, pg: nat)
    requires IsPow2(pg) && pg >= 1 && BlockOk(b, pg) && b.avail >= pg
    ensures pg <= Word && FirstFree(b, pg) < b.FreeLo() + pg
  {
    RoundUpSpec(b.FreeLo(), pg);
  }

  /** `reset` gives back whole free pages only, and at least one. */
  lemma FirstFreeSpec(b: Block, pg: nat)
    requires IsPow2(pg) && pg >= 1 && BlockOk(b, pg) && b.avail >= pg
    ensures 1 <= pg <= Word
    ensures b.FreeLo() <= FirstFree(b, pg) < b.End() && FirstFree(b, pg) % pg == 0
  {
    RoundUpSpec(b.FreeLo(), pg);
  }
}
