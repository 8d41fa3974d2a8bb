/**
The abstract module that image building partitions (src/aotcompile.cpp): globals with their
weights and their users, the module totals, and the number of shards chosen from them.
Globals are identified by their position in the module.
 */
module ModuleInfo {
  import opened Basics
  import opened Bits

  type HexDigit = d: nat | d < 16

  /** A function is the instruction counts of its basic blocks and the mask of its clones, in hexadecimal. */
  datatype Kind =
    | Function(blocks: seq<nat>, mask: Option<seq<HexDigit>>)
    | Variable
    | Alias

  datatype Global = Global(name: string, isDeclaration: bool, kind: Kind, users: seq<nat>)

  type Module = seq<Global>

  predicate IsCoverageCounter(g: Global) {
    "jl_covctr" <= g.name
  }

  /** Only definitions can use a global. */
  predicate WellFormed(m: Module) {
    forall g :: 0 <= g < |m| && !m[g].isDeclaration ==> UsersDefined(m, m[g].users)
  }

  predicate UsersDefined(m: Module, users: seq<nat>) {
    forall j :: 0 <= j < |users| ==> users[j] < |m| && !m[users[j]].isDeclaration
  }

  // ---------------------------------------------------------------------------
  // Weights.
  // ---------------------------------------------------------------------------

  function Sum(s: seq<nat>): nat {
    if |s| == 0 then 0 else Sum(s[..|s| - 1]) + s[|s| - 1]
  }

  lemma SumAppend(s: seq<nat>, x: nat)
    ensures Sum(s + [x]) == Sum(s) + x
  {
    assert (s + [x])[..|s|] == s;
  }

  // The mask of a function's clones.

  function PopCount(x: nat): nat {
    if x == 0 then 0 else x % 2 + PopCount(x / 2)
  }

  /** The number that a mask is parsed to. */
  function HexValue(ds: seq<HexDigit>): nat {
    if |ds| == 0 then 0 else 16 * HexValue(ds[..|ds| - 1]) + ds[|ds| - 1]
  }

  /** The marks on the digits, one by one. */
  function Marks(ds: seq<HexDigit>): nat {
    if |ds| == 0 then 0 else Marks(ds[..|ds| - 1]) + PopCount(ds[|ds| - 1])
  }

  lemma PopCountAppend(x: nat, d: HexDigit)
    ensures PopCount(16 * x + d) == PopCount(x) + PopCount(d)
  {
    var y := 16 * x + d;
    assert y / 2 == 8 * x + d / 2 && y / 2 / 2 == 4 * x + d / 4 && y / 2 / 2 / 2 == 2 * x + d / 8;
    assert y / 2 / 2 / 2 / 2 == x;
    assert y % 2 == d % 2 && (y / 2) % 2 == d / 2 % 2 && (y / 2 / 2) % 2 == d / 4 % 2 &&
      (y / 2 / 2 / 2) % 2 == d / 8 % 2;
    PopCountFour(y);
    PopCountFour(d);
  }

  lemma PopCountFour(y: nat)
    ensures PopCount(y) == y % 2 + y / 2 % 2 + y / 2 / 2 % 2 + y / 2 / 2 / 2 % 2 + PopCount(y / 2 / 2 / 2 / 2)
  {
    PopCountStep(y);
    PopCountStep(y / 2);
    PopCountStep(y / 2 / 2);
    PopCountStep(y / 2 / 2 / 2);
    hide PopCount;
  }

  lemma PopCountStep(y: nat)
    ensures PopCount(y) == y % 2 + PopCount(y / 2)
  {
  }

  /** The bits set in the parsed mask are the marks on its digits, and four bits a digit hold it. */
  lemma {:induction false} MaskBits(ds: seq<HexDigit>)
    ensures PopCount(HexValue(ds)) == Marks(ds) && HexValue(ds) < Pow2(4 * |ds|)
  {
    if |ds| > 0 {
      var n := |ds| - 1;
      MaskBits(ds[..n]);
      var p := Pow2(4 * n);
      assert Pow2(4 * |ds|) == 16 * p by {
        Pow2Small();
        hide Pow2;
        Pow2Add(4, 4 * n);
      }
      hide Pow2, PopCount;
      PopCountAppend(HexValue(ds[..n]), ds[n]);
    }
  }

  /** The positions of the bits that are set in a number. */
  ghost function SetBits(x: nat): set<nat> {
    set k: nat | k <= x && BitSet(x, k)
  }

  predicate BitSet(x: nat, k: nat) {
    x / Pow2(k) % 2 == 1
  }

  lemma BitSetHalf(x: nat, k: nat)
    ensures BitSet(x, k + 1) == BitSet(x / 2, k)
    ensures BitSet(x, 0) == (x % 2 == 1)
  {
    HalfDivMod(x, Pow2(k));
    assert Pow2(0) == 1;
  }

  lemma {:induction false} BitSetBound(x: nat, k: nat)
    requires BitSet(x, k)
    ensures k < x
  {
    hide BitSet;
    BitSetHalf(x, if k == 0 then 0 else k - 1);
    if k > 0 {
      BitSetBound(x / 2, k - 1);
    }
  }

  ghost function Up(s: set<nat>): set<nat> {
    set k | k in s :: k + 1
  }

  lemma {:induction false} UpSize(s: set<nat>)
    ensures |Up(s)| == |s|
  {
    if s != {} {
      var k :| k in s;
      UpSize(s - {k});
      forall j: nat | j > 0
        ensures j in Up(s) <==> j in Up(s - {k}) + {k + 1}
      {
        UpMember(s, j);
        UpMember(s - {k}, j);
      }
      assert Up(s) == Up(s - {k}) + {k + 1};
    }
  }

  lemma SetBitsHalf(x: nat)
    ensures SetBits(x) == Up(SetBits(x / 2)) + (if x % 2 == 1 then {0} else {})
  {
    hide BitSet;
    var t := Up(SetBits(x / 2)) + (if x % 2 == 1 then {0} else {});
    forall k: nat
      ensures k in SetBits(x) <==> k in t
    {
      BitSetHalf(x, if k == 0 then 0 else k - 1);
      if k > 0 {
        if BitSet(x, k) {
          BitSetBound(x, k);
          BitSetBound(x / 2, k - 1);
        }
        assert k in SetBits(x) <==> k - 1 in SetBits(x / 2);
        assert k in Up(SetBits(x / 2)) <==> k - 1 in SetBits(x / 2) by { UpMember(SetBits(x / 2), k); }
      }
    }
  }

  lemma UpMember(s: set<nat>, k: nat)
    requires k > 0
    ensures k in Up(s) <==> k - 1 in s
  {
    if k - 1 in s {
      assert k - 1 + 1 in Up(s);
    }
  }

  /** The population count is the number of set bits. */
  lemma {:induction false} PopCountIsSetBits(x: nat)
    ensures PopCount(x) == |SetBits(x)|
  {
    if x == 0 {
      assert SetBits(0) == {} by {
        if k :| k in SetBits(0) {
          BitSetBound(0, k);
        }
      }
    } else {
      PopCountIsSetBits(x / 2);
      SetBitsHalf(x);
      hide SetBits, BitSet;
      var s := SetBits(x / 2);
      UpSize(s);
      assert 0 !in Up(s);
    }
  }

  /** Each digit of the mask stands at its place in the parsed number. */
  lemma {:induction false} HexValueDigit(ds: seq<HexDigit>, i: nat)
    requires i < |ds|
    ensures HexValue(ds) / Pow2(4 * (|ds| - 1 - i)) % 16 == ds[i]
  {
    var n := |ds| - 1;
    var v := HexValue(ds[..n]);
    assert HexValue(ds) == 16 * v + ds[n];
    hide HexValue, Pow2;
    if i < n {
      HexValueDigit(ds[..n], i);
      NextDigit(v, ds[n], 4 * (n - 1 - i));
      assert 4 * (n - 1 - i) + 4 == 4 * (n - i);
    } else {
      LastDigit(v, ds[n]);
    }
  }

  lemma LastDigit(v: nat, d: HexDigit)
    ensures (16 * v + d) / Pow2(0) % 16 == d
  {
  }

  lemma NextDigit(v: nat, d: HexDigit, k: nat)
    ensures (16 * v + d) / Pow2(k + 4) == v / Pow2(k)
  {
    Pow2Small();
    hide Pow2;
    Pow2Add(4, k);
    DivDiv(16 * v + d, 16, Pow2(k));
  }

  /** A function is compiled once, and once more for every mark in its mask. */
  function Clones(mask: Option<seq<HexDigit>>): nat {
    match mask
    case None => 1
    case Some(ds) => Marks(ds) + 1
  }

  /** What compiling a global is estimated to cost. */
  function Weight(g: Global): (w: nat)
    ensures w >= 1 && (!g.kind.Function? ==> w == 1)
  {
    match g.kind
    case Function(blocks, mask) => FunctionWeight(blocks, mask)
    case _ => 1
  }

  function FunctionWeight(blocks: seq<nat>, mask: Option<seq<HexDigit>>): (w: nat)
    ensures w >= 1 + Sum(blocks) + |blocks|
  {
    var w, c := 1 + Sum(blocks) + |blocks|, Clones(mask);
    assert w * c == w * (c - 1) + w;
    w * c
  }

  /** A mask with `k` bits set makes a function weigh `k + 1` times as much as it does without one. */
  lemma MaskMultiplies(blocks: seq<nat>, ds: seq<HexDigit>)
    ensures FunctionWeight(blocks, None) == 1 + Sum(blocks) + |blocks|
    ensures FunctionWeight(blocks, Some(ds)) == (|SetBits(HexValue(ds))| + 1) * FunctionWeight(blocks, None)
  {
    hide SetBits, Sum, Marks, PopCount, HexValue, Pow2;
    MaskBits(ds);
    PopCountIsSetBits(HexValue(ds));
    Distribute(Clones(Some(ds)), 0, 1 + Sum(blocks) + |blocks|);
  }

  datatype FunctionInfo = FunctionInfo(weight: nat, bbs: nat, insts: nat, clones: nat)

  method GetFunctionWeight(blocks: seq<nat>, mask: Option<seq<HexDigit>>) returns (info: FunctionInfo)
    ensures info.bbs == |blocks| && info.insts == Sum(blocks) && info.clones == Clones(mask)
    ensures info.clones == (if mask == None then 1 else 1 + |SetBits(HexValue(mask.value))|)
    ensures info.weight == (1 + info.insts + info.bbs) * info.clones
    ensures info.weight == FunctionWeight(blocks, mask)
  {
    hide SetBits, PopCount, HexValue, Marks, Pow2;
    var insts: nat := 0;
    for i := 0 to |blocks|
      invariant insts == Sum(blocks[..i])
    {
      assert blocks[..i + 1] == blocks[..i] + [blocks[i]];
      SumAppend(blocks[..i], blocks[i]);
      insts := insts + blocks[i];
    }
    assert blocks[..|blocks|] == blocks;
    var clones: nat := 1;
    if mask.Some? {
      MaskBits(mask.value);
      PopCountIsSetBits(HexValue(mask.value));
      clones := PopCount(HexValue(mask.value)) + 1;
    }
    var weight: nat := 1;
    weight := weight + insts;
    weight := weight + |blocks|;
    weight := weight * clones;
    info := FunctionInfo(weight, |blocks|, insts, clones);
  }

  datatype Info = Info(globals: nat, funcs: nat, bbs: nat, insts: nat, clones: nat, weight: nat)

  // What a definition contributes to the totals.

  function Blocks(g: Global): nat {
    if g.kind.Function? then |g.kind.blocks| else 0
  }

  function Instructions(g: Global): nat {
    if g.kind.Function? then Sum(g.kind.blocks) else 0
  }

  function Versions(g: Global): nat {
    if g.kind.Function? then Clones(g.kind.mask) else 0
  }

  /** A number for each definition, in module order, and 0 for each declaration. */
  function Each(m: Module, f: Global -> nat): (s: seq<nat>)
    ensures |s| == |m|
  {
    seq(|m|, g requires 0 <= g < |m| => if m[g].isDeclaration then 0 else f(m[g]))
  }

  lemma SumEach(m: Module, i: nat, f: Global -> nat)
    requires i < |m|
    ensures Sum(Each(m[..i + 1], f)) == Sum(Each(m[..i], f)) + (if m[i].isDeclaration then 0 else f(m[i]))
  {
    assert Each(m[..i + 1], f)[..i] == Each(m[..i], f);
  }

  ghost function Definitions(m: Module): set<nat> {
    set g: nat | g < |m| && !m[g].isDeclaration
  }

  ghost function DefinedFunctions(m: Module): set<nat> {
    set g: nat | g < |m| && !m[g].isDeclaration && m[g].kind.Function?
  }

  lemma DefinitionsStep(m: Module, i: nat)
    requires i < |m|
    ensures Definitions(m[..i + 1]) == Definitions(m[..i]) + (if m[i].isDeclaration then {} else {i})
    ensures DefinedFunctions(m[..i + 1])
         == DefinedFunctions(m[..i]) + (if m[i].isDeclaration || !m[i].kind.Function? then {} else {i})
  {
  }

  ghost predicate IsTotal(m: Module, info: Info) {
    && info.globals == |Definitions(m)| && info.funcs == |DefinedFunctions(m)|
    && info.bbs == Sum(Each(m, Blocks)) && info.insts == Sum(Each(m, Instructions))
    && info.clones == Sum(Each(m, Versions)) && info.weight == Sum(Each(m, Weight))
  }

  method ComputeModuleInfo(m: Module) returns (info: Info)
    ensures info.globals == |Definitions(m)| && info.funcs == |DefinedFunctions(m)|
    ensures info.bbs == Sum(Each(m, Blocks)) && info.insts == Sum(Each(m, Instructions))
    ensures info.clones == Sum(Each(m, Versions)) && info.weight == ModuleWeight(m)
  {
    info := Info(0, 0, 0, 0, 0, 0);
    for i := 0 to |m|
      invariant IsTotal(m[..i], info)
    {
      var g := m[i];
      ghost var was := info;
      if !g.isDeclaration {
        info := info.(globals := info.globals + 1);
        match g.kind {
          case Function(blocks, mask) =>
            var f := GetFunctionWeight(blocks, mask);
            info := info.(funcs := info.funcs + 1, bbs := info.bbs + f.bbs, insts := info.insts + f.insts,
                          clones := info.clones + f.clones, weight := info.weight + f.weight);
          case _ =>
            info := info.(weight := info.weight + 1);
        }
      }
      TotalStep(m, i, was, info);
    }
    assert m[..|m|] == m;
    assert Each(m, Weight) == DefinedWeights(m);
  }

  /** One more global and what it adds. */
  lemma TotalStep(m: Module, i: nat, t: Info, t': Info)
    requires i < |m| && IsTotal(m[..i], t)
    requires var g := m[i];
      if g.isDeclaration then t' == t
      else t' == Info(t.globals + 1, t.funcs + (if g.kind.Function? then 1 else 0), t.bbs + Blocks(g),
                      t.insts + Instructions(g), t.clones + Versions(g), t.weight + Weight(g))
    ensures IsTotal(m[..i + 1], t')
  {
    hide Sum, Each, Definitions, DefinedFunctions, Blocks, Instructions, Versions, Weight;
    DefinitionsStep(m, i);
    assert i !in Definitions(m[..i]) && i !in DefinedFunctions(m[..i]) by { DefinitionsBound(m[..i], i); }
    SumEach(m, i, Blocks);
    SumEach(m, i, Instructions);
    SumEach(m, i, Versions);
    SumEach(m, i, Weight);
  }

  lemma DefinitionsBound(m: Module, g: nat)
    requires g >= |m|
    ensures g !in Definitions(m) && g !in DefinedFunctions(m)
  {
  }

  /** The weight of each definition, in module order; declarations weigh nothing. */
  function DefinedWeights(m: Module): (s: seq<nat>)
    ensures |s| == |m|
    ensures forall g :: 0 <= g < |m| ==> s[g] == if m[g].isDeclaration then 0 else Weight(m[g])
  {
    seq(|m|, g requires 0 <= g < |m| => if m[g].isDeclaration then 0 else Weight(m[g]))
  }

  ghost function ModuleWeight(m: Module): nat {
    Sum(DefinedWeights(m))
  }

  // ---------------------------------------------------------------------------
  // The number of shards.
  // ---------------------------------------------------------------------------

  const MaxShardWeight: nat := 250000
  const MinShardWeight: nat := 10000

  function DivideCeil(a: nat, b: nat): (r: nat)
    requires b >= 1
    ensures r * b >= a && (r >= 1 ==> (r - 1) * b < a)
  {
    assert (a / b + 1) * b == (a / b) * b + b;
    if a % b == 0 then a / b else a / b + 1
  }

  /** The least multiple of `a` that is at least `v`. */
  function AlignTo(v: nat, a: nat): (r: nat)
    requires a >= 1
    ensures r % a == 0 && v <= r < v + a
  {
    var k := DivideCeil(v, a);
    assert (k * a) % a == 0 by { MulDivCancel(k, a); }
    assert (k - 1) * a == k * a - a;
    k * a
  }

  function ComputeImageShardCount(weight: nat, workers: nat): nat
    requires workers >= 1
  {
    var maxShards := Max(weight / MinShardWeight, 1);
    var shards := Max(DivideCeil(weight, MaxShardWeight), Min(workers, maxShards));
    if shards > workers then Min(AlignTo(shards, workers), Max(shards, maxShards)) else shards
  }

  /**
  The number of shards: as many as there are workers, but at least one for every 250000 and at
  most one for every 10000 of weight.  When the weight demands more shards than there are
  workers, the count is the least sufficient multiple of the workers; the cap is never reached.
   */
  lemma ShardCountExact(weight: nat, workers: nat)
    requires workers >= 1
    ensures var n, least, most :=
              ComputeImageShardCount(weight, workers), (weight + 249999) / 250000, Max(1, weight / 10000);
      && least <= n <= most
      && (least <= workers ==> n == Min(workers, most))
      && (least > workers ==> n % workers == 0 && n < least + workers)
  {
    CeilIsFloor(weight);
  }

  lemma CeilIsFloor(weight: nat)
    ensures DivideCeil(weight, MaxShardWeight) == (weight + 249999) / 250000
  {
  }

  /** No shard need exceed the maximum weight, and more than one shard never averages below the minimum. */
  lemma ShardCountBounds(weight: nat, workers: nat)
    requires workers >= 1
    ensures var n := ComputeImageShardCount(weight, workers);
      && n >= 1
      && weight <= n * 250000
      && (n > 1 ==> n * 10000 <= weight)
  {
    ShardCountExact(weight, workers);
  }
}
