/**
verify_partitioning (src/aotcompile.cpp): the check at the end of partitionModule, against a
definition of what it accepts that does not mention its maps and slots.
 */
module PartitionVerify {
  import opened ModuleInfo
  import opened PartitionNodes

  /** No global is in two partitions. */
  ghost predicate Disjoint(parts: seq<Partition>) {
    forall p, q, g :: 0 <= p < q < |parts| && g in parts[p].globals ==> g !in parts[q].globals
  }

  ghost predicate InSome(parts: seq<Partition>, g: nat) {
    exists p :: 0 <= p < |parts| && g in parts[p].globals
  }

  /** The uses of `g` stay inside its partition, coverage counters apart. */
  ghost predicate UsesInside(parts: seq<Partition>, m: Module, g: nat, users: seq<nat>)
    requires g < |m|
  {
    forall j :: 0 <= j < |users| ==>
      && InSome(parts, users[j])
      && forall p, q ::
           0 <= p < |parts| && 0 <= q < |parts| && users[j] in parts[p].globals && g in parts[q].globals ==>
             p == q || IsCoverageCounter(m[g]) || (users[j] < |m| && IsCoverageCounter(m[users[j]]))
  }

  ghost predicate GlobalOk(parts: seq<Partition>, m: Module, g: nat)
    requires g < |m|
  {
    if m[g].isDeclaration then !InSome(parts, g) else InSome(parts, g) && UsesInside(parts, m, g, m[g].users)
  }

  /** No two entries of the tables share an index. */
  ghost predicate Unshared(tables: seq<map<nat, nat>>) {
    forall p, q, g, h ::
      0 <= p < |tables| && 0 <= q < |tables| && g in tables[p] && h in tables[q] && tables[p][g] == tables[q][h] ==>
        p == q && g == h
  }

  ghost predicate Listed(tables: seq<map<nat, nat>>, i: nat) {
    exists p, g :: 0 <= p < |tables| && g in tables[p] && tables[p][g] == i
  }

  function Fvars(parts: seq<Partition>): (t: seq<map<nat, nat>>)
    ensures |t| == |parts| && forall p :: 0 <= p < |parts| ==> t[p] == parts[p].fvars
  {
    seq(|parts|, p requires 0 <= p < |parts| => parts[p].fvars)
  }

  function Gvars(parts: seq<Partition>): (t: seq<map<nat, nat>>)
    ensures |t| == |parts| && forall p :: 0 <= p < |parts| ==> t[p] == parts[p].gvars
  {
    seq(|parts|, p requires 0 <= p < |parts| => parts[p].gvars)
  }

  /** What verify_partitioning accepts. */
  ghost predicate Acceptable(parts: seq<Partition>, m: Module, fvars: nat, gvars: nat) {
    && Disjoint(parts)
    && (forall g: nat :: g < |m| ==> GlobalOk(parts, m, g))
    && Unshared(Fvars(parts)) && Unshared(Gvars(parts))
    && (forall i: nat :: i < fvars ==> Listed(Fvars(parts), i))
    && (forall i: nat :: i < gvars ==> Listed(Gvars(parts), i))
  }

  /** `names` maps the globals of the partitions to their partition. */
  ghost predicate Names(parts: seq<Partition>, names: map<nat, nat>) {
    && (forall g :: g in names ==> names[g] < |parts| && g in parts[names[g]].globals)
    && (forall p, g :: 0 <= p < |parts| && g in parts[p].globals ==> g in names)
  }

  method CollectNames(parts: seq<Partition>) returns (names: map<nat, nat>, bad: bool)
    ensures Names(parts, names)
    ensures bad <==> !Disjoint(parts)
  {
    names, bad := map[], false;
    for i := 0 to |parts|
      invariant Names(parts[..i], names)
      invariant bad <==> !Disjoint(parts[..i])
    {
      names, bad := CollectPartition(parts, i, names, bad);
    }
    assert parts[..|parts|] == parts;
  }

  method CollectPartition(parts: seq<Partition>, i: nat, names0: map<nat, nat>, bad0: bool) returns (names: map<nat,
                          nat>, bad: bool)
    requires i < |parts| && Names(parts[..i], names0) && (bad0 <==> !Disjoint(parts[..i]))
    ensures Names(parts[..i + 1], names) && (bad <==> !Disjoint(parts[..i + 1]))
  {
    names, bad := names0, bad0;
    var rest := parts[i].globals;
    while rest != {}
      invariant rest <= parts[i].globals
      invariant forall g :: g in names <==> g in names0 || g in parts[i].globals - rest
      invariant forall g :: g in names ==> names[g] == if g in parts[i].globals - rest then i else names0[g]
      invariant bad <==> bad0 || exists g :: g in parts[i].globals - rest && g in names0
      decreases |rest|
    {
      var g :| g in rest;
      if g in names {
        bad := true;
      }
      names := names[g := i];
      rest := rest - {g};
    }
    hide Disjoint, Names;
    NamesStep(parts, i, names0, names);
    DisjointStep(parts, i, names0);
  }

  lemma NamesStep(parts: seq<Partition>, i: nat, names0: map<nat, nat>, names: map<nat, nat>)
    requires i < |parts| && Names(parts[..i], names0)
    requires forall g :: g in names <==> g in names0 || g in parts[i].globals
    requires forall g :: g in names ==> names[g] == if g in parts[i].globals then i else names0[g]
    ensures Names(parts[..i + 1], names)
  {
    assert forall p :: 0 <= p < i ==> parts[..i + 1][p] == parts[..i][p];
  }

  lemma DisjointStep(parts: seq<Partition>, i: nat, names0: map<nat, nat>)
    requires i < |parts| && Names(parts[..i], names0)
    ensures Disjoint(parts[..i + 1]) <==> Disjoint(parts[..i]) && forall g :: g in parts[i].globals ==> g !in names0
  {
    var was, now := parts[..i], parts[..i + 1];
    assert forall p :: 0 <= p < i ==> was[p] == now[p];
    assert now[i] == parts[i];
  }

  /** A slot is marked exactly when its index is listed. */
  ghost predicate Marks(tables: seq<map<nat, nat>>, slots: seq<nat>) {
    forall i: nat :: i < |slots| ==> (slots[i] != 0 <==> Listed(tables, i))
  }

  ghost predicate Fits(tables: seq<map<nat, nat>>, size: nat) {
    forall p, g :: 0 <= p < |tables| && g in tables[p] ==> tables[p][g] < size
  }

  method CollectTable(tables: seq<map<nat, nat>>, size: nat) returns (slots: seq<nat>, bad: bool)
    requires Fits(tables, size)
    ensures |slots| == size && Marks(tables, slots)
    ensures bad <==> !Unshared(tables)
  {
    slots, bad := seq(size, i => 0), false;
    for i := 0 to |tables|
      invariant |slots| == size && Marks(tables[..i], slots)
      invariant bad <==> !Unshared(tables[..i])
    {
      hide Marks, Unshared;
      slots, bad := CollectEntries(tables, i, slots, bad);
    }
    assert tables[..|tables|] == tables;
  }

  method CollectEntries(tables: seq<map<nat, nat>>, i: nat, slots0: seq<nat>, bad0: bool) returns (slots: seq<nat>,
                        bad: bool)
    requires i < |tables| && Fits(tables, |slots0|) && Marks(tables[..i], slots0) && (bad0 <==> !Unshared(tables[..i]))
    ensures |slots| == |slots0| && Marks(tables[..i + 1], slots) && (bad <==> !Unshared(tables[..i + 1]))
  {
    slots, bad := slots0, bad0;
    var table := tables[i];
    var rest := table.Keys;
    assert forall g :: g in table ==> table[g] < |slots0|;
    assert table.Keys - rest == {};
    while rest != {}
      invariant rest <= table.Keys
      invariant Added(table, table.Keys - rest, slots0, slots)
      invariant bad <==> bad0 || Clash(table, table.Keys - rest, slots0)
      decreases |rest|
    {
      hide Clash, Added, Fits, Marks, Unshared;
      var g :| g in rest;
      ghost var before := table.Keys - rest;
      EntryStep(table, before, slots0, slots, g, i + 1);
      if slots[table[g]] != 0 {
        bad := true;
      }
      slots := slots[table[g] := i + 1];
      rest := rest - {g};
      assert table.Keys - rest == before + {g};
    }
    assert table.Keys - rest == table.Keys;
    hide Clash, Unshared, Marks, Fits;
    MarksStep(tables, i, slots0, slots);
    UnsharedStep(tables, i, slots0);
  }

  /** The slots with the indices of the given entries marked as well. */
  ghost predicate Added(table: map<nat, nat>, keys: set<nat>, slots0: seq<nat>, slots: seq<nat>)
    requires keys <= table.Keys
  {
    && |slots| == |slots0|
    && forall v: nat :: v < |slots| ==> (slots[v] != 0 <==> slots0[v] != 0 || exists g :: g in keys && table[g] == v)
  }

  lemma EntryStep(table: map<nat, nat>, keys: set<nat>, slots0: seq<nat>, slots: seq<nat>, g: nat, mark: nat)
    requires keys <= table.Keys && (forall h :: h in table ==> table[h] < |slots0|) && Added(table, keys, slots0, slots)
    requires g in table && g !in keys && mark != 0
    ensures |slots| == |slots0| && Added(table, keys + {g}, slots0, slots[table[g] := mark])
    ensures Clash(table, keys + {g}, slots0) <==> Clash(table, keys, slots0) || slots[table[g]] != 0
  {
  }

  /** Some of the entries share their index with another one of them or with a marked slot. */
  ghost predicate Clash(table: map<nat, nat>, keys: set<nat>, slots: seq<nat>)
    requires keys <= table.Keys && forall g :: g in table ==> table[g] < |slots|
  {
    || (exists g :: g in keys && slots[table[g]] != 0)
    || (exists g, h :: g in keys && h in keys && g != h && table[g] == table[h])
  }

  lemma MarksStep(tables: seq<map<nat, nat>>, i: nat, slots0: seq<nat>, slots: seq<nat>)
    requires i < |tables| && Marks(tables[..i], slots0) && |slots| == |slots0|
    requires forall v: nat :: v < |slots| ==> (slots[v] != 0 <==>
               slots0[v] != 0 || exists g :: g in tables[i] && tables[i][g] == v)
    ensures Marks(tables[..i + 1], slots)
  {
    forall v: nat | v < |slots|
      ensures slots[v] != 0 <==> Listed(tables[..i + 1], v)
    {
      ListedStep(tables, i, v);
    }
  }

  lemma ListedStep(tables: seq<map<nat, nat>>, i: nat, v: nat)
    requires i < |tables|
    ensures Listed(tables[..i + 1], v) <==> Listed(tables[..i], v) || exists g :: g in tables[i] && tables[i][g] == v
  {
    var was, now := tables[..i], tables[..i + 1];
    if Listed(was, v) {
      var p, g :| 0 <= p < |was| && g in was[p] && was[p][g] == v;
      assert g in now[p] && now[p][g] == v;
    }
    if g :| g in tables[i] && tables[i][g] == v {
      assert g in now[i] && now[i][g] == v;
    }
    if Listed(now, v) {
      var p, g :| 0 <= p < |now| && g in now[p] && now[p][g] == v;
      assert p < i ==> g in was[p] && was[p][g] == v;
    }
  }

  lemma UnsharedStep(tables: seq<map<nat, nat>>, i: nat, slots0: seq<nat>)
    requires i < |tables| && Fits(tables, |slots0|) && Marks(tables[..i], slots0)
    ensures Unshared(tables[..i + 1]) <==> Unshared(tables[..i]) && !Clash(tables[i], tables[i].Keys, slots0)
  {
    var was, now := tables[..i], tables[..i + 1];
    if Unshared(now) {
      UnsharedOnlyIf(tables, i, slots0);
    }
    if Unshared(was) && !Clash(tables[i], tables[i].Keys, slots0) {
      forall p, q, g, h | 0 <= p < |now| && 0 <= q < |now| && g in now[p] && h in now[q] && now[p][g] == now[q][h]
        ensures p == q && g == h
      {
        assert p < i ==> now[p] == was[p];
        assert q < i ==> now[q] == was[q];
        assert p < i ==> Listed(was, now[p][g]);
        assert q < i ==> Listed(was, now[q][h]);
      }
    }
  }

  lemma UnsharedOnlyIf(tables: seq<map<nat, nat>>, i: nat, slots0: seq<nat>)
    requires i < |tables| && Fits(tables, |slots0|) && Marks(tables[..i], slots0) && Unshared(tables[..i + 1])
    ensures Unshared(tables[..i]) && !Clash(tables[i], tables[i].Keys, slots0)
  {
    var was, now := tables[..i], tables[..i + 1];
    assert forall p :: 0 <= p < i ==> was[p] == now[p];
    assert now[i] == tables[i];
    forall g | g in tables[i]
      ensures slots0[tables[i][g]] == 0
    {
      if Listed(was, tables[i][g]) {
        assert false;
      }
    }
  }

  // ---------------------------------------------------------------------------

  /**
  The users of one definition.  Looking up a definition that has no partition enters it into
  the map, but by then the partitioning has been found bad.
   */
  method CheckUsers(parts: seq<Partition>, m: Module, names0: map<nat, nat>, g: nat) returns (names: map<nat, nat>,
                    bad: bool)
    requires g < |m| && UsersDefined(m, m[g].users)
    ensures g in names0 && Names(parts, names0) && Disjoint(parts) ==>
              names == names0 && (bad <==> !UsesInside(parts, m, g, m[g].users))
  {
    names, bad := names0, false;
    ghost var sound := g in names0 && Names(parts, names0) && Disjoint(parts);
    hide IsCoverageCounter, Names, Disjoint, UsesInside;
    assert sound ==> UsesInside(parts, m, g, m[g].users[..0]) by { NoUsers(parts, m, g); }
    for j := 0 to |m[g].users|
      invariant sound ==> names == names0
      invariant sound ==> (bad <==> !UsesInside(parts, m, g, m[g].users[..j]))
    {
      var val := m[g].users[j];
      if sound {
        UsesInsideStep(parts, m, names0, g, j);
      }
      if val !in names {
        bad := true;
      } else {
        if g !in names {
          names := names[g := 0];
        }
        if names[val] != names[g] {
          if !IsCoverageCounter(m[g]) && !IsCoverageCounter(m[val]) {
            bad := true;
          }
        }
      }
    }
    assert m[g].users[..|m[g].users|] == m[g].users;
  }

  lemma NoUsers(parts: seq<Partition>, m: Module, g: nat)
    requires g < |m|
    ensures UsesInside(parts, m, g, m[g].users[..0])
  {
  }

  method CheckGlobals(parts: seq<Partition>, m: Module, names0: map<nat, nat>, bad0: bool) returns (bad: bool)
    requires WellFormed(m) && Names(parts, names0) && (bad0 <==> !Disjoint(parts))
    ensures bad <==> !(Disjoint(parts) && forall g: nat :: g < |m| ==> GlobalOk(parts, m, g))
  {
    bad := bad0;
    var names := names0;
    for g := 0 to |m|
      invariant !bad ==> names == names0
      invariant bad <==> !(Disjoint(parts) && forall h: nat :: h < g ==> GlobalOk(parts, m, h))
    {
      hide IsCoverageCounter, Disjoint, Names, UsesInside, InSome, UsersDefined;
      ghost var start := bad;
      InSomeIffNamed(parts, names0, g);
      if m[g].isDeclaration {
        if g in names {
          bad := true;
        }
      } else {
        if g !in names {
          bad := true;
        }
        ghost var was := bad;
        var b: bool;
        names, b := CheckUsers(parts, m, names, g);
        bad := bad || b;
        assert !was ==> (b <==> !UsesInside(parts, m, g, m[g].users));
      }
      assert !start ==> (bad <==> !GlobalOk(parts, m, g));
      assert start ==> bad;
    }
  }

  /** The tables have room for their indices. */
  method VerifyPartitioning(parts: seq<Partition>, m: Module, fvars: nat, gvars: nat) returns (ok: bool)
    requires WellFormed(m) && Fits(Fvars(parts), fvars) && Fits(Gvars(parts), gvars)
    ensures ok <==> Acceptable(parts, m, fvars, gvars)
  {
    var names, bad := CollectNames(parts);
    var fslots, fbad := CollectTable(Fvars(parts), fvars);
    var gslots, gbad := CollectTable(Gvars(parts), gvars);
    hide Disjoint, Unshared, GlobalOk, Names, Fits, Listed, WellFormed;
    bad := CheckGlobals(parts, m, names, bad);
    var fmissing := AnyMissing(Fvars(parts), fslots);
    var gmissing := AnyMissing(Gvars(parts), gslots);
    ok := !(bad || fbad || gbad || fmissing || gmissing);
  }

  method AnyMissing(ghost tables: seq<map<nat, nat>>, slots: seq<nat>) returns (missing: bool)
    requires Marks(tables, slots)
    ensures missing <==> exists i: nat :: i < |slots| && !Listed(tables, i)
  {
    missing := false;
    for i := 0 to |slots|
      invariant missing <==> exists k: nat :: k < i && !Listed(tables, k)
    {
      hide Listed;
      if slots[i] == 0 {
        missing := true;
      }
    }
  }

  lemma UsesInsideStep(parts: seq<Partition>, m: Module, names: map<nat, nat>, g: nat, j: nat)
    requires g < |m| && g in names && UsersDefined(m, m[g].users) && Names(parts, names) && Disjoint(parts)
    requires j < |m[g].users|
    ensures var val := m[g].users[j];
      UsesInside(parts, m, g, m[g].users[..j + 1]) <==>
        && UsesInside(parts, m, g, m[g].users[..j])
        && val in names
        && (names[val] == names[g] || IsCoverageCounter(m[g]) || IsCoverageCounter(m[val]))
  {
    hide IsCoverageCounter;
    var users := m[g].users;
    var val := users[j];
    assert users[..j + 1] == users[..j] + [val];
    InSomeIffNamed(parts, names, val);
    HomeIsUnique(parts, names, g);
    if val in names {
      HomeIsUnique(parts, names, val);
    }
    hide Names, Disjoint, UsersDefined;
    UsesInsideAppend(parts, m, g, users[..j], val);
  }

  lemma UsesInsideAppend(parts: seq<Partition>, m: Module, g: nat, users: seq<nat>, val: nat)
    requires g < |m|
    ensures UsesInside(parts, m, g, users + [val]) <==> UsesInside(parts, m, g, users) && UsesInside(parts, m, g, [val])
  {
    hide IsCoverageCounter, InSome;
    var all := users + [val];
    if UsesInside(parts, m, g, all) {
      assert forall j :: 0 <= j < |users| ==> users[j] == all[j];
      assert all[|users|] == val;
    }
  }

  lemma InSomeIffNamed(parts: seq<Partition>, names: map<nat, nat>, g: nat)
    requires Names(parts, names)
    ensures InSome(parts, g) <==> g in names
  {
  }

  lemma HomeIsUnique(parts: seq<Partition>, names: map<nat, nat>, g: nat)
    requires Names(parts, names) && Disjoint(parts) && g in names
    ensures forall p :: 0 <= p < |parts| ==> (g in parts[p].globals <==> p == names[g])
  {
    var h := names[g];
    assert forall p :: 0 <= p < h ==> g !in parts[p].globals;
    assert forall p :: h < p < |parts| ==> g !in parts[p].globals;
  }
}
