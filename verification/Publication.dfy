/**
 * Dependency-ordered publication: a layered topological sort. The order is a permutation of the publishable
 * packages sorted by (longest prerequisite path, name), and the cycle error is raised exactly for cycles.
 */
module Publication {
  import opened Bytes
  import opened Outcomes

  /** Names as UTF-8 bytes, whose order is the order of the strings. */
  type Name = seq<byte>
  type Graph = map<Name, set<Name>>

  /** Every prerequisite is itself a publishable package. */
  ghost predicate Closed(g: Graph) {
    forall n :: n in g ==> g[n] <= g.Keys
  }

  // ---------------------------------------------------------------- paths, cycles and ranks

  predicate Needs(g: Graph, n: Name, m: Name) {
    n in g && m in g[n]
  }

  /** There is a chain of k prerequisites below n. */
  ghost predicate HasPath(g: Graph, n: Name, k: nat)
    decreases k
  {
    n in g && (k > 0 ==> exists m :: Needs(g, n, m) && HasPath(g, m, k - 1))
  }

  /** n's longest prerequisite path has k steps. */
  ghost predicate Rank(g: Graph, n: Name, k: nat) {
    HasPath(g, n, k) && !HasPath(g, n, k + 1)
  }

  ghost predicate Walk(g: Graph, p: seq<Name>) {
    p != [] && p[0] in g && forall i :: 0 < i < |p| ==> Needs(g, p[i - 1], p[i])
  }

  ghost predicate Cyclic(g: Graph) {
    exists p :: Walk(g, p) && |p| > 1 && p[0] == p[|p| - 1]
  }

  lemma {:induction false} PathShortens(g: Graph, n: Name, k: nat)
    requires HasPath(g, n, k + 1)
    ensures HasPath(g, n, k)
    decreases k
  {
    if k > 0 {
      var m :| Needs(g, n, m) && HasPath(g, m, k);
      PathShortens(g, m, k - 1);
    }
  }

  lemma {:induction false} PathsShorten(g: Graph, n: Name, j: nat, k: nat)
    requires j <= k && HasPath(g, n, k)
    ensures HasPath(g, n, j)
    decreases k
  {
    if j < k {
      PathShortens(g, n, k - 1);
      PathsShorten(g, n, j, k - 1);
    }
  }

  lemma RankUnique(g: Graph, n: Name, j: nat, k: nat)
    requires Rank(g, n, j) && Rank(g, n, k)
    ensures j == k
  {
    hide HasPath;
    if j < k { PathsShorten(g, n, j + 1, k); }
    if k < j { PathsShorten(g, n, k + 1, j); }
  }

  /** A prerequisite ranks strictly below its dependent. */
  lemma PrerequisiteRanksBelow(g: Graph, n: Name, m: Name, j: nat, k: nat)
    requires Needs(g, n, m) && Rank(g, n, k) && Rank(g, m, j)
    ensures j < k
  {
    if j >= k { PathsShorten(g, m, k, j); }
  }

  /** On a cycle prerequisite chains never end. */
  lemma {:induction false} CycleHasPaths(g: Graph, p: seq<Name>, i: nat, k: nat)
    requires Walk(g, p) && |p| > 1 && p[0] == p[|p| - 1] && i < |p|
    ensures HasPath(g, p[i], k)
    decreases k
  {
    assert p[i] in g by {
      if i == |p| - 1 { assert p[i] == p[0]; } else { assert Needs(g, p[i], p[i + 1]); }
    }
    if k > 0 {
      if i == |p| - 1 {
        CycleHasPaths(g, p, 1, k - 1);
        assert Needs(g, p[0], p[1]);
      } else {
        CycleHasPaths(g, p, i + 1, k - 1);
      }
    }
  }

  lemma WalkExtends(g: Graph, p: seq<Name>, m: Name)
    requires Walk(g, p) && Needs(g, p[|p| - 1], m)
    ensures Walk(g, p + [m])
  {
    hide Needs;
    var q := p + [m];
    forall j | 0 < j < |q| ensures Needs(g, q[j - 1], q[j]) { if j < |p| { assert Needs(g, p[j - 1], p[j]); } }
  }

  lemma WalkCloses(g: Graph, p: seq<Name>, i: nat)
    requires Walk(g, p) && i < |p| - 1 && p[i] == p[|p| - 1]
    ensures Cyclic(g)
  {
    hide Needs;
    var c := p[i..];
    forall j | 0 < j < |c| ensures Needs(g, c[j - 1], c[j]) { assert Needs(g, p[i + j - 1], p[i + j]); }
    assert c[0] in g by { NeedsKnown(g, c[0], c[1]); }
    assert Walk(g, c) && |c| > 1 && c[0] == c[|c| - 1];
  }

  lemma NeedsKnown(g: Graph, n: Name, m: Name)
    requires Needs(g, n, m)
    ensures n in g
  {}

  ghost predicate Stuck(g: Graph, stuck: set<Name>) {
    stuck <= g.Keys && forall n :: n in stuck ==> Blocked(g, stuck, n)
  }

  ghost predicate Blocked(g: Graph, stuck: set<Name>, n: Name) {
    exists m :: Needs(g, n, m) && m in stuck
  }

  /** If every package of a finite set has a prerequisite in that set, there is a cycle. */
  lemma {:induction false} StuckIsCyclic(g: Graph, stuck: set<Name>, p: seq<Name>)
    requires Stuck(g, stuck) && Walk(g, p) && p != [] && Elements(p) <= stuck
    ensures Cyclic(g)
    decreases |stuck - Elements(p)|
  {
    hide Walk, Cyclic, Needs, Elements, Stuck;
    LastIn(p);
    var m := NextStuck(g, stuck, p[|p| - 1]);
    WalkExtends(g, p, m);
    if m in Elements(p) {
      var i := IndexOf(p, m);
      WalkCloses(g, p + [m], i);
    } else {
      ElementsGrow(p, m);
      FewerLeft(stuck, Elements(p), m);
      StuckIsCyclic(g, stuck, p + [m]);
    }
  }

  lemma NextStuck(g: Graph, stuck: set<Name>, n: Name) returns (m: Name)
    requires Stuck(g, stuck) && n in stuck
    ensures Needs(g, n, m) && m in stuck
  {
    assert Blocked(g, stuck, n);
    m :| Needs(g, n, m) && m in stuck;
  }

  lemma FewerLeft(all: set<Name>, seen: set<Name>, m: Name)
    requires m in all && m !in seen
    ensures |all - (seen + {m})| < |all - seen|
  {
    assert all - (seen + {m}) == (all - seen) - {m};
  }

  lemma LastIn(p: seq<Name>)
    requires p != []
    ensures p[|p| - 1] in Elements(p)
  {}

  lemma IndexOf(p: seq<Name>, m: Name) returns (i: nat)
    requires m in Elements(p)
    ensures i < |p| && p[i] == m
  {
    i :| 0 <= i < |p| && p[i] == m;
  }

  lemma ElementsGrow(p: seq<Name>, m: Name)
    ensures Elements(p + [m]) == Elements(p) + {m}
  {}

  function Elements(s: seq<Name>): set<Name> {
    set x | x in s
  }

  // ---------------------------------------------------------------- sorted layers

  ghost predicate Ascending(s: seq<Name>) {
    forall i, j :: 0 <= i < j < |s| ==> Less(s[i], s[j])
  }

  method Smallest(names: set<Name>) returns (n: Name)
    requires names != {}
    ensures n in names && forall m :: m in names && m != n ==> Less(n, m)
  {
    n :| n in names;
    var rest := names - {n};
    while rest != {}
      invariant n in names && rest <= names && n !in rest
      invariant forall m :: m in names && m != n && m !in rest ==> Less(n, m)
      decreases |rest|
    {
      var m :| m in rest;
      LessTotal(m, n);
      if Less(m, n) {
        forall x | x in names && x != n && x != m && x !in rest ensures Less(m, x) { LessTransitive(m, n, x); }
        n := m;
      }
      rest := rest - {m};
    }
  }

  lemma EmptyElements()
    ensures Elements([]) == {} && Ascending([])
  {}

  lemma AscendingGrows(s: seq<Name>, n: Name)
    requires Ascending(s) && forall i :: 0 <= i < |s| ==> Less(s[i], n)
    ensures Ascending(s + [n])
  {
    hide Less;
  }

  /** sorted(names) */
  method Sorted(names: set<Name>) returns (s: seq<Name>)
    ensures Ascending(s) && Elements(s) == names
  {
    hide Less, Elements, Ascending;
    s := [];
    var rest := names;
    EmptyElements();
    while rest != {}
      invariant rest <= names && Ascending(s) && Elements(s) == names - rest
      invariant forall i, m :: 0 <= i < |s| && m in rest ==> Less(s[i], m)
      decreases |rest|
    {
      var n := Smallest(rest);
      ElementsGrow(s, n);
      AscendingGrows(s, n);
      s, rest := s + [n], rest - {n};
    }
  }

  // ---------------------------------------------------------------- the layered sort

  /** Sorted by rank, then name. */
  ghost predicate Before(g: Graph, a: Name, b: Name) {
    exists j: nat, k: nat :: Rank(g, a, j) && Rank(g, b, k) && (j < k || (j == k && Less(a, b)))
  }

  ghost predicate RankOrdered(g: Graph, order: seq<Name>) {
    forall i, j :: 0 <= i < j < |order| ==> Before(g, order[i], order[j])
  }

  /** After k rounds: exactly the packages of rank below k are placed, and what remains waits only on what remains. */
  ghost predicate Layered(g: Graph, k: nat, order: seq<Name>, remaining: Graph) {
    && (forall n :: n in remaining <==> HasPath(g, n, k))
    && (forall n :: n in remaining ==> n in g && remaining[n] == g[n] * remaining.Keys)
    && Elements(order) == g.Keys - remaining.Keys
    && (forall i :: 0 <= i < |order| ==> PlacedBelow(g, order[i], k))
    && RankOrdered(g, order)
  }

  ghost predicate PlacedBelow(g: Graph, n: Name, k: nat) {
    exists j: nat :: j < k && Rank(g, n, j)
  }

  /** The packages ready in round k are exactly those of rank k. */
  lemma ReadyIsRank(g: Graph, k: nat, order: seq<Name>, remaining: Graph, n: Name)
    requires Closed(g) && Layered(g, k, order, remaining)
    ensures n in remaining && remaining[n] == {} <==> Rank(g, n, k)
  {
    hide RankOrdered, PlacedBelow;
    if n in remaining {
      assert HasPath(g, n, k);
      if HasPath(g, n, k + 1) {
        var m :| Needs(g, n, m) && HasPath(g, m, k);
        assert m in remaining[n];
      }
      if m :| m in remaining[n] { assert Needs(g, n, m) && HasPath(g, m, k); }
    }
  }

  lemma LayerGrows(g: Graph, k: nat, order: seq<Name>, layer: seq<Name>)
    requires RankOrdered(g, order) && (forall i :: 0 <= i < |order| ==> PlacedBelow(g, order[i], k))
    requires Ascending(layer) && forall i :: 0 <= i < |layer| ==> Rank(g, layer[i], k)
    ensures RankOrdered(g, order + layer)
    ensures forall i :: 0 <= i < |order + layer| ==> PlacedBelow(g, (order + layer)[i], k + 1)
  {
    hide Rank, Less;
    var s := order + layer;
    forall i | 0 <= i < |s| ensures PlacedBelow(g, s[i], k + 1) {
      if i < |order| {
        assert PlacedBelow(g, order[i], k);
        var j: nat :| j < k && Rank(g, order[i], j);
      } else {
        assert Rank(g, layer[i - |order|], k);
      }
    }
    forall i, j | 0 <= i < j < |s| ensures Before(g, s[i], s[j]) {
      if j < |order| { assert Before(g, order[i], order[j]); }
      else if i < |order| {
        assert PlacedBelow(g, order[i], k);
        var r: nat :| r < k && Rank(g, order[i], r);
        assert Rank(g, layer[j - |order|], k);
      } else {
        assert Rank(g, layer[i - |order|], k) && Rank(g, layer[j - |order|], k);
      }
    }
  }

  /** A round with something ready leads to the next layer. */
  lemma RoundAdvances(g: Graph, k: nat, order: seq<Name>, remaining: Graph, layer: seq<Name>, left: Graph)
    requires Closed(g) && Layered(g, k, order, remaining) && Ascending(layer)
    requires forall n :: n in layer <==> n in remaining && remaining[n] == {}
    requires left.Keys == remaining.Keys - Elements(layer)
             && forall n :: n in left ==> left[n] == remaining[n] - Elements(layer)
    ensures Layered(g, k + 1, order + layer, left)
  {
    hide RankOrdered, PlacedBelow, Ascending, HasPath, Closed, Rank, Elements;
    assert forall n :: n in layer <==> n in Elements(layer) by { ElementsAre(layer); }
    forall i | 0 <= i < |layer| ensures Rank(g, layer[i], k) {
      assert layer[i] in layer;
      ReadyIsRank(g, k, order, remaining, layer[i]);
    }
    LayerGrows(g, k, order, layer);
    forall n ensures n in left <==> HasPath(g, n, k + 1) {
      ReadyIsRank(g, k, order, remaining, n);
      RankOrLonger(g, n, k);
    }
    ElementsJoin(order, layer);
    forall n | n in left ensures left[n] == g[n] * left.Keys { assert remaining[n] == g[n] * remaining.Keys; }
  }

  lemma ElementsAre(s: seq<Name>)
    ensures forall n :: n in s <==> n in Elements(s)
  {}

  lemma ElementsJoin(a: seq<Name>, b: seq<Name>)
    ensures Elements(a + b) == Elements(a) + Elements(b)
  {}

  lemma RankOrLonger(g: Graph, n: Name, k: nat)
    ensures HasPath(g, n, k + 1) <==> HasPath(g, n, k) && !Rank(g, n, k)
  {
    hide HasPath;
    if HasPath(g, n, k + 1) { PathShortens(g, n, k); }
  }

  /** A round with nothing ready: every remaining package waits on a remaining one. */
  lemma NothingReady(g: Graph, k: nat, order: seq<Name>, remaining: Graph)
    requires Closed(g) && Layered(g, k, order, remaining) && remaining != map[]
             && forall n :: n in remaining ==> remaining[n] != {}
    ensures Cyclic(g)
  {
    hide Layered, Walk, Cyclic, Needs, Elements, Closed;
    forall n | n in remaining.Keys ensures Blocked(g, remaining.Keys, n) {
      var m :| m in remaining[n];
      WaitsInside(g, k, order, remaining, n, m);
    }
    RemainingStored(g, k, order, remaining);
    var n :| n in remaining;
    OneStep(g, n);
    StuckIsCyclic(g, remaining.Keys, [n]);
  }

  lemma WaitsInside(g: Graph, k: nat, order: seq<Name>, remaining: Graph, n: Name, m: Name)
    requires Layered(g, k, order, remaining) && n in remaining && m in remaining[n]
    ensures Needs(g, n, m) && m in remaining.Keys
  {
    hide RankOrdered, PlacedBelow, HasPath;
  }

  lemma RemainingStored(g: Graph, k: nat, order: seq<Name>, remaining: Graph)
    requires Layered(g, k, order, remaining)
    ensures remaining.Keys <= g.Keys
  {
    hide RankOrdered, PlacedBelow, HasPath;
  }

  lemma OneStep(g: Graph, n: Name)
    requires n in g
    ensures Walk(g, [n]) && Elements([n]) == {n}
  {}

  /** What the plan promises: a permutation of the packages, ordered by longest prerequisite path and name. */
  ghost predicate IsPlan(g: Graph, order: seq<Name>) {
    Elements(order) == g.Keys && RankOrdered(g, order)
  }

  lemma DoneIsPlan(g: Graph, k: nat, order: seq<Name>, remaining: Graph)
    requires Layered(g, k, order, remaining) && remaining == map[]
    ensures IsPlan(g, order) && !Cyclic(g)
  {
    hide RankOrdered, PlacedBelow, HasPath;
    if Cyclic(g) {
      var p :| Walk(g, p) && |p| > 1 && p[0] == p[|p| - 1];
      CycleHasPaths(g, p, 0, k);
    }
  }

  lemma Start(g: Graph)
    requires Closed(g)
    ensures Layered(g, 0, [], g)
  {
    forall n | n in g ensures g[n] == g[n] * g.Keys {}
  }

  /** difference_update over the packages left after a round. */
  function DropReady(remaining: Graph, ready: set<Name>): Graph {
    map n | n in remaining.Keys - ready :: remaining[n] - ready
  }

  /** The while loop of publication_order. */
  method OrderGraph(g: Graph) returns (result: Result<seq<Name>>)
    requires Closed(g)
    ensures result.Accepted? <==> !Cyclic(g)
    ensures result.Accepted? ==> IsPlan(g, result.value)
  {
    hide Layered, Cyclic, IsPlan, Closed, Ascending;
    var order: seq<Name>, remaining := [], g;
    ghost var k := 0;
    Start(g);
    while remaining != map[]
      invariant Layered(g, k, order, remaining)
      decreases |remaining|
    {
      var ready := set n | n in remaining && remaining[n] == {};
      if ready == {} {
        forall n | n in remaining ensures remaining[n] != {} { assert n !in ready; }
        NothingReady(g, k, order, remaining);
        return Rejected;
      }
      var layer := Sorted(ready);
      var left := DropReady(remaining, ready);
      forall n ensures n in layer <==> n in ready { assert n in Elements(layer) <==> n in layer; }
      RoundAdvances(g, k, order, remaining, layer, left);
      Shrinks(remaining, ready);
      order, remaining, k := order + layer, left, k + 1;
    }
    DoneIsPlan(g, k, order, remaining);
    return Accepted(order);
  }

  lemma Shrinks(remaining: Graph, ready: set<Name>)
    requires ready != {} && ready <= remaining.Keys
    ensures |DropReady(remaining, ready)| < |remaining|
  {
    var left := DropReady(remaining, ready);
    assert left.Keys == remaining.Keys - ready;
    assert |left.Keys| + |ready| == |remaining.Keys|;
  }

  // ---------------------------------------------------------------- what a plan is

  lemma BeforeIrreflexive(g: Graph, a: Name)
    ensures !Before(g, a, a)
  {
    if Before(g, a, a) {
      var j: nat, k: nat :| Rank(g, a, j) && Rank(g, a, k) && (j < k || (j == k && Less(a, a)));
      RankUnique(g, a, j, k);
      LessIrreflexive(a);
    }
  }

  lemma BeforeAsymmetric(g: Graph, a: Name, b: Name)
    requires Before(g, a, b)
    ensures !Before(g, b, a)
  {
    hide Rank;
    var j: nat, k: nat :| Rank(g, a, j) && Rank(g, b, k) && (j < k || (j == k && Less(a, b)));
    if Before(g, b, a) {
      var k': nat, j': nat :| Rank(g, b, k') && Rank(g, a, j') && (k' < j' || (k' == j' && Less(b, a)));
      RankUnique(g, a, j, j');
      RankUnique(g, b, k, k');
      if Less(a, b) { LessAsymmetric(a, b); }
    }
  }

  /** No package occurs twice in a plan. */
  lemma NoPackageTwice(g: Graph, order: seq<Name>, x: nat, y: nat)
    requires IsPlan(g, order) && x < y < |order|
    ensures order[x] != order[y]
  {
    hide Before;
    assert Before(g, order[x], order[y]);
    BeforeIrreflexive(g, order[x]);
  }

  /** Every prerequisite comes earlier in a plan. */
  lemma PrerequisitesFirst(g: Graph, order: seq<Name>, i: nat, m: Name) returns (j: nat)
    requires Closed(g) && !Cyclic(g) && IsPlan(g, order) && i < |order| && order[i] in g && m in g[order[i]]
    ensures j < i && order[j] == m
  {
    hide Rank, Closed;
    assert order[i] in Elements(order);
    assert m in Elements(order) by { ClosedAt(g, order[i], m); }
    j :| 0 <= j < |order| && order[j] == m;
    if j == i {
      SelfIsCyclic(g, m);
    } else if i < j {
      assert Before(g, order[i], order[j]);
      var a: nat, b: nat :| Rank(g, order[i], a) && Rank(g, order[j], b)
      && (a < b || (a == b && Less(order[i], order[j])));
      PrerequisiteRanksBelow(g, order[i], m, b, a);
    }
  }

  lemma SelfIsCyclic(g: Graph, m: Name)
    requires Needs(g, m, m)
    ensures Cyclic(g)
  {
    assert Walk(g, [m, m]);
  }

  lemma ClosedAt(g: Graph, n: Name, m: Name)
    requires Closed(g) && n in g && m in g[n]
    ensures m in g
  {}

  lemma PlacedAt(order: seq<Name>, k: nat, n: Name, same: seq<Name>) returns (i: nat)
    requires n in order && k < |same| && n == same[k] && k <= |order| && order[..k] == same[..k]
    requires forall x, y :: 0 <= x < y < |same| ==> same[x] != same[y]
    ensures k <= i < |order| && order[i] == n
  {
    i :| 0 <= i < |order| && order[i] == n;
    assert forall x :: 0 <= x < k ==> order[x] == order[..k][x] == same[..k][x] == same[x];
  }

  /** Two plans of one graph agree on every prefix. */
  lemma {:induction false} PlanIsUnique(g: Graph, a: seq<Name>, b: seq<Name>, k: nat)
    requires IsPlan(g, a) && IsPlan(g, b) && k <= |a|
    ensures k <= |b| && a[..k] == b[..k]
    decreases k
  {
    hide Before;
    if k > 0 {
      PlanIsUnique(g, a, b, k - 1);
      forall x, y | 0 <= x < y < |a| ensures a[x] != a[y] { NoPackageTwice(g, a, x, y); }
      forall x, y | 0 <= x < y < |b| ensures b[x] != b[y] { NoPackageTwice(g, b, x, y); }
      assert a[k - 1] in Elements(a);
      assert a[k - 1] in Elements(b);
      var i := PlacedAt(b, k - 1, a[k - 1], a);
      if i > k - 1 {
        assert b[k - 1] in Elements(b);
        assert b[k - 1] in Elements(a);
        var j := PlacedAt(a, k - 1, b[k - 1], b);
        assert Before(g, b[k - 1], b[i]);
        if j > k - 1 {
          assert Before(g, a[k - 1], a[j]);
          BeforeAsymmetric(g, a[k - 1], b[k - 1]);
        }
      }
      assert a[..k] == a[..k - 1] + [a[k - 1]] && b[..k] == b[..k - 1] + [b[k - 1]];
    }
  }

  /** A graph has only one plan. */
  lemma PlansAgree(g: Graph, a: seq<Name>, b: seq<Name>)
    requires IsPlan(g, a) && IsPlan(g, b)
    ensures a == b
  {
    hide IsPlan;
    PlanIsUnique(g, a, b, |a|);
    PlanIsUnique(g, b, a, |b|);
    assert a[..|a|] == a && b[..|b|] == b;
  }

  // ---------------------------------------------------------------- reading the workspace

  datatype Kind = Unspecified | Normal | Build | Dev | Unknown
  datatype Dependency = Dependency(name: Name, requirement: seq<byte>, kind: Kind)

  /** A package: whether it is a workspace member, comes from a registry, or opts out of publication. */
  datatype Package = Package(member: bool, sourced: bool, optsOut: bool, name: Name, version: seq<byte>,
                             dependencies: seq<Dependency>)

  predicate Candidate(p: Package) {
    p.member && !p.sourced && !p.optsOut
  }

  /** The publishable packages by name, or an error for a bad name, a duplicate or another version. */
  function Collect(packages: seq<Package>, version: seq<byte>): Result<map<Name, Package>> {
    if packages == [] then Accepted(map[])
    else
      var p := packages[|packages| - 1];
      var before :- Collect(packages[..|packages| - 1], version);
      if !Candidate(p) then Accepted(before)
      else
        var _ :- Check(p.name != [] && p.name !in before && p.version == version);
        Accepted(before[p.name := p])
  }

  /** Every candidate has a name and the given version, and no two candidates share a name. */
  ghost predicate Selectable(packages: seq<Package>, version: seq<byte>) {
    && (forall i :: 0 <= i < |packages| && Candidate(packages[i]) ==>
          packages[i].name != [] && packages[i].version == version)
    && (forall i, j :: 0 <= i < j < |packages| && Candidate(packages[i]) && Candidate(packages[j]) ==>
          packages[i].name != packages[j].name)
  }

  /** The map holds exactly the candidates, each under its own name. */
  ghost predicate HoldsCandidates(packages: seq<Package>, selected: map<Name, Package>) {
    && (forall p :: p in packages && Candidate(p) ==> p.name in selected && selected[p.name] == p)
    && (forall n :: n in selected ==> selected[n] in packages && Candidate(selected[n]) && selected[n].name == n)
  }

  /** The selection succeeds exactly for selectable lists, and then holds exactly the candidates by name. */
  lemma {:induction false} CollectIs(packages: seq<Package>, version: seq<byte>)
    ensures Collect(packages, version).Accepted? <==> Selectable(packages, version)
    ensures Collect(packages, version).Accepted? ==> HoldsCandidates(packages, Collect(packages, version).value)
  {
    hide Selectable, HoldsCandidates, Candidate;
    if packages == [] {
      NothingSelected(version);
    } else {
      var init, last := packages[..|packages| - 1], packages[|packages| - 1];
      assert packages == init + [last];
      CollectIs(init, version);
      SelectablePrefix(init, last, version);
      if Collect(init, version).Accepted? {
        var before := Collect(init, version).value;
        SelectableStep(init, last, before, version);
        if !Candidate(last) || last.name !in before { HoldsStep(init, last, before); }
      }
    }
  }

  lemma NothingSelected(version: seq<byte>)
    ensures Selectable([], version) && HoldsCandidates([], map[])
  {}

  lemma SelectablePrefix(init: seq<Package>, last: Package, version: seq<byte>)
    ensures Selectable(init + [last], version) ==> Selectable(init, version)
  {
    hide Candidate;
    assert forall i :: 0 <= i < |init| ==> (init + [last])[i] == init[i];
  }

  /** One more package keeps a list selectable iff it is no candidate or has a free name and the version. */
  lemma SelectableStep(init: seq<Package>, last: Package, before: map<Name, Package>, version: seq<byte>)
    requires HoldsCandidates(init, before) && Selectable(init, version)
    ensures Selectable(init + [last], version) <==>
            (Candidate(last) ==> last.name != [] && last.name !in before && last.version == version)
  {
    hide Candidate, HoldsCandidates;
    var packages, n := init + [last], |init|;
    assert packages[n] == last && forall i :: 0 <= i < n ==> packages[i] == init[i];
    if Candidate(last) && last.name in before {
      var i := EarlierCandidate(init, before, last.name);
      assert Candidate(packages[i]) && packages[i].name == packages[n].name;
    } else if Candidate(last) {
      forall i | 0 <= i < n && Candidate(init[i]) ensures init[i].name != last.name { CandidateHeld(init, before, i); }
    }
  }

  /** A taken name belongs to an earlier candidate. */
  lemma EarlierCandidate(init: seq<Package>, before: map<Name, Package>, name: Name) returns (i: nat)
    requires HoldsCandidates(init, before) && name in before
    ensures i < |init| && Candidate(init[i]) && init[i].name == name
  {
    i :| 0 <= i < |init| && init[i] == before[name];
  }

  lemma CandidateHeld(init: seq<Package>, before: map<Name, Package>, i: nat)
    requires HoldsCandidates(init, before) && i < |init| && Candidate(init[i])
    ensures init[i].name in before
  {
    assert init[i] in init;
  }

  /** The map extended by a candidate of a free name holds the longer list. */
  lemma HoldsStep(init: seq<Package>, last: Package, before: map<Name, Package>)
    requires HoldsCandidates(init, before) && (Candidate(last) ==> last.name !in before)
    ensures HoldsCandidates(init + [last], if Candidate(last) then before[last.name := last] else before)
  {
    hide Candidate;
    forall p | p in init + [last] && Candidate(p) ensures p == last || (p.name in before && before[p.name] == p) {
      if p != last { assert p in init; }
    }
  }

  /** The same condition without positions: each candidate occurs once, and different candidates differ in name. */
  ghost predicate SelectableBag(bag: multiset<Package>, version: seq<byte>) {
    && (forall p :: p in bag && Candidate(p) ==> p.name != [] && p.version == version && bag[p] == 1)
    && (forall p, q :: p in bag && q in bag && Candidate(p) && Candidate(q) && p != q ==> p.name != q.name)
  }

  lemma {:induction false} OccursTwice(packages: seq<Package>, i: nat, j: nat)
    requires i < j < |packages| && packages[i] == packages[j]
    ensures multiset(packages)[packages[i]] >= 2
  {
    var p := packages[i];
    assert packages == packages[..j] + [p] + packages[j + 1..];
    assert packages[..j][i] == p;
    assert multiset(packages[..j])[p] >= 1;
    assert multiset(packages) == multiset(packages[..j]) + multiset{p} + multiset(packages[j + 1..]);
  }

  lemma OccursOnce(packages: seq<Package>, i: nat)
    requires i < |packages| && forall j :: 0 <= j < |packages| && j != i ==> packages[j] != packages[i]
    ensures multiset(packages)[packages[i]] == 1
  {
    var p := packages[i];
    assert packages == packages[..i] + [p] + packages[i + 1..];
    assert p !in packages[..i] && p !in packages[i + 1..];
    assert multiset(packages) == multiset(packages[..i]) + multiset{p} + multiset(packages[i + 1..]);
  }

  lemma SelectableIsBag(packages: seq<Package>, version: seq<byte>)
    ensures Selectable(packages, version) <==> SelectableBag(multiset(packages), version)
  {
    hide Candidate;
    var bag := multiset(packages);
    if Selectable(packages, version) {
      forall p | p in bag && Candidate(p) ensures p.name != [] && p.version == version && bag[p] == 1 {
        var i :| 0 <= i < |packages| && packages[i] == p;
        OccursOnce(packages, i);
      }
      forall p, q | p in bag && q in bag && Candidate(p) && Candidate(q) && p != q ensures p.name != q.name {
        var i :| 0 <= i < |packages| && packages[i] == p;
        var j :| 0 <= j < |packages| && packages[j] == q;
      }
    }
    if SelectableBag(bag, version) {
      forall i | 0 <= i < |packages| && Candidate(packages[i])
        ensures packages[i].name != [] && packages[i].version == version
      {
        assert packages[i] in bag;
      }
      forall i, j | 0 <= i < j < |packages| && Candidate(packages[i]) && Candidate(packages[j])
        ensures packages[i].name != packages[j].name
      {
        assert packages[i] in bag && packages[j] in bag;
        if packages[i] == packages[j] { OccursTwice(packages, i, j); }
      }
    }
  }

  /** Reordering the packages changes neither whether the selection succeeds nor what it holds. */
  lemma CollectIgnoresOrder(packages: seq<Package>, packages': seq<Package>, version: seq<byte>)
    requires multiset(packages) == multiset(packages')
    ensures Collect(packages, version) == Collect(packages', version)
  {
    hide Collect, Candidate, Selectable, SelectableBag;
    CollectIs(packages, version);
    CollectIs(packages', version);
    SelectableIsBag(packages, version);
    SelectableIsBag(packages', version);
    assert forall p :: p in packages <==> p in multiset(packages);
    assert forall p :: p in packages' <==> p in multiset(packages');
    if Collect(packages, version).Accepted? {
      assert Collect(packages, version).value == Collect(packages', version).value;
    }
  }

  function Pin(version: seq<byte>): seq<byte> {
    Ascii("^") + version
  }

  /** The non-dev workspace dependencies of one package, each of which must be pinned to the version. */
  function PrerequisitesOf(names: set<Name>, dependencies: seq<Dependency>, version: seq<byte>): (r: Result<set<Name>>)
    ensures r.Accepted? ==> r.value <= names
  {
    if dependencies == [] then Accepted({})
    else
      var d := dependencies[|dependencies| - 1];
      var before :- PrerequisitesOf(names, dependencies[..|dependencies| - 1], version);
      if d.name !in names then Accepted(before)
      else
        var _ :- Check(d.requirement == Pin(version) && d.kind != Unknown);
        Accepted(if d.kind == Dev then before else before + {d.name})
  }

  /** The prerequisites are exactly the workspace packages some non-dev dependency names. */
  lemma {:induction false} PrerequisitesAre(names: set<Name>, dependencies: seq<Dependency>, version: seq<byte>,
                                            n: Name)
    requires PrerequisitesOf(names, dependencies, version).Accepted?
    ensures n in PrerequisitesOf(names, dependencies, version).value <==>
            n in names && Wanted(dependencies, n)
    decreases |dependencies|
  {
    if dependencies != [] {
      var last := |dependencies| - 1;
      PrerequisitesAre(names, dependencies[..last], version, n);
      if n in PrerequisitesOf(names, dependencies[..last], version).value {
        var i :| 0 <= i < last && dependencies[..last][i].name == n && dependencies[..last][i].kind != Dev;
        assert dependencies[i].name == n;
      }
      if i :| 0 <= i < last && dependencies[i].name == n && dependencies[i].kind != Dev {
        assert dependencies[..last][i].name == n;
      }
    }
  }

  /** They are found exactly when every dependency on a workspace package is pinned and of a known kind. */
  lemma {:induction false} PrerequisitesAccepted(names: set<Name>, dependencies: seq<Dependency>, version: seq<byte>)
    ensures PrerequisitesOf(names, dependencies, version).Accepted? <==>
            forall i :: 0 <= i < |dependencies| && dependencies[i].name in names ==>
              dependencies[i].requirement == Pin(version) && dependencies[i].kind != Unknown
    decreases |dependencies|
  {
    hide Pin;
    if dependencies != [] {
      var last := |dependencies| - 1;
      PrerequisitesAccepted(names, dependencies[..last], version);
      assert forall i :: 0 <= i < last ==> dependencies[..last][i] == dependencies[i];
    }
  }

  /** The order in which a package lists its dependencies does not matter, nor how often it lists one. */
  lemma PrerequisitesIgnoreOrder(names: set<Name>, ds: seq<Dependency>, ds': seq<Dependency>, version: seq<byte>)
    requires forall d :: d in ds <==> d in ds'
    ensures PrerequisitesOf(names, ds, version) == PrerequisitesOf(names, ds', version)
  {
    hide PrerequisitesOf, Pin;
    PrerequisitesAccepted(names, ds, version);
    PrerequisitesAccepted(names, ds', version);
    var r, r' := PrerequisitesOf(names, ds, version), PrerequisitesOf(names, ds', version);
    assert r.Accepted? ==> forall d :: d in ds && d.name in names ==>
             d.requirement == Pin(version) && d.kind != Unknown;
    assert r'.Accepted? ==> forall d :: d in ds' && d.name in names ==>
             d.requirement == Pin(version) && d.kind != Unknown;
    if r.Accepted? && r'.Accepted? {
      forall n ensures n in r.value <==> n in r'.value {
        PrerequisitesAre(names, ds, version, n);
        PrerequisitesAre(names, ds', version, n);
        SameNames(ds, ds', n);
        SameNames(ds', ds, n);
      }
      assert r.value == r'.value;
    }
  }

  /** Some non-dev dependency names n. */
  ghost predicate Wanted(ds: seq<Dependency>, n: Name) {
    exists i :: 0 <= i < |ds| && ds[i].name == n && ds[i].kind != Dev
  }

  lemma SameNames(ds: seq<Dependency>, ds': seq<Dependency>, n: Name)
    requires forall d :: d in ds ==> d in ds'
    ensures Wanted(ds, n) ==> Wanted(ds', n)
  {
    if Wanted(ds, n) {
      var i :| 0 <= i < |ds| && ds[i].name == n && ds[i].kind != Dev;
      assert ds[i] in ds;
      var j :| 0 <= j < |ds'| && ds'[j] == ds[i];
    }
  }

  ghost predicate GraphOk(packages: map<Name, Package>, version: seq<byte>) {
    forall n :: n in packages ==> PrerequisitesOf(packages.Keys, packages[n].dependencies, version).Accepted?
  }

  /** The prerequisite graph of a workspace whose dependencies are all acceptable. */
  ghost function GraphOf(packages: map<Name, Package>, version: seq<byte>): (g: Graph)
    requires GraphOk(packages, version)
    ensures Closed(g) && g.Keys == packages.Keys
  {
    map n | n in packages :: PrerequisitesOf(packages.Keys, packages[n].dependencies, version).value
  }

  method CollectPackages(packages: seq<Package>, version: seq<byte>) returns (result: Result<map<Name, Package>>)
    ensures result == Collect(packages, version)
    ensures result.Accepted? <==> Selectable(packages, version)
    ensures result.Accepted? ==> HoldsCandidates(packages, result.value)
  {
    hide Selectable, HoldsCandidates;
    CollectIs(packages, version);
    var publishable: map<Name, Package>, i := map[], 0;
    assert packages[..0] == [];
    while i < |packages|
      invariant i <= |packages| && Collect(packages[..i], version) == Accepted(publishable)
    {
      assert packages[..i + 1][..i] == packages[..i];
      var p := packages[i];
      if Candidate(p) {
        if p.name == [] || p.name in publishable || p.version != version {
          CollectStaysRejected(packages, version, i + 1, |packages|);
          return Rejected;
        }
        publishable := publishable[p.name := p];
      }
      i := i + 1;
    }
    assert packages[..i] == packages;
    return Accepted(publishable);
  }

  lemma {:induction false} CollectStaysRejected(packages: seq<Package>, version: seq<byte>, i: nat, n: nat)
    requires i <= n <= |packages| && Collect(packages[..i], version).Rejected?
    ensures Collect(packages[..n], version).Rejected?
    ensures n == |packages| ==> Collect(packages, version).Rejected?
    decreases n
  {
    if i < n {
      CollectStaysRejected(packages, version, i, n - 1);
      assert packages[..n][..n - 1] == packages[..n - 1];
    }
    if n == |packages| { assert packages[..n] == packages; }
  }

  method ReadPrerequisites(names: set<Name>, dependencies: seq<Dependency>, version: seq<byte>)
    returns (result: Result<set<Name>>)
    ensures result == PrerequisitesOf(names, dependencies, version)
  {
    var found: set<Name>, i := {}, 0;
    assert dependencies[..0] == [];
    while i < |dependencies|
      invariant i <= |dependencies| && PrerequisitesOf(names, dependencies[..i], version) == Accepted(found)
    {
      assert dependencies[..i + 1][..i] == dependencies[..i];
      var d := dependencies[i];
      if d.name in names {
        if d.requirement != Pin(version) || d.kind == Unknown {
          PrerequisitesStayRejected(names, dependencies, version, i + 1, |dependencies|);
          return Rejected;
        }
        if d.kind != Dev { found := found + {d.name}; }
      }
      i := i + 1;
    }
    assert dependencies[..i] == dependencies;
    return Accepted(found);
  }

  lemma {:induction false} PrerequisitesStayRejected(names: set<Name>, dependencies: seq<Dependency>,
                                                     version: seq<byte>, i: nat, n: nat)
    requires i <= n <= |dependencies| && PrerequisitesOf(names, dependencies[..i], version).Rejected?
    ensures PrerequisitesOf(names, dependencies[..n], version).Rejected?
    ensures n == |dependencies| ==> PrerequisitesOf(names, dependencies, version).Rejected?
    decreases n
  {
    if i < n {
      PrerequisitesStayRejected(names, dependencies, version, i, n - 1);
      assert dependencies[..n][..n - 1] == dependencies[..n - 1];
    }
    if n == |dependencies| { assert dependencies[..n] == dependencies; }
  }

  /** The answer to a workspace: the plan of its prerequisite graph, or a refusal when there is no such plan. */
  ghost predicate IsAnswer(packages: seq<Package>, version: seq<byte>, result: Result<seq<Name>>) {
    var selected := Collect(packages, version);
    && (result.Accepted? <==>
          selected.Accepted? && selected.value != map[] && GraphOk(selected.value, version)
          && !Cyclic(GraphOf(selected.value, version)))
    && (result.Accepted? ==> IsPlan(GraphOf(selected.value, version), result.value))
  }

  /** Whatever order the packages are listed in, the answer is the same: the same plan, or a refusal. */
  lemma InputOrderIsIrrelevant(packages: seq<Package>, packages': seq<Package>, version: seq<byte>,
                               result: Result<seq<Name>>, result': Result<seq<Name>>)
    requires multiset(packages) == multiset(packages')
    requires IsAnswer(packages, version, result) && IsAnswer(packages', version, result')
    ensures result == result'
  {
    hide Collect, Cyclic, IsPlan, GraphOk;
    CollectIgnoresOrder(packages, packages', version);
    if result.Accepted? && result'.Accepted? {
      PlansAgree(GraphOf(Collect(packages, version).value, version), result.value, result'.value);
    }
  }

  /** publication_order */
  method PublicationOrder(packages: seq<Package>, version: seq<byte>) returns (result: Result<seq<Name>>)
    ensures IsAnswer(packages, version, result)
  {
    hide Collect, Cyclic, IsPlan, PrerequisitesOf, Closed, Selectable, HoldsCandidates;
    var publishable :- CollectPackages(packages, version);
    if publishable == map[] { return Rejected; }
    var graph: Graph, waiting := map[], publishable.Keys;
    while waiting != {}
      invariant waiting <= publishable.Keys && graph.Keys == publishable.Keys - waiting
      invariant forall n :: n in graph ==>
                  PrerequisitesOf(publishable.Keys, publishable[n].dependencies, version) == Accepted(graph[n])
      decreases |waiting|
    {
      var n :| n in waiting;
      var found := ReadPrerequisites(publishable.Keys, publishable[n].dependencies, version);
      if found.Rejected? {
        assert !GraphOk(publishable, version);
        return Rejected;
      }
      graph, waiting := graph[n := found.value], waiting - {n};
    }
    assert graph == GraphOf(publishable, version);
    result := OrderGraph(graph);
  }
}
