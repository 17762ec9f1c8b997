/**
  The order in which the release tool packages the workspace's crates: dependencies first, and
  within one layer by name (scripts/release/release_tool.py).
 */
module ReleaseOrder {
  import opened Prelude

  /** A package with a string id. `name` is `None` when the name or the version is not a string. */
  datatype Package = Package(id: string, name: Option<string>, publishesNowhere: bool)

  /** A resolve node; `None` stands for a field of the wrong type. */
  datatype Node = Node(id: Option<string>, dependencies: Option<seq<string>>)

  datatype Failure = InvalidMembers | NothingPackageable | InvalidPackage | InvalidGraph | Cyclic

  type Graph = map<string, set<string>>

  // ----- Names in code point order -----

  /** Lexicographic order by code point, as Python compares strings. */
  predicate Before(a: string, b: string) {
    a == [] || (b != [] && (a[0] < b[0] || (a[0] == b[0] && Before(a[1..], b[1..]))))
  }

  lemma {:induction false} BeforeIsTotal(a: string, b: string)
    ensures Before(a, b) || Before(b, a)
    ensures Before(a, b) && Before(b, a) ==> a == b
  {
    if a != [] && b != [] && a[0] == b[0] {
      BeforeIsTotal(a[1..], b[1..]);
      assert a == [a[0]] + a[1..] && b == [b[0]] + b[1..];
    }
  }

  /** A prefix comes first; otherwise the first difference decides. */
  lemma {:induction false} BeforeIff(a: string, b: string)
    ensures Before(a, b) <==> a <= b || exists i :: FirstDifference(a, b, i) && a[i] < b[i]
  {
    if a != [] && b != [] {
      assert FirstDifference(a, b, 0) <==> a[0] != b[0];
      if a[0] == b[0] {
        BeforeIff(a[1..], b[1..]);
        assert a == [a[0]] + a[1..] && b == [b[0]] + b[1..];
        forall i: nat ensures FirstDifference(a, b, i + 1) <==> FirstDifference(a[1..], b[1..], i) {
          assert i < |a| - 1 && i < |b| - 1 ==> a[..i + 1] == [a[0]] + a[1..][..i] && b[..i + 1] == [b[0]] + b[1..][..i];
        }
        if exists i :: FirstDifference(a, b, i) && a[i] < b[i] {
          var i :| FirstDifference(a, b, i) && a[i] < b[i];
          assert FirstDifference(a[1..], b[1..], i - 1);
        }
        if exists i :: FirstDifference(a[1..], b[1..], i) && a[1..][i] < b[1..][i] {
          var i :| FirstDifference(a[1..], b[1..], i) && a[1..][i] < b[1..][i];
          assert FirstDifference(a, b, i + 1) && a[i + 1] < b[i + 1];
        }
      }
    }
  }

  predicate FirstDifference(a: string, b: string, i: int) {
    0 <= i < |a| && i < |b| && a[..i] == b[..i] && a[i] != b[i]
  }

  lemma {:induction false} BeforeIsTransitive(a: string, b: string, c: string)
    requires Before(a, b) && Before(b, c)
    ensures Before(a, c)
  {
    if a != [] && a[0] == b[0] && b[0] == c[0] { BeforeIsTransitive(a[1..], b[1..], c[1..]); }
  }

  // ----- What an order should be -----

  predicate Distinct(s: seq<string>) { forall i, j :: 0 <= i < j < |s| ==> s[i] != s[j] }

  function Elements(s: seq<string>): set<string> { set x | x in s }

  /** A listing of exactly the graph's nodes, each after everything it needs. */
  ghost predicate IsOrder(needs: Graph, order: seq<string>) {
    Distinct(order) && Elements(order) == needs.Keys && Following(needs, order)
  }

  /** A walk from a node back to itself along dependencies. */
  ghost predicate IsCycle(needs: Graph, walk: seq<string>) {
    |walk| >= 2 && walk[0] == walk[|walk| - 1] && IsWalk(needs, walk)
  }

  ghost predicate IsWalk(needs: Graph, walk: seq<string>) {
    forall k {:trigger walk[k]} :: 0 <= k < |walk| - 1 ==> walk[k] in needs && walk[k + 1] in needs[walk[k]]
  }

  ghost predicate HasCycle(needs: Graph) { exists walk :: IsCycle(needs, walk) }

  predicate Closed(needs: Graph) { forall id :: id in needs ==> needs[id] <= needs.Keys }

  /** The longest chain of dependencies under each node. */
  ghost predicate IsDepth(needs: Graph, depth: map<string, nat>) {
    && depth.Keys == needs.Keys
    && (forall id :: id in needs ==> DepthAt(needs, depth, id))
  }

  ghost predicate DepthAt(needs: Graph, depth: map<string, nat>, id: string)
    requires id in needs && id in depth
  {
    && (forall d :: d in needs[id] ==> d in depth && depth[d] < depth[id])
    && (depth[id] > 0 ==> exists d :: d in needs[id] && d in depth && depth[d] + 1 == depth[id])
  }

  predicate NoLater(depth: map<string, nat>, names: map<string, string>, a: string, b: string)
    requires a in depth && b in depth && a in names && b in names
  {
    depth[a] < depth[b] || (depth[a] == depth[b] && Before(names[a], names[b]))
  }

  ghost predicate SortedBy(depth: map<string, nat>, names: map<string, string>, order: seq<string>) {
    && (forall i :: 0 <= i < |order| ==> order[i] in depth && order[i] in names)
    && (forall i, j :: 0 <= i < j < |order| ==> NoLater(depth, names, order[i], order[j]))
  }

  /** By depth, then by name. */
  ghost predicate ByDepthThenName(needs: Graph, names: map<string, string>, order: seq<string>) {
    exists depth :: IsDepth(needs, depth) && SortedBy(depth, names, order)
  }

  // ----- An order excludes cycles -----

  lemma NeededIsEarlier(needs: Graph, order: seq<string>, a: nat, d: string) returns (b: nat)
    requires Following(needs, order) && a < |order| && order[a] in needs && d in needs[order[a]]
    ensures b < a && order[b] == d
  {
    assert d in order[..a];
    b :| 0 <= b < |order[..a]| && order[..a][b] == d;
  }

  lemma {:induction false} WalkGoesBack(needs: Graph, order: seq<string>, walk: seq<string>, k: nat, at: nat) returns (b: nat)
    requires IsOrder(needs, order) && IsWalk(needs, walk) && k < |walk|
    requires at < |order| && order[at] == walk[0]
    ensures b < |order| && order[b] == walk[k] && b + k <= at
  {
    if k == 0 {
      b := at;
    } else {
      var a := WalkGoesBack(needs, order, walk, k - 1, at);
      assert walk[k - 1] in needs && walk[k - 1 + 1] in needs[walk[k - 1]];
      b := NeededIsEarlier(needs, order, a, walk[k]);
    }
  }

  lemma WalksDoNotReturn(needs: Graph, order: seq<string>, walk: seq<string>)
    requires IsOrder(needs, order) && IsWalk(needs, walk) && |walk| >= 2
    ensures walk[0] != walk[|walk| - 1]
  {
    assert walk[0] in Elements(order);
    var at :| 0 <= at < |order| && order[at] == walk[0];
    var b := WalkGoesBack(needs, order, walk, |walk| - 1, at);
  }

  lemma OrderedIsAcyclic(needs: Graph, order: seq<string>)
    requires IsOrder(needs, order)
    ensures !HasCycle(needs)
  {
    forall walk | |walk| >= 2 && IsWalk(needs, walk) ensures walk[0] != walk[|walk| - 1] {
      WalksDoNotReturn(needs, order, walk);
    }
  }

  // ----- A graph in which everything waits has a cycle -----

  lemma {:induction false} DistinctIsSmall(s: seq<string>, all: set<string>)
    requires Distinct(s) && Elements(s) <= all
    ensures |s| <= |all|
  {
    if s != [] {
      var last := s[|s| - 1];
      DistinctIsSmall(s[..|s| - 1], all - {last});
    }
  }

  lemma WalkExtends(needs: Graph, walk: seq<string>, d: string)
    requires walk != [] && IsWalk(needs, walk) && walk[|walk| - 1] in needs && d in needs[walk[|walk| - 1]]
    ensures IsWalk(needs, walk + [d])
  {
  }

  lemma WalkReturns(needs: Graph, walk: seq<string>, d: string)
    requires d in walk && IsWalk(needs, walk + [d])
    ensures HasCycle(needs)
  {
    var longer := walk + [d];
    var k :| 0 <= k < |walk| && walk[k] == d;
    var cycle := longer[k..];
    forall j | 0 <= j < |cycle| - 1 ensures cycle[j] in needs && cycle[j + 1] in needs[cycle[j]] {
      assert longer[k + j] in needs && longer[k + j + 1] in needs[longer[k + j]];
    }
    assert IsCycle(needs, cycle);
  }

  lemma {:induction false} WalkCloses(needs: Graph, walk: seq<string>)
    requires Closed(needs) && (forall id :: id in needs ==> needs[id] != {})
    requires walk != [] && Distinct(walk) && Elements(walk) <= needs.Keys && IsWalk(needs, walk)
    ensures HasCycle(needs)
    decreases |needs.Keys| - |walk|
  {
    var last := walk[|walk| - 1];
    assert last in Elements(walk);
    var d :| d in needs[last];
    WalkExtends(needs, walk, d);
    if d in walk {
      WalkReturns(needs, walk, d);
    } else {
      assert Elements(walk + [d]) == Elements(walk) + {d};
      DistinctIsSmall(walk + [d], needs.Keys);
      WalkCloses(needs, walk + [d]);
    }
  }

  lemma StuckHasCycle(needs: Graph, rest: Graph)
    requires rest != map[] && Closed(rest)
    requires forall id :: id in rest ==> id in needs && rest[id] != {} && rest[id] <= needs[id]
    ensures HasCycle(needs)
  {
    var id :| id in rest;
    WalkCloses(rest, [id]);
    var walk :| IsCycle(rest, walk);
    assert IsCycle(needs, walk);
  }

  // ----- The order is determined -----

  lemma {:induction false} DepthIsUnique(needs: Graph, d1: map<string, nat>, d2: map<string, nat>, id: string)
    requires IsDepth(needs, d1) && IsDepth(needs, d2) && id in needs
    ensures d1[id] == d2[id]
    decreases d1[id]
  {
    assert DepthAt(needs, d1, id) && DepthAt(needs, d2, id);
    forall d | d in needs[id] ensures d1[d] == d2[d] { DepthIsUnique(needs, d1, d2, d); }
  }

  lemma DepthsAgree(needs: Graph, d1: map<string, nat>, d2: map<string, nat>)
    requires IsDepth(needs, d1) && IsDepth(needs, d2)
    ensures d1 == d2
  {
    forall id | id in needs ensures d1[id] == d2[id] { DepthIsUnique(needs, d1, d2, id); }
  }

  lemma NoElements(s: seq<string>)
    ensures Elements(s) == {} <==> s == []
  {
    if s != [] { assert s[0] in Elements(s); }
  }

  predicate DistinctNames(names: map<string, string>) {
    forall a, b :: a in names && b in names && names[a] == names[b] ==> a == b
  }

  lemma {:induction false} SortingIsUnique(depth: map<string, nat>, names: map<string, string>, o1: seq<string>, o2: seq<string>)
    requires SortedBy(depth, names, o1) && SortedBy(depth, names, o2) && DistinctNames(names)
    requires Distinct(o1) && Distinct(o2) && Elements(o1) == Elements(o2)
    ensures o1 == o2
  {
    NoElements(o1);
    NoElements(o2);
    if o1 != [] {
      assert o1[0] in Elements(o2);
      assert o2[0] in Elements(o1);
      var i :| 0 <= i < |o2| && o2[i] == o1[0];
      var j :| 0 <= j < |o1| && o1[j] == o2[0];
      BeforeIsTotal(names[o1[0]], names[o2[0]]);
      assert o1[0] == o2[0];
      assert Elements(o1[1..]) == Elements(o1) - {o1[0]};
      assert Elements(o2[1..]) == Elements(o2) - {o2[0]};
      SortingIsUnique(depth, names, o1[1..], o2[1..]);
      assert o1 == [o1[0]] + o1[1..] && o2 == [o2[0]] + o2[1..];
    }
  }

  /** With distinct names the graph and the names leave exactly one order. */
  lemma OrderIsDetermined(needs: Graph, names: map<string, string>, o1: seq<string>, o2: seq<string>)
    requires IsOrder(needs, o1) && ByDepthThenName(needs, names, o1)
    requires IsOrder(needs, o2) && ByDepthThenName(needs, names, o2)
    requires DistinctNames(names)
    ensures o1 == o2
  {
    var d1 :| IsDepth(needs, d1) && SortedBy(d1, names, o1);
    var d2 :| IsDepth(needs, d2) && SortedBy(d2, names, o2);
    DepthsAgree(needs, d1, d2);
    SortingIsUnique(d1, names, o1, o2);
  }

  // ----- One round: everything that no longer waits -----

  /**
    After `n` rounds: `order` lists what was placed, `rest` what still waits and for what. Each placed
    node was placed as soon as the last thing it needs was; each waiting one waits since round `n`.
   */
  ghost predicate Progress(needs: Graph, names: map<string, string>, round: Round) {
    match round
    case Round(rest, order, depth, n) =>
      && Partition(needs, rest, order) && depth.Keys == Elements(order)
      && Waiting(needs, rest, order) && Following(needs, order)
      && Placement(needs, depth, n) && Delayed(needs, rest, depth, n)
      && SortedBy(depth, names, order)
  }

  datatype Round = Round(rest: Graph, order: seq<string>, depth: map<string, nat>, n: nat)

  ghost predicate Waiting(needs: Graph, rest: Graph, order: seq<string>) {
    forall id :: id in rest ==> id in needs && rest[id] == needs[id] - Elements(order)
  }

  ghost predicate Following(needs: Graph, order: seq<string>) {
    forall i, d :: 0 <= i < |order| && order[i] in needs && d in needs[order[i]] ==> d in order[..i]
  }

  ghost predicate Partition(needs: Graph, rest: Graph, order: seq<string>) {
    && Distinct(order)
    && (forall id :: id in needs <==> id in rest || id in order)
    && (forall id :: id in rest ==> id !in order)
  }

  ghost predicate Placement(needs: Graph, depth: map<string, nat>, n: nat) {
    forall id :: id in depth ==> id in needs && depth[id] < n && DepthAt(needs, depth, id)
  }

  ghost predicate Delayed(needs: Graph, rest: Graph, depth: map<string, nat>, n: nat) {
    n > 0 ==> forall id :: id in rest ==> id in needs && WaitsSince(needs, rest, depth, n, id)
  }

  ghost predicate WaitsSince(needs: Graph, rest: Graph, depth: map<string, nat>, n: nat, id: string)
    requires id in needs
  {
    exists d :: d in needs[id] && (d in rest || (d in depth && depth[d] + 1 == n))
  }

  function Ready(rest: Graph): set<string> { set id | id in rest && rest[id] == {} }

  function Without(rest: Graph, ready: set<string>): Graph {
    map id | id in rest && id !in ready :: rest[id] - ready
  }

  function Placed(depth: map<string, nat>, ready: set<string>, n: nat): map<string, nat> {
    depth + map id | id in ready :: n
  }

  predicate ListsByName(names: map<string, string>, ready: set<string>, listed: seq<string>)
    requires ready <= names.Keys
  {
    && Distinct(listed) && Elements(listed) == ready
    && (forall i :: 0 <= i < |listed| ==> listed[i] in ready)
    && (forall i, j :: 0 <= i < j < |listed| ==> Before(names[listed[i]], names[listed[j]]))
  }

  lemma {:induction false} FirstByName(names: map<string, string>, ids: set<string>) returns (first: string)
    requires ids != {} && ids <= names.Keys
    ensures first in ids && forall id :: id in ids ==> Before(names[first], names[id])
    decreases |ids|
  {
    var one :| one in ids;
    first := one;
    BeforeIsTotal(names[one], names[one]);
    if ids != {one} {
      var other := FirstByName(names, ids - {one});
      BeforeIsTotal(names[one], names[other]);
      first := if Before(names[one], names[other]) then one else other;
      forall id | id in ids ensures Before(names[first], names[id]) {
        if id != one && first == one { BeforeIsTransitive(names[one], names[other], names[id]); }
      }
    }
  }

  lemma ListingGrows(names: map<string, string>, ids: set<string>, listed: seq<string>, next: string)
    requires ids <= names.Keys && ListsByName(names, ids, listed) && next in names && next !in ids
    requires forall i :: 0 <= i < |listed| ==> Before(names[listed[i]], names[next])
    ensures ListsByName(names, ids + {next}, listed + [next])
  {
    assert Elements(listed + [next]) == Elements(listed) + {next};
  }

  /** Python's `sorted` with the name as key: a listing by name, ties in any order. */
  method SortByName(names: map<string, string>, ids: set<string>) returns (listed: seq<string>)
    requires ids <= names.Keys
    ensures ListsByName(names, ids, listed)
  {
    listed := [];
    var rest := ids;
    while rest != {}
      invariant rest <= ids && ListsByName(names, ids - rest, listed)
      invariant forall i, id :: 0 <= i < |listed| && id in rest ==> Before(names[listed[i]], names[id])
      decreases |rest|
    {
      ghost var _ := FirstByName(names, rest);
      var first :| first in rest && forall id :: id in rest ==> Before(names[first], names[id]);
      ListingGrows(names, ids - rest, listed, first);
      assert ids - (rest - {first}) == (ids - rest) + {first};
      listed := listed + [first];
      rest := rest - {first};
    }
    assert ids - rest == ids;
  }

  lemma PlacedAre(depth: map<string, nat>, ready: set<string>, n: nat, order: seq<string>, listed: seq<string>)
    requires depth.Keys == Elements(order) && Elements(listed) == ready && (forall id :: id in ready ==> id !in order)
    ensures Placed(depth, ready, n).Keys == Elements(order + listed) == Elements(order) + ready
    ensures forall id :: id in depth ==> Placed(depth, ready, n)[id] == depth[id]
    ensures forall id :: id in ready ==> Placed(depth, ready, n)[id] == n
  {
    assert forall id :: id in order <==> id in Elements(order);
    assert forall id :: id in listed <==> id in Elements(listed);
  }

  lemma RoundKeepsPartition(needs: Graph, rest: Graph, order: seq<string>, ready: set<string>, listed: seq<string>)
    requires Partition(needs, rest, order) && ready <= rest.Keys && Distinct(listed) && Elements(listed) == ready
    ensures Partition(needs, Without(rest, ready), order + listed)
  {
    assert forall id :: id in listed <==> id in ready by { assert forall id :: id in listed <==> id in Elements(listed); }
    forall i, j | 0 <= i < |order| && 0 <= j < |listed| ensures order[i] != listed[j] {
      assert listed[j] in listed;
    }
  }

  /** Everything a ready node needs was placed before. */
  lemma RoundKeepsFollowing(needs: Graph, rest: Graph, order: seq<string>, listed: seq<string>)
    requires Waiting(needs, rest, order) && Following(needs, order)
    requires forall i :: 0 <= i < |listed| ==> listed[i] in Ready(rest)
    ensures Following(needs, order + listed)
  {
    var longer := order + listed;
    forall i, d | 0 <= i < |longer| && longer[i] in needs && d in needs[longer[i]] ensures d in longer[..i] {
      if i < |order| {
        assert longer[..i] == order[..i];
      } else {
        assert longer[i] == listed[i - |order|] && d !in rest[longer[i]];
        assert d in Elements(order);
        assert longer[..i] == order + listed[..i - |order|];
      }
    }
  }

  lemma RoundKeepsWaiters(needs: Graph, rest: Graph, order: seq<string>, ready: set<string>, listed: seq<string>)
    requires Waiting(needs, rest, order) && Elements(order + listed) == Elements(order) + ready
    ensures Waiting(needs, Without(rest, ready), order + listed)
  {
  }

  lemma RoundKeepsDepths(needs: Graph, rest: Graph, depth: map<string, nat>, ready: set<string>, n: nat, id: string)
    requires id in needs && (id in depth || id in ready) && ready == Ready(rest) && depth.Keys !! rest.Keys
    requires forall x :: x in depth ==> x in needs && depth[x] < n && DepthAt(needs, depth, x)
    requires forall x :: x in rest ==> x in needs && rest[x] == needs[x] - depth.Keys
    requires n > 0 ==> forall x :: x in rest ==> WaitsSince(needs, rest, depth, n, x)
    ensures var placed := Placed(depth, ready, n); placed[id] <= n && DepthAt(needs, placed, id)
  {
    var placed := Placed(depth, ready, n);
    if id in depth {
      assert DepthAt(needs, depth, id);
      if depth[id] > 0 {
        var d :| d in needs[id] && d in depth && depth[d] + 1 == depth[id];
        assert placed[d] == depth[d];
      }
    } else {
      forall d | d in needs[id] ensures d in placed && placed[d] < n {
        assert d !in rest[id];
      }
      if n > 0 {
        assert WaitsSince(needs, rest, depth, n, id);
        var d :| d in needs[id] && (d in rest || (d in depth && depth[d] + 1 == n));
        assert d !in rest[id];
        assert placed[d] == depth[d];
      }
    }
  }

  /** What is left after a round still waits for something placed in it or left as well. */
  lemma RoundKeepsWaiting(needs: Graph, rest: Graph, depth: map<string, nat>, n: nat, id: string)
    requires id in rest && rest[id] != {} && rest[id] <= rest.Keys && id in needs && rest[id] <= needs[id]
    ensures WaitsSince(needs, Without(rest, Ready(rest)), Placed(depth, Ready(rest), n), n + 1, id)
  {
    var d :| d in rest[id];
    assert d in Without(rest, Ready(rest)) || Placed(depth, Ready(rest), n)[d] == n;
  }

  lemma RoundKeepsSorting(names: map<string, string>, order: seq<string>, depth: map<string, nat>, n: nat,
                          ready: set<string>, listed: seq<string>)
    requires SortedBy(depth, names, order) && ready <= names.Keys && ListsByName(names, ready, listed)
    requires depth.Keys !! ready && forall id :: id in depth ==> depth[id] < n
    ensures SortedBy(Placed(depth, ready, n), names, order + listed)
  {
    var placed, longer := Placed(depth, ready, n), order + listed;
    forall i, j | 0 <= i < j < |longer| ensures NoLater(placed, names, longer[i], longer[j]) {
      if j < |order| {
        assert NoLater(depth, names, order[i], order[j]);
      } else if i >= |order| {
        assert Before(names[listed[i - |order|]], names[listed[j - |order|]]);
      }
    }
  }

  lemma RoundShrinks(rest: Graph)
    requires Ready(rest) != {}
    ensures |Without(rest, Ready(rest)).Keys| < |rest.Keys|
  {
    var one :| one in Ready(rest);
    assert Without(rest, Ready(rest)).Keys == rest.Keys - Ready(rest);
    assert rest.Keys == (rest.Keys - Ready(rest)) + Ready(rest);
  }

  function NextRound(round: Round, listed: seq<string>): Round {
    var ready := Ready(round.rest);
    Round(Without(round.rest, ready), round.order + listed, Placed(round.depth, ready, round.n), round.n + 1)
  }

  lemma RoundKeepsShape(needs: Graph, names: map<string, string>, round: Round, listed: seq<string>)
    requires needs.Keys <= names.Keys && Progress(needs, names, round)
    requires Ready(round.rest) <= names.Keys && ListsByName(names, Ready(round.rest), listed)
    ensures var next := NextRound(round, listed);
            && Partition(needs, next.rest, next.order) && next.depth.Keys == Elements(next.order)
            && Waiting(needs, next.rest, next.order) && Following(needs, next.order)
            && SortedBy(next.depth, names, next.order)
  {
    var Round(rest, order, depth, n) := round;
    var ready := Ready(rest);
    PlacedAre(depth, ready, n, order, listed);
    RoundKeepsPartition(needs, rest, order, ready, listed);
    RoundKeepsFollowing(needs, rest, order, listed);
    RoundKeepsWaiters(needs, rest, order, ready, listed);
    RoundKeepsSorting(names, order, depth, n, ready, listed);
  }

  lemma RoundKeepsLayers(needs: Graph, names: map<string, string>, round: Round, listed: seq<string>)
    requires Closed(needs) && Progress(needs, names, round)
    ensures var next := NextRound(round, listed);
            Placement(needs, next.depth, next.n) && Delayed(needs, next.rest, next.depth, next.n)
  {
    var Round(rest, order, depth, n) := round;
    var ready := Ready(rest);
    var rest', placed := Without(rest, ready), Placed(depth, ready, n);
    forall id | id in placed ensures id in needs && placed[id] < n + 1 && DepthAt(needs, placed, id) {
      RoundKeepsDepths(needs, rest, depth, ready, n, id);
    }
    forall id | id in rest' ensures id in needs && WaitsSince(needs, rest', placed, n + 1, id) {
      RoundKeepsWaiting(needs, rest, depth, n, id);
    }
  }

  lemma RoundKeepsProgress(needs: Graph, names: map<string, string>, round: Round, listed: seq<string>)
    requires Closed(needs) && needs.Keys <= names.Keys && Progress(needs, names, round)
    requires Ready(round.rest) <= names.Keys && ListsByName(names, Ready(round.rest), listed)
    ensures Progress(needs, names, NextRound(round, listed))
  {
    RoundKeepsShape(needs, names, round, listed);
    RoundKeepsLayers(needs, names, round, listed);
  }

  lemma NothingReady(needs: Graph, names: map<string, string>, round: Round)
    requires Closed(needs) && Progress(needs, names, round) && round.rest != map[] && Ready(round.rest) == {}
    ensures HasCycle(needs)
  {
    assert forall id :: id in round.rest && round.rest[id] == {} ==> id in Ready(round.rest);
    StuckHasCycle(needs, round.rest);
  }

  lemma AllPlaced(needs: Graph, names: map<string, string>, round: Round)
    requires Progress(needs, names, round) && round.rest == map[]
    ensures IsOrder(needs, round.order) && ByDepthThenName(needs, names, round.order)
  {
    assert IsDepth(needs, round.depth);
  }

  // ----- The loop -----

  /**
    Kahn's algorithm by layers: fails exactly on a cycle, and otherwise lists every node after all it
    needs, by depth and then by name.
   */
  method TopologicalOrder(needs: Graph, names: map<string, string>) returns (r: Option<seq<string>>)
    requires Closed(needs) && needs.Keys <= names.Keys
    ensures r.None? <==> HasCycle(needs)
    ensures r.Some? ==> IsOrder(needs, r.value) && ByDepthThenName(needs, names, r.value)
  {
    var order: seq<string>, rest := [], needs;
    ghost var round := Round(needs, [], map[], 0);
    while rest != map[]
      invariant round.rest == rest && round.order == order && Progress(needs, names, round)
      decreases |rest.Keys|
    {
      var ready := Ready(rest);
      if ready == {} {
        NothingReady(needs, names, round);
        return None;
      }
      var listed := SortByName(names, ready);
      RoundKeepsProgress(needs, names, round, listed);
      RoundShrinks(rest);
      order, rest, round := order + listed, Without(rest, ready), NextRound(round, listed);
    }
    AllPlaced(needs, names, round);
    OrderedIsAcyclic(needs, order);
    return Some(order);
  }

  // ----- From cargo's metadata to the graph -----

  /** `None` stands for a field that is missing or of the wrong type; packages without a string id are left out. */
  datatype Metadata = Metadata(
    packages: Option<seq<Package>>,
    members: Option<seq<Option<string>>>,
    nodes: Option<seq<Node>>)

  /** Packages by id; a later one replaces an earlier one. */
  function ById(packages: seq<Package>): (r: map<string, Package>)
    ensures forall id :: id in r ==> r[id].id == id && r[id] in packages
    ensures forall p :: p in packages ==> p.id in r
  {
    if packages == [] then map[]
    else
      var last := packages[|packages| - 1];
      ById(packages[..|packages| - 1])[last.id := last]
  }

  predicate KnownMembers(byId: map<string, Package>, members: seq<Option<string>>) {
    forall m :: m in members ==> m.Some? && m.value in byId
  }

  function Selected(byId: map<string, Package>, members: seq<Option<string>>): set<string> {
    set id | id in byId && Some(id) in members && !byId[id].publishesNowhere
  }

  /** A node that the graph is rejected for: no id, or no dependency list on a selected one. */
  predicate BadNode(selected: set<string>, node: Node) {
    node.id.None? || (node.id.value in selected && node.dependencies.None?)
  }

  /** The selected dependencies of the last node with the given id. */
  function Needs(nodes: seq<Node>, selected: set<string>, id: string): set<string> {
    if nodes == [] then {}
    else
      var last := nodes[|nodes| - 1];
      if last.id == Some(id) && last.dependencies.Some? then set d | d in last.dependencies.value && d in selected
      else Needs(nodes[..|nodes| - 1], selected, id)
  }

  ghost function Restricted(nodes: seq<Node>, selected: set<string>): Graph {
    map id | id in selected :: Needs(nodes, selected, id)
  }

  method BuildNeeds(nodes: seq<Node>, selected: set<string>) returns (r: Option<Graph>)
    ensures r.None? <==> exists node :: node in nodes && BadNode(selected, node)
    ensures r.Some? ==> r.value == Restricted(nodes, selected) && Closed(r.value)
  {
    var needs: Graph := map id | id in selected :: {};
    for k := 0 to |nodes|
      invariant forall node :: node in nodes[..k] ==> !BadNode(selected, node)
      invariant needs == Restricted(nodes[..k], selected) && Closed(needs)
    {
      var node := nodes[k];
      assert nodes[..k + 1][..k] == nodes[..k] && node in nodes;
      if BadNode(selected, node) {
        return None;
      }
      if node.id.value in selected {
        needs := needs[node.id.value := set d | d in node.dependencies.value && d in selected];
      }
    }
    assert nodes[..|nodes|] == nodes;
    return Some(needs);
  }

  function NamesOf(byId: map<string, Package>, selected: set<string>): map<string, string> {
    map id | id in selected && id in byId && byId[id].name.Some? :: byId[id].name.value
  }

  function Ids(packages: seq<Package>): seq<string> { seq(|packages|, i requires 0 <= i < |packages| => packages[i].id) }

  // ----- What the metadata says -----

  /** The package that counts among those with its id: the last one. */
  ghost predicate IsLast(packages: seq<Package>, p: Package) {
    exists k :: LastAt(packages, p, k)
  }

  ghost predicate LastAt(packages: seq<Package>, p: Package, k: int) {
    0 <= k < |packages| && packages[k] == p && forall j :: k < j < |packages| ==> packages[j].id != p.id
  }

  /** The id of a workspace member whose package may be published somewhere. */
  ghost predicate Packageable(metadata: Metadata, id: string) {
    && metadata.packages.Some? && metadata.members.Some? && Some(id) in metadata.members.value
    && exists p :: IsLast(metadata.packages.value, p) && p.id == id && !p.publishesNowhere
  }

  /** The last node with the id lists the dependency. */
  ghost predicate Lists(nodes: seq<Node>, id: string, dependency: string) {
    exists k :: LastNode(nodes, id, k) && nodes[k].dependencies.Some? && dependency in nodes[k].dependencies.value
  }

  ghost predicate LastNode(nodes: seq<Node>, id: string, k: int) {
    0 <= k < |nodes| && nodes[k].id == Some(id) && forall j :: k < j < |nodes| ==> nodes[j].id != Some(id)
  }

  lemma {:induction false} ByIdIsLast(packages: seq<Package>, p: Package)
    ensures p.id in ById(packages) && ById(packages)[p.id] == p <==> IsLast(packages, p)
  {
    if packages != [] {
      var n := |packages| - 1;
      var rest := packages[..n];
      if packages[n].id == p.id {
        assert LastAt(packages, p, n) <==> packages[n] == p;
        assert forall k :: LastAt(packages, p, k) ==> k == n;
      } else {
        ByIdIsLast(rest, p);
        forall k ensures LastAt(packages, p, k) <==> LastAt(rest, p, k) { LastAtPrefix(packages, p, k); }
      }
    }
  }

  lemma LastAtPrefix(packages: seq<Package>, p: Package, k: int)
    requires packages != [] && packages[|packages| - 1].id != p.id
    ensures LastAt(packages, p, k) <==> LastAt(packages[..|packages| - 1], p, k)
  {
    var rest := packages[..|packages| - 1];
    assert forall j :: 0 <= j < |rest| ==> rest[j] == packages[j];
    if LastAt(rest, p, k) {
      forall j | k < j < |packages| ensures packages[j].id != p.id {
        if j < |rest| { assert packages[j] == rest[j]; }
      }
    }
  }

  /** The edges of the graph are the listed dependencies among the selected ids. */
  lemma {:induction false} NeedsAreListed(nodes: seq<Node>, selected: set<string>, id: string, d: string)
    requires forall k :: 0 <= k < |nodes| && nodes[k].id == Some(id) ==> nodes[k].dependencies.Some?
    ensures d in Needs(nodes, selected, id) <==> d in selected && Lists(nodes, id, d)
  {
    if nodes != [] {
      var n := |nodes| - 1;
      var rest := nodes[..n];
      if nodes[n].id == Some(id) {
        assert LastNode(nodes, id, n);
        assert forall k :: LastNode(nodes, id, k) ==> k == n;
      } else {
        NeedsAreListed(rest, selected, id, d);
        forall k ensures LastNode(nodes, id, k) <==> LastNode(rest, id, k) {
          if LastNode(nodes, id, k) { assert forall j :: k < j < n ==> rest[j] == nodes[j]; }
          if LastNode(rest, id, k) { assert forall j :: k < j < n ==> nodes[j] == rest[j]; }
        }
        assert forall k :: 0 <= k < n ==> rest[k] == nodes[k];
      }
    }
  }

  /** Listed dependencies come first; within one depth of them, names decide. */
  ghost predicate InOrder(nodes: seq<Node>, packages: seq<Package>, depth: seq<nat>) {
    && |depth| == |packages|
    && ListedFirst(nodes, packages, depth) && LayerOnLayer(nodes, packages, depth) && NamesSort(packages, depth)
  }

  ghost predicate ListedFirst(nodes: seq<Node>, packages: seq<Package>, depth: seq<nat>)
    requires |depth| == |packages|
  {
    forall i, j :: 0 <= i < |packages| && 0 <= j < |packages| && Lists(nodes, packages[i].id, packages[j].id) ==>
      j < i && depth[j] < depth[i]
  }

  ghost predicate LayerOnLayer(nodes: seq<Node>, packages: seq<Package>, depth: seq<nat>)
    requires |depth| == |packages|
  {
    forall i :: 0 <= i < |packages| && depth[i] > 0 ==>
      exists j :: 0 <= j < |packages| && Lists(nodes, packages[i].id, packages[j].id) && depth[j] + 1 == depth[i]
  }

  ghost predicate NamesSort(packages: seq<Package>, depth: seq<nat>)
    requires |depth| == |packages|
  {
    forall i, j :: 0 <= i < j < |packages| ==>
      depth[i] < depth[j] || (depth[i] == depth[j] && NamedBefore(packages[i], packages[j]))
  }

  predicate NamedBefore(p: Package, q: Package) { p.name.Some? && q.name.Some? && Before(p.name.value, q.name.value) }

  /** A walk along listed dependencies among packageable members, back to its start. */
  ghost predicate ListedCycle(metadata: Metadata, walk: seq<string>) {
    && metadata.nodes.Some? && |walk| >= 2 && walk[0] == walk[|walk| - 1]
    && forall k :: 0 <= k < |walk| - 1 ==> ListedAt(metadata, walk, k)
  }

  ghost predicate ListedAt(metadata: Metadata, walk: seq<string>, k: nat)
    requires metadata.nodes.Some? && k < |walk| - 1
  {
    Packageable(metadata, walk[k]) && Packageable(metadata, walk[k + 1]) && Lists(metadata.nodes.value, walk[k], walk[k + 1])
  }

  /** A member that is no string or names no package. */
  ghost predicate MembersInvalid(metadata: Metadata) {
    metadata.packages.None? || metadata.members.None?
    || exists m :: m in metadata.members.value && (m.None? || forall p :: p in metadata.packages.value ==> p.id != m.value)
  }

  ghost predicate NonePackageable(metadata: Metadata) { forall id :: !Packageable(metadata, id) }

  ghost predicate PackageInvalid(metadata: Metadata) {
    metadata.packages.Some? && exists p :: IsLast(metadata.packages.value, p) && Packageable(metadata, p.id) && p.name.None?
  }

  ghost predicate GraphInvalid(metadata: Metadata) {
    metadata.nodes.None?
    || exists node :: node in metadata.nodes.value
                      && (node.id.None? || (Packageable(metadata, node.id.value) && node.dependencies.None?))
  }

  /** What each answer says about the metadata; a fault is reported only in the absence of those checked before. */
  ghost predicate Sound(metadata: Metadata, r: Result<seq<Package>, Failure>) {
    if MembersInvalid(metadata) then r == Err(InvalidMembers)
    else if NonePackageable(metadata) then r == Err(NothingPackageable)
    else if PackageInvalid(metadata) then r == Err(InvalidPackage)
    else if GraphInvalid(metadata) then r == Err(InvalidGraph)
    else
      match r
      case Ok(packages) =>
        && (forall i :: 0 <= i < |packages| ==> IsLast(metadata.packages.value, packages[i]))
        && (forall i, j :: 0 <= i < j < |packages| ==> packages[i].id != packages[j].id)
        && (forall id :: Packageable(metadata, id) <==> exists i :: 0 <= i < |packages| && packages[i].id == id)
        && (exists depth :: InOrder(metadata.nodes.value, packages, depth))
      case Err(e) => e == Cyclic && exists walk :: ListedCycle(metadata, walk)
  }

  /** What the tool answers, case by case in the order of its checks. */
  ghost predicate RightAnswer(metadata: Metadata, r: Result<seq<Package>, Failure>) {
    if metadata.packages.None? || metadata.members.None? then r == Err(InvalidMembers)
    else
      var byId := ById(metadata.packages.value);
      if !KnownMembers(byId, metadata.members.value) then r == Err(InvalidMembers)
      else RightOrder(byId, Selected(byId, metadata.members.value), metadata.nodes, r)
  }

  ghost predicate RightOrder(byId: map<string, Package>, selected: set<string>, nodes: Option<seq<Node>>,
                             r: Result<seq<Package>, Failure>)
    requires selected <= byId.Keys
  {
    if selected == {} then r == Err(NothingPackageable)
    else if !AllNamed(byId, selected) then r == Err(InvalidPackage)
    else if nodes.None? || (exists node :: node in nodes.value && BadNode(selected, node)) then r == Err(InvalidGraph)
    else if HasCycle(Restricted(nodes.value, selected)) then r == Err(Cyclic)
    else r.Ok? && RightPackages(byId, selected, Restricted(nodes.value, selected), r.value)
  }

  predicate AllNamed(byId: map<string, Package>, selected: set<string>)
    requires selected <= byId.Keys
  {
    forall id :: id in selected ==> byId[id].name.Some?
  }

  /** The packages of an order of the graph, by depth and then by name. */
  ghost predicate RightPackages(byId: map<string, Package>, selected: set<string>, graph: Graph, packages: seq<Package>) {
    && IsOrder(graph, Ids(packages)) && ByDepthThenName(graph, NamesOf(byId, selected), Ids(packages))
    && forall i :: 0 <= i < |packages| ==> packages[i].id in byId && packages[i] == byId[packages[i].id]
  }

  lemma InKeys(graph: Graph, order: seq<string>)
    requires IsOrder(graph, order)
    ensures forall i :: 0 <= i < |order| ==> order[i] in graph
  {
    assert forall i :: 0 <= i < |order| ==> order[i] in Elements(order);
  }

  function Lookup(byId: map<string, Package>, order: seq<string>): (packages: seq<Package>)
    requires forall id :: id in byId ==> byId[id].id == id
    requires forall i :: 0 <= i < |order| ==> order[i] in byId
    ensures Ids(packages) == order
    ensures forall i :: 0 <= i < |packages| ==> packages[i].id in byId && packages[i] == byId[packages[i].id]
  {
    seq(|order|, i requires 0 <= i < |order| => byId[order[i]])
  }

  method OrderSelected(byId: map<string, Package>, selected: set<string>, nodes: Option<seq<Node>>)
    returns (r: Result<seq<Package>, Failure>)
    requires selected <= byId.Keys && forall id :: id in byId ==> byId[id].id == id
    ensures RightOrder(byId, selected, nodes, r)
  {
    if selected == {} {
      return Err(NothingPackageable);
    }
    if !AllNamed(byId, selected) {
      return Err(InvalidPackage);
    }
    if nodes.None? {
      return Err(InvalidGraph);
    }
    var needs := BuildNeeds(nodes.value, selected);
    if needs.None? {
      return Err(InvalidGraph);
    }
    var order := TopologicalOrder(needs.value, NamesOf(byId, selected));
    if order.None? {
      return Err(Cyclic);
    }
    InKeys(needs.value, order.value);
    var packages := Lookup(byId, order.value);
    return Ok(packages);
  }

  method PackageableWorkspaceMembers(metadata: Metadata) returns (r: Result<seq<Package>, Failure>)
    ensures RightAnswer(metadata, r) && Sound(metadata, r)
  {
    if metadata.packages.None? || metadata.members.None? {
      return Err(InvalidMembers);
    }
    var byId := ById(metadata.packages.value);
    if !KnownMembers(byId, metadata.members.value) {
      r := Err(InvalidMembers);
      AnswerIsSound(metadata, r);
      return;
    }
    r := OrderSelected(byId, Selected(byId, metadata.members.value), metadata.nodes);
    AnswerIsSound(metadata, r);
  }

  lemma SelectedIsPackageable(metadata: Metadata, id: string)
    requires metadata.packages.Some? && metadata.members.Some?
    ensures id in Selected(ById(metadata.packages.value), metadata.members.value) <==> Packageable(metadata, id)
  {
    var byId := ById(metadata.packages.value);
    if id in byId { ByIdIsLast(metadata.packages.value, byId[id]); }
    if Packageable(metadata, id) {
      var p :| IsLast(metadata.packages.value, p) && p.id == id && !p.publishesNowhere;
      ByIdIsLast(metadata.packages.value, p);
    }
  }

  /** An edge of the graph the tool builds is a listed dependency between packageable members. */
  lemma EdgesAreListed(metadata: Metadata, a: string, b: string)
    requires metadata.packages.Some? && metadata.members.Some? && metadata.nodes.Some?
    requires var selected := Selected(ById(metadata.packages.value), metadata.members.value);
             a in selected && forall node :: node in metadata.nodes.value ==> !BadNode(selected, node)
    ensures var selected := Selected(ById(metadata.packages.value), metadata.members.value);
            b in Restricted(metadata.nodes.value, selected)[a] <==> b in selected && Lists(metadata.nodes.value, a, b)
  {
    var selected := Selected(ById(metadata.packages.value), metadata.members.value);
    forall k | 0 <= k < |metadata.nodes.value| && metadata.nodes.value[k].id == Some(a)
      ensures metadata.nodes.value[k].dependencies.Some?
    {
      assert !BadNode(selected, metadata.nodes.value[k]);
    }
    NeedsAreListed(metadata.nodes.value, selected, a, b);
  }

  /** The answer, in the words of the metadata alone. */
  lemma AnswerIsSound(metadata: Metadata, r: Result<seq<Package>, Failure>)
    requires RightAnswer(metadata, r)
    ensures Sound(metadata, r)
  {
    if metadata.packages.Some? && metadata.members.Some? {
      forall id ensures id in Selected(ById(metadata.packages.value), metadata.members.value) <==> Packageable(metadata, id) {
        SelectedIsPackageable(metadata, id);
      }
      MemberFaults(metadata);
      SelectionFaults(metadata);
      if !MembersInvalid(metadata) && !NonePackageable(metadata) && !PackageInvalid(metadata) && !GraphInvalid(metadata) {
        if r.Ok? { PackagesAreSound(metadata, r.value); } else { CycleIsSound(metadata); }
      }
    }
  }

  lemma MemberFaults(metadata: Metadata)
    requires SelectionIsKnown(metadata)
    ensures KnownMembers(ById(metadata.packages.value), metadata.members.value) <==> !MembersInvalid(metadata)
  {
    var byId := ById(metadata.packages.value);
    forall m | m in metadata.members.value && m.Some?
      ensures m.value in byId <==> exists p :: p in metadata.packages.value && p.id == m.value
    {
      if m.value in byId { assert byId[m.value] in metadata.packages.value; }
    }
  }

  lemma SelectionFaults(metadata: Metadata)
    requires SelectionIsKnown(metadata)
    ensures var byId := ById(metadata.packages.value);
            var selected := Selected(byId, metadata.members.value);
            && (selected == {} <==> NonePackageable(metadata))
            && (AllNamed(byId, selected) <==> !PackageInvalid(metadata))
            && (metadata.nodes.None? || (exists node :: node in metadata.nodes.value && BadNode(selected, node)) <==>
                GraphInvalid(metadata))
  {
    var byId := ById(metadata.packages.value);
    var selected := Selected(byId, metadata.members.value);
    if selected == {} { assert forall id :: id !in selected; }
    if NonePackageable(metadata) { assert forall id :: id !in selected; }
    forall p: Package | p.id in selected ensures IsLast(metadata.packages.value, p) <==> byId[p.id] == p {
      ByIdIsLast(metadata.packages.value, p);
    }
    if PackageInvalid(metadata) {
      var p :| IsLast(metadata.packages.value, p) && Packageable(metadata, p.id) && p.name.None?;
      assert p.id in selected;
    } else {
      forall id | id in selected ensures byId[id].name.Some? { assert byId[id].id in selected; }
    }
  }

  lemma PackagesAreDetermined(byId: map<string, Package>, selected: set<string>, graph: Graph, p1: seq<Package>, p2: seq<Package>)
    requires RightPackages(byId, selected, graph, p1) && RightPackages(byId, selected, graph, p2)
    requires DistinctNames(NamesOf(byId, selected))
    ensures p1 == p2
  {
    OrderIsDetermined(graph, NamesOf(byId, selected), Ids(p1), Ids(p2));
    assert |p1| == |Ids(p1)| == |Ids(p2)| == |p2|;
    forall i | 0 <= i < |p1| ensures p1[i] == p2[i] {
      assert Ids(p1)[i] == p1[i].id && Ids(p2)[i] == p2[i].id;
    }
  }

  /** With distinct names the answer depends on nothing but the metadata. */
  lemma AnswerIsDetermined(metadata: Metadata, r1: Result<seq<Package>, Failure>, r2: Result<seq<Package>, Failure>)
    requires RightAnswer(metadata, r1) && RightAnswer(metadata, r2)
    requires metadata.packages.Some? && metadata.members.Some? ==>
               var byId := ById(metadata.packages.value);
               DistinctNames(NamesOf(byId, Selected(byId, metadata.members.value)))
    ensures r1 == r2
  {
    if r1.Ok? && r2.Ok? {
      var byId := ById(metadata.packages.value);
      var selected := Selected(byId, metadata.members.value);
      PackagesAreDetermined(byId, selected, Restricted(metadata.nodes.value, selected), r1.value, r2.value);
    }
  }

  ghost predicate SelectionIsKnown(metadata: Metadata) {
    && metadata.packages.Some? && metadata.members.Some?
    && forall id :: id in Selected(ById(metadata.packages.value), metadata.members.value) <==> Packageable(metadata, id)
  }

  lemma CycleIsSound(metadata: Metadata)
    requires SelectionIsKnown(metadata) && RightAnswer(metadata, Err(Cyclic))
    ensures exists walk :: ListedCycle(metadata, walk)
  {
    var selected := Selected(ById(metadata.packages.value), metadata.members.value);
    var walk :| IsCycle(Restricted(metadata.nodes.value, selected), walk);
    forall k | 0 <= k < |walk| - 1 ensures ListedAt(metadata, walk, k) {
      assert walk[k] in Restricted(metadata.nodes.value, selected);
      EdgesAreListed(metadata, walk[k], walk[k + 1]);
    }
    assert ListedCycle(metadata, walk);
  }

  lemma PackagesAreSound(metadata: Metadata, packages: seq<Package>)
    requires SelectionIsKnown(metadata) && RightAnswer(metadata, Ok(packages))
    ensures metadata.nodes.Some?
    ensures forall i :: 0 <= i < |packages| ==> IsLast(metadata.packages.value, packages[i])
    ensures forall i, j :: 0 <= i < j < |packages| ==> packages[i].id != packages[j].id
    ensures forall id :: Packageable(metadata, id) <==> exists i :: 0 <= i < |packages| && packages[i].id == id
    ensures exists depth :: InOrder(metadata.nodes.value, packages, depth)
  {
    var byId := ById(metadata.packages.value);
    var selected := Selected(byId, metadata.members.value);
    var graph := Restricted(metadata.nodes.value, selected);
    PackagesAreThose(byId, selected, graph, packages);
    forall i | 0 <= i < |packages| ensures IsLast(metadata.packages.value, packages[i]) {
      ByIdIsLast(metadata.packages.value, packages[i]);
    }
    forall i, j | 0 <= i < |packages| && 0 <= j < |packages|
      ensures packages[j].id in graph[packages[i].id] <==> Lists(metadata.nodes.value, packages[i].id, packages[j].id)
    {
      EdgesAreListed(metadata, packages[i].id, packages[j].id);
    }
    var depth :| IsDepth(graph, depth) && SortedBy(depth, NamesOf(byId, selected), Ids(packages));
    PackagesAreInOrder(metadata.nodes.value, byId, selected, graph, packages, depth);
  }

  lemma IdsAre(packages: seq<Package>)
    ensures |Ids(packages)| == |packages| && forall i :: 0 <= i < |packages| ==> Ids(packages)[i] == packages[i].id
  {
  }

  lemma PackagesAreThose(byId: map<string, Package>, selected: set<string>, graph: Graph, packages: seq<Package>)
    requires graph.Keys == selected && RightPackages(byId, selected, graph, packages)
    ensures forall i :: 0 <= i < |packages| ==> packages[i].id in selected
    ensures forall i, j :: 0 <= i < j < |packages| ==> packages[i].id != packages[j].id
    ensures forall id :: id in selected <==> exists i :: 0 <= i < |packages| && packages[i].id == id
  {
    IdsAre(packages);
    InKeys(graph, Ids(packages));
    forall id ensures id in selected <==> exists i :: 0 <= i < |packages| && packages[i].id == id {
      assert id in selected <==> id in Elements(Ids(packages));
      if id in selected { var i :| 0 <= i < |Ids(packages)| && Ids(packages)[i] == id; }
    }
  }

  /** The graph's edges between these packages are what the nodes list, and the order is by depth and name. */
  ghost predicate Arranged(nodes: seq<Node>, byId: map<string, Package>, selected: set<string>, graph: Graph,
                           packages: seq<Package>, depth: map<string, nat>) {
    && selected <= byId.Keys && AllNamed(byId, selected) && graph.Keys == selected
    && IsOrder(graph, Ids(packages)) && IsDepth(graph, depth) && SortedBy(depth, NamesOf(byId, selected), Ids(packages))
    && (forall i :: 0 <= i < |packages| ==> packages[i].id in selected && packages[i] == byId[packages[i].id])
    && (forall i, j :: 0 <= i < |packages| && 0 <= j < |packages| ==>
          (packages[j].id in graph[packages[i].id] <==> Lists(nodes, packages[i].id, packages[j].id)))
  }

  lemma ListedIsEarlier(nodes: seq<Node>, byId: map<string, Package>, selected: set<string>, graph: Graph,
                        packages: seq<Package>, depth: map<string, nat>, i: nat, j: nat)
    requires Arranged(nodes, byId, selected, graph, packages, depth) && i < |packages| && j < |packages|
    requires packages[j].id in graph[packages[i].id]
    ensures j < i && depth[packages[j].id] < depth[packages[i].id]
  {
    IdsAre(packages);
    assert DepthAt(graph, depth, packages[i].id);
    var b := NeededIsEarlier(graph, Ids(packages), i, packages[j].id);
    assert Ids(packages)[b] == Ids(packages)[j];
  }

  lemma OneLayerBelow(nodes: seq<Node>, byId: map<string, Package>, selected: set<string>, graph: Graph,
                      packages: seq<Package>, depth: map<string, nat>, i: nat) returns (j: nat)
    requires Arranged(nodes, byId, selected, graph, packages, depth) && i < |packages| && depth[packages[i].id] > 0
    ensures j < |packages| && packages[j].id in graph[packages[i].id] && depth[packages[j].id] + 1 == depth[packages[i].id]
  {
    IdsAre(packages);
    assert DepthAt(graph, depth, packages[i].id);
    var x :| x in graph[packages[i].id] && x in depth && depth[x] + 1 == depth[packages[i].id];
    j := PositionOf(graph, packages, x);
  }

  lemma PositionOf(graph: Graph, packages: seq<Package>, id: string) returns (j: nat)
    requires IsOrder(graph, Ids(packages)) && id in graph
    ensures j < |packages| && packages[j].id == id
  {
    IdsAre(packages);
    assert id in Elements(Ids(packages));
    j :| 0 <= j < |Ids(packages)| && Ids(packages)[j] == id;
  }

  lemma NamesDecide(nodes: seq<Node>, byId: map<string, Package>, selected: set<string>, graph: Graph,
                    packages: seq<Package>, depth: map<string, nat>, i: nat, j: nat)
    requires Arranged(nodes, byId, selected, graph, packages, depth) && i < j < |packages|
    ensures var a, b := depth[packages[i].id], depth[packages[j].id];
            a < b || (a == b && NamedBefore(packages[i], packages[j]))
  {
    IdsAre(packages);
    assert NoLater(depth, NamesOf(byId, selected), Ids(packages)[i], Ids(packages)[j]);
  }

  ghost predicate DepthsOf(packages: seq<Package>, depth: map<string, nat>, d: seq<nat>) {
    |d| == |packages| && forall i :: 0 <= i < |packages| ==> packages[i].id in depth && d[i] == depth[packages[i].id]
  }

  lemma ListedAreFirst(nodes: seq<Node>, byId: map<string, Package>, selected: set<string>, graph: Graph,
                       packages: seq<Package>, depth: map<string, nat>, d: seq<nat>)
    requires Arranged(nodes, byId, selected, graph, packages, depth) && DepthsOf(packages, depth, d)
    ensures ListedFirst(nodes, packages, d) && LayerOnLayer(nodes, packages, d)
  {
    forall i, j | 0 <= i < |packages| && 0 <= j < |packages| && Lists(nodes, packages[i].id, packages[j].id)
      ensures j < i && d[j] < d[i]
    {
      ListedIsEarlier(nodes, byId, selected, graph, packages, depth, i, j);
    }
    forall i | 0 <= i < |packages| && d[i] > 0
      ensures exists j :: 0 <= j < |packages| && Lists(nodes, packages[i].id, packages[j].id) && d[j] + 1 == d[i]
    {
      var j := OneLayerBelow(nodes, byId, selected, graph, packages, depth, i);
      assert Lists(nodes, packages[i].id, packages[j].id) && d[j] + 1 == d[i];
    }
  }

  lemma NamesAreSorted(nodes: seq<Node>, byId: map<string, Package>, selected: set<string>, graph: Graph,
                       packages: seq<Package>, depth: map<string, nat>, d: seq<nat>)
    requires Arranged(nodes, byId, selected, graph, packages, depth) && DepthsOf(packages, depth, d)
    ensures NamesSort(packages, d)
  {
    forall i, j | 0 <= i < j < |packages| ensures d[i] < d[j] || (d[i] == d[j] && NamedBefore(packages[i], packages[j])) {
      NamesDecide(nodes, byId, selected, graph, packages, depth, i, j);
    }
  }

  lemma PackagesAreInOrder(nodes: seq<Node>, byId: map<string, Package>, selected: set<string>, graph: Graph,
                           packages: seq<Package>, depth: map<string, nat>)
    requires Arranged(nodes, byId, selected, graph, packages, depth)
    ensures exists d :: InOrder(nodes, packages, d)
  {
    var d := seq(|packages|, i requires 0 <= i < |packages| => depth[packages[i].id]);
    assert DepthsOf(packages, depth, d);
    ListedAreFirst(nodes, byId, selected, graph, packages, depth, d);
    NamesAreSorted(nodes, byId, selected, graph, packages, depth, d);
    assert InOrder(nodes, packages, d);
  }
}
