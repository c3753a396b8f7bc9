/**
  How often the enumeration lists a path: once for every way its edges are declared. That is exactly once
  for every path unless a package that can be reached without passing another declares it under two names.
 */
module PathCounts {
  import opened Prelude
  import opened Location
  import opened DependencyGraph
  import opened RootPaths
  import opened PathLaws
  import opened LocationLaws

  function Count<T(==)>(s: seq<T>, x: T): nat {
    if s == [] then 0 else Count(s[1..], x) + if s[0] == x then 1 else 0
  }

  lemma {:induction false} CountConcat<T>(s: seq<T>, t: seq<T>, x: T)
    ensures Count(s + t, x) == Count(s, x) + Count(t, x)
  {
    if s == [] {
      assert s + t == t;
    } else {
      assert (s + t)[1..] == s[1..] + t;
      CountConcat(s[1..], t, x);
    }
  }

  lemma {:induction false} CountPositive<T>(s: seq<T>, x: T)
    ensures Count(s, x) > 0 <==> x in s
  {
    if s != [] {
      CountPositive(s[1..], x);
    }
  }

  /** The edge by which `p` reaches its location number `k`. */
  function EdgeAbove(p: RootPath, k: nat): ParentEdge
    requires k < |p.locations|
  {
    if k == 0 then ParentEdge("", p.viaDevEdge) else ParentEdge(p.locations[k - 1], false)
  }

  /** In how many ways the edges of `p` above its location number `k` are declared. */
  function Ways(g: LockGraph, p: RootPath, k: nat): nat
    requires k <= |p.locations|
  {
    if k == 0 then 1
    else if p.locations[k - 1] !in g.incoming then 0
    else Count(g.incoming[p.locations[k - 1]], EdgeAbove(p, k - 1)) * Ways(g, p, k - 1)
  }

  /** Only the root names dependencies for development. */
  ghost predicate DevFromRootOnly(edges: seq<ParentEdge>) {
    forall e :: e in edges && e.viaDevEdge ==> e.location == ""
  }

  lemma IncomingDevFromRootOnly(g: LockGraph, t: string)
    requires InvertsDependencies(g) && t in g.entries
    ensures DevFromRootOnly(g.incoming[t])
  {
    forall e | e in g.incoming[t] && e.viaDevEdge ensures e.location == "" {
      assert DependsOn(g.entries, e.location, t, e.viaDevEdge);
    }
  }

  /** `p` is a repeat-free path that ends in `locations` and stays below the root. */
  ghost predicate EndsIn(p: RootPath, locations: seq<string>) {
    && |locations| > 0 && |p.locations| >= |locations|
    && p.locations[|p.locations| - |locations|..] == locations
    && Distinct(p.locations)
    && forall i :: 0 <= i < |p.locations| - |locations| ==> p.locations[i] != ""
  }

  lemma NotThroughElsewhere(g: LockGraph, p: RootPath, edge: ParentEdge, locations: seq<string>)
    requires InvertsDependencies(g) && Closed(g) && AllInstalled(g, locations) && locations != [] && Distinct(locations)
    requires edge.location in g.entries && edge.location != "" && edge.location !in locations
    requires var k := |p.locations| - |locations|; k > 0 ==> p.locations[k - 1] != edge.location
    ensures Count(PathsThrough(g, edge, locations), p) == 0
  {
    var k := |p.locations| - |locations|;
    var longer := [edge.location] + locations;
    ViaExact(g, p, g.incoming[edge.location], longer);
    CountPositive(PathsThrough(g, edge, locations), p);
    if k > 0 {
      assert p.locations[k - 1..][0] == p.locations[k - 1] != longer[0];
    }
  }

  lemma {:induction false} ThroughCount(g: LockGraph, p: RootPath, edge: ParentEdge, locations: seq<string>)
    requires InvertsDependencies(g) && Closed(g) && DevFromRootOnly([edge])
    requires edge.location in g.entries && AllInstalled(g, locations) && EndsIn(p, locations) && Distinct(locations)
    ensures var k := |p.locations| - |locations|;
            Count(PathsThrough(g, edge, locations), p) == if edge == EdgeAbove(p, k) then Ways(g, p, k) else 0
    decreases g.entries.Keys - Elements(locations), 0
  {
    var k := |p.locations| - |locations|;
    assert edge in [edge];
    if edge.location == "" {
      var only := RootPath(edge.viaDevEdge, locations);
      assert Count([only], p) == if only == p then 1 else 0;
      assert k == 0 ==> p.locations == locations;
    } else if edge.location !in locations {
      var longer := [edge.location] + locations;
      Shrinks(g.entries.Keys, locations, edge.location);
      if k > 0 && p.locations[k - 1] == edge.location {
        assert p.locations[k - 1..] == longer;
        IncomingDevFromRootOnly(g, edge.location);
        ViaCount(g, p, g.incoming[edge.location], longer);
      } else {
        NotThroughElsewhere(g, p, edge, locations);
      }
    }
  }

  lemma OneMoreWay(n: nat, ways: nat, found: bool)
    ensures (n + if found then 1 else 0) * ways == n * ways + if found then ways else 0
  {
  }

  lemma {:induction false} ViaCount(g: LockGraph, p: RootPath, edges: seq<ParentEdge>, locations: seq<string>)
    requires InvertsDependencies(g) && Closed(g) && DevFromRootOnly(edges)
    requires FromInstalled(g, edges) && AllInstalled(g, locations) && EndsIn(p, locations) && Distinct(locations)
    ensures var k := |p.locations| - |locations|;
            Count(PathsVia(g, edges, locations), p) == Count(edges, EdgeAbove(p, k)) * Ways(g, p, k)
    decreases g.entries.Keys - Elements(locations), |edges|
  {
    if edges != [] {
      var k := |p.locations| - |locations|;
      ThroughCount(g, p, edges[0], locations);
      ViaCount(g, p, edges[1..], locations);
      CountConcat(PathsThrough(g, edges[0], locations), PathsVia(g, edges[1..], locations), p);
      OneMoreWay(Count(edges[1..], EdgeAbove(p, k)), Ways(g, p, k), edges[0] == EdgeAbove(p, k));
    }
  }

  /** Every simple path is listed as often as its edges are declared, and nothing else is listed. */
  lemma ListedAsOftenAsDeclared(g: LockGraph, target: string, p: RootPath)
    requires InvertsDependencies(g) && target in g.entries
    ensures Closed(g)
    ensures Count(PathsTo(g, target), p) == if IsRootPath(g.entries, p, target) then Ways(g, p, |p.locations|) else 0
  {
    EnumerationIsExact(g, target, p);
    CountPositive(PathsTo(g, target), p);
    if IsRootPath(g.entries, p, target) {
      forall i | 0 <= i < |p.locations| - 1 ensures p.locations[i] != "" {
        NoRootOnPath(g.entries, p, target, i);
      }
      assert p.locations[|p.locations| - 1..] == [target];
      IncomingDevFromRootOnly(g, target);
      ViaCount(g, p, g.incoming[target], [target]);
    }
  }

  // ---------------------------------------------------------------- budgets

  lemma {:induction false} PathsCostSteps(g: LockGraph, edges: seq<ParentEdge>, locations: seq<string>)
    requires Closed(g) && FromInstalled(g, edges) && AllInstalled(g, locations)
    ensures |PathsVia(g, edges, locations)| <= StepsVia(g, edges, locations)
    decreases g.entries.Keys - Elements(locations), |edges|
  {
    if edges != [] {
      var parent := edges[0].location;
      if parent != "" && parent !in locations {
        Shrinks(g.entries.Keys, locations, parent);
        PathsCostSteps(g, g.incoming[parent], [parent] + locations);
      }
      PathsCostSteps(g, edges[1..], locations);
    }
  }

  /** A report is all or nothing: within larger limits it is the same, and it never exceeds either budget. */
  lemma ReportedIsComplete(g: LockGraph, location: string, limits: Limits, larger: Limits)
    requires Closed(g) && Reported(g, location, limits).Some?
    requires limits.maxPaths <= larger.maxPaths && limits.maxSteps <= larger.maxSteps
    ensures Reported(g, location, larger) == Reported(g, location, limits)
    ensures location in g.entries && |Reported(g, location, limits).value| == |PathsTo(g, location)|
    ensures |Reported(g, location, limits).value| <= limits.maxPaths
            && |Reported(g, location, limits).value| <= limits.maxSteps
  {
    PathsCostSteps(g, g.incoming[location], [location]);
  }

  // ---------------------------------------------------------------- listed once

  /** `from` declares two different names that both resolve to `to`. */
  ghost predicate DeclaresTwice(entries: Entries, from: string, to: string) {
    && from in entries
    && exists a, b :: a != b && TwoNames(LookupIn(entries.Keys), from, DeclaredNames(entries[from]), to, a, b)
  }

  ghost predicate TwoNames(resolve: Resolver, from: string, names: seq<string>, to: string, a: string, b: string) {
    a in names && b in names && resolve(from, a) == Some(to) && resolve(from, b) == Some(to)
  }

  /** A walk from the root reaches `to` without passing `avoided`. */
  ghost predicate ReachedAvoiding(entries: Entries, to: string, avoided: string) {
    exists walk, viaDev ::
      && walk != [] && walk[|walk| - 1] == to && avoided !in walk
      && IsWalk(entries, walk) && DependsOn(entries, "", walk[0], viaDev)
  }

  /** Some package that can be reached without passing `to` declares it under two names. */
  ghost predicate Ambiguous(entries: Entries) {
    exists from, to :: DeclaresTwice(entries, from, to) && ReachedAvoiding(entries, from, to)
  }

  lemma {:induction false} OneNameOneEdge(entries: Entries, resolve: Resolver, from: string, names: seq<string>,
                                          target: string, e: ParentEdge)
    requires from in entries && Distinct(names)
    requires forall a, b :: TwoNames(resolve, from, names, target, a, b) ==> a == b
    ensures Count(EdgesByName(entries, resolve, from, names, target), e) <= 1
  {
    if names != [] {
      var front, last := names[..|names| - 1], names[|names| - 1];
      assert names == front + [last];
      var earlier, added := EdgesByName(entries, resolve, from, front, target),
        EdgeTo(entries, resolve, from, last, target);
      forall a, b | TwoNames(resolve, from, front, target, a, b) ensures a == b {
        assert TwoNames(resolve, from, names, target, a, b);
      }
      OneNameOneEdge(entries, resolve, from, front, target, e);
      EdgesByNameExact(entries, resolve, from, front, target, e);
      CountConcat(earlier, added, e);
      CountPositive(earlier, e);
      if e in earlier {
        var a :| a in front && resolve(from, a) == Some(target);
        assert TwoNames(resolve, from, names, target, a, last) <==> resolve(from, last) == Some(target);
      }
    }
  }

  lemma {:induction false} TwoNamesTwoEdges(entries: Entries, resolve: Resolver, from: string, names: seq<string>,
                                            target: string, a: string, b: string)
    requires from in entries && from != "" && a != b && TwoNames(resolve, from, names, target, a, b)
    ensures Count(EdgesByName(entries, resolve, from, names, target), ParentEdge(from, false)) >= 2
  {
    var front, last := names[..|names| - 1], names[|names| - 1];
    assert names == front + [last];
    var e := ParentEdge(from, false);
    var earlier, added := EdgesByName(entries, resolve, from, front, target),
      EdgeTo(entries, resolve, from, last, target);
    CountConcat(earlier, added, e);
    if a in front && b in front {
      TwoNamesTwoEdges(entries, resolve, from, front, target, a, b);
    } else {
      var other := if a == last then b else a;
      assert other in front && (last == a || last == b);
      assert EdgeTo(entries, resolve, from, last, target) == [e];
      EdgesByNameExact(entries, resolve, from, front, target, e);
      CountPositive(earlier, e);
      assert Count([e], e) == 1;
    }
  }

  /** The edges from one location are those its own names give. */
  lemma {:induction false} LocationCount(entries: Entries, resolve: Resolver, locations: seq<string>, target: string,
                                         e: ParentEdge)
    requires (forall l :: l in locations ==> l in entries) && Distinct(locations)
    ensures Count(EdgesByLocation(entries, resolve, locations, target), e)
            == if e.location in locations
               then Count(EdgesByName(entries, resolve, e.location, DeclaredNames(entries[e.location]), target), e)
               else 0
  {
    if locations != [] {
      var front, from := locations[..|locations| - 1], locations[|locations| - 1];
      assert locations == front + [from];
      var names := DeclaredNames(entries[from]);
      var earlier, added := EdgesByLocation(entries, resolve, front, target),
        EdgesByName(entries, resolve, from, names, target);
      LocationCount(entries, resolve, front, target, e);
      EdgesByNameExact(entries, resolve, from, names, target, e);
      CountConcat(earlier, added, e);
      CountPositive(added, e);
      assert from !in front;
    }
  }

  /** The root looks at one place per name, so it never declares a target twice. */
  lemma RootDeclaresOnce(entries: Entries, to: string)
    ensures !DeclaresTwice(entries, "", to)
  {
    if "" in entries {
      var names := DeclaredNames(entries[""]);
      forall a, b | TwoNames(LookupIn(entries.Keys), "", names, to, a, b) ensures a == b {
        assert Child("", a) == MARKER + a && Child("", b) == MARKER + b;
        assert (MARKER + a)[|MARKER|..] == a && (MARKER + b)[|MARKER|..] == b;
      }
    }
  }

  /** In a graph built from entries, an edge is recorded twice exactly when two names declare it. */
  lemma EdgeCount(entries: Entries, order: seq<string>, from: string, to: string, viaDev: bool)
    requires Elements(order) == entries.Keys && Distinct(order) && to in entries
    requires from != "" ==> !viaDev
    ensures Count(GraphOf(entries, order).incoming[to], ParentEdge(from, viaDev)) >= 2
            <==> DeclaresTwice(entries, from, to)
  {
    var resolve, e := LookupIn(entries.Keys), ParentEdge(from, viaDev);
    LocationCount(entries, resolve, order, to, e);
    assert from in order <==> from in Elements(order);
    if from in entries {
      var names := DeclaredNames(entries[from]);
      if DeclaresTwice(entries, from, to) {
        RootDeclaresOnce(entries, to);
        var a, b :| a != b && TwoNames(resolve, from, names, to, a, b);
        TwoNamesTwoEdges(entries, resolve, from, names, to, a, b);
      } else {
        OneNameOneEdge(entries, resolve, from, names, to, e);
      }
    }
  }

  // ---------------------------------------------------------------- from edges to paths

  lemma {:induction false} SomeEdgeTwice(g: LockGraph, p: RootPath, k: nat) returns (i: nat)
    requires k <= |p.locations| && Ways(g, p, k) >= 2
    ensures i < k && p.locations[i] in g.incoming && Count(g.incoming[p.locations[i]], EdgeAbove(p, i)) >= 2
  {
    var n := Count(g.incoming[p.locations[k - 1]], EdgeAbove(p, k - 1));
    if n >= 2 {
      return k - 1;
    }
    AtMostOnceMore(n, Ways(g, p, k - 1));
    i := SomeEdgeTwice(g, p, k - 1);
  }

  lemma AtMostOnceMore(n: nat, ways: nat)
    requires n <= 1
    ensures n * ways <= ways
  {
    assert n == 0 || n == 1;
  }

  /** Every path that exists can be declared in at least one way. */
  lemma {:induction false} WaysPositive(g: LockGraph, p: RootPath, target: string, k: nat)
    requires InvertsDependencies(g) && IsRootPath(g.entries, p, target) && k <= |p.locations|
    ensures Ways(g, p, k) >= 1
  {
    if k > 0 {
      WaysPositive(g, p, target, k - 1);
      StepIsRecorded(g, p, target, k - 1);
      AtLeastOnce(Count(g.incoming[p.locations[k - 1]], EdgeAbove(p, k - 1)), Ways(g, p, k - 1));
    }
  }

  lemma AtLeastOnce(n: nat, ways: nat)
    requires n >= 1
    ensures n * ways >= ways
  {
    assert n * ways == ways + (n - 1) * ways;
  }

  lemma StepIsRecorded(g: LockGraph, p: RootPath, target: string, i: nat)
    requires InvertsDependencies(g) && IsRootPath(g.entries, p, target) && i < |p.locations|
    ensures p.locations[i] in g.incoming && Count(g.incoming[p.locations[i]], EdgeAbove(p, i)) >= 1
  {
    var to, e := p.locations[i], EdgeAbove(p, i);
    if i > 0 {
      NoRootOnPath(g.entries, p, target, i - 1);
      assert Requires(g.entries, p.locations[i - 1], to);
      var viaDev :| DependsOn(g.entries, p.locations[i - 1], to, viaDev);
    }
    assert DependsOn(g.entries, e.location, to, e.viaDevEdge);
    NoEdgeIntoRoot(g.entries, e.location, to, e.viaDevEdge);
    assert e in g.incoming[to];
    CountPositive(g.incoming[to], e);
  }

  /** The part of a root path before one of its packages reaches the package above without passing that one. */
  lemma AboveIsReached(entries: Entries, p: RootPath, target: string, i: nat)
    requires IsRootPath(entries, p, target) && 0 < i < |p.locations|
    ensures ReachedAvoiding(entries, p.locations[i - 1], p.locations[i])
  {
    var walk := p.locations[..i];
    PrefixIsWalk(entries, p.locations, i);
    assert walk[|walk| - 1] == p.locations[i - 1] && p.locations[i] !in walk && walk[0] == p.locations[0];
  }

  /** A path listed twice passes a package that declares the next one twice. */
  lemma ListedTwiceIsAmbiguous(entries: Entries, order: seq<string>, target: string, p: RootPath)
    requires Elements(order) == entries.Keys && Distinct(order) && target in entries
    requires Closed(GraphOf(entries, order)) && Count(PathsTo(GraphOf(entries, order), target), p) >= 2
    ensures Ambiguous(entries)
  {
    var i := DoubledStep(entries, order, target, p);
    RootDeclaresOnce(entries, p.locations[i]);
    AboveIsReached(entries, p, target, i);
  }

  lemma DoubledStep(entries: Entries, order: seq<string>, target: string, p: RootPath) returns (i: nat)
    requires Elements(order) == entries.Keys && Distinct(order) && target in entries
    requires Closed(GraphOf(entries, order)) && Count(PathsTo(GraphOf(entries, order), target), p) >= 2
    ensures IsRootPath(entries, p, target) && i < |p.locations|
    ensures DeclaresTwice(entries, EdgeAbove(p, i).location, p.locations[i])
  {
    var g := GraphOf(entries, order);
    GraphOfInverts(entries, order);
    ListedAsOftenAsDeclared(g, target, p);
    i := SomeEdgeTwice(g, p, |p.locations|);
    EdgeCount(entries, order, EdgeAbove(p, i).location, p.locations[i], EdgeAbove(p, i).viaDevEdge);
  }

  lemma PrefixIsWalk(entries: Entries, locations: seq<string>, i: nat)
    requires IsWalk(entries, locations) && i <= |locations|
    ensures IsWalk(entries, locations[..i])
  {
    PrefixIsLinked(RequiresIn(entries), locations, i);
  }

  lemma PrefixIsLinked(r: Relation, locations: seq<string>, i: nat)
    requires Linked(r, locations) && i <= |locations|
    ensures Linked(r, locations[..i])
  {
  }

  /** Reaching a package without passing `to`, and then `to` itself, is a simple path. */
  lemma PathThrough(entries: Entries, from: string, to: string) returns (p: RootPath)
    requires DeclaresTwice(entries, from, to) && ReachedAvoiding(entries, from, to)
    ensures IsRootPath(entries, p, to) && |p.locations| >= 2 && p.locations[|p.locations| - 2] == from
  {
    var walk, viaDev :|
      && walk != [] && walk[|walk| - 1] == from && to !in walk
      && IsWalk(entries, walk) && DependsOn(entries, "", walk[0], viaDev);
    var simple := LoopsCanBeCut(RequiresIn(entries), walk);
    DeclaringIsRequiring(entries, from, to);
    LinkedLonger(RequiresIn(entries), simple, to);
    p := RootPath(viaDev, simple + [to]);
  }

  lemma DeclaringIsRequiring(entries: Entries, from: string, to: string)
    requires DeclaresTwice(entries, from, to)
    ensures RequiresIn(entries)(from, to)
  {
    var a, b :| a != b && TwoNames(LookupIn(entries.Keys), from, DeclaredNames(entries[from]), to, a, b);
    assert a in entries[from].dependencies + entries[from].devDependencies;
    assert DependsOn(entries, from, to, from == "" && !IsRuntime(entries[from], a));
  }

  /** A path whose last step is declared under two names is listed at least twice. */
  lemma DoubledStepIsListedTwice(entries: Entries, order: seq<string>, p: RootPath, to: string)
    requires Elements(order) == entries.Keys && Distinct(order)
    requires IsRootPath(entries, p, to) && |p.locations| >= 2
    requires DeclaresTwice(entries, p.locations[|p.locations| - 2], to)
    ensures to in entries && Closed(GraphOf(entries, order))
    ensures Count(PathsTo(GraphOf(entries, order), to), p) >= 2
  {
    var g := GraphOf(entries, order);
    GraphOfInverts(entries, order);
    var k := |p.locations| - 1;
    StepIsRecorded(g, p, to, k);
    EdgeCount(entries, order, p.locations[k - 1], to, false);
    WaysPositive(g, p, to, k);
    AtLeastTwice(Count(g.incoming[to], EdgeAbove(p, k)), Ways(g, p, k));
    ListedAsOftenAsDeclared(g, to, p);
  }

  lemma AmbiguousIsListedTwice(entries: Entries, order: seq<string>) returns (target: string, p: RootPath)
    requires Elements(order) == entries.Keys && Distinct(order) && Ambiguous(entries)
    ensures target in entries && Closed(GraphOf(entries, order))
    ensures Count(PathsTo(GraphOf(entries, order), target), p) >= 2
  {
    var from, to :| DeclaresTwice(entries, from, to) && ReachedAvoiding(entries, from, to);
    p := PathThrough(entries, from, to);
    target := to;
    DoubledStepIsListedTwice(entries, order, p, to);
  }

  lemma AtLeastTwice(n: nat, ways: nat)
    requires n >= 2 && ways >= 1
    ensures n * ways >= 2
  {
    assert n * ways >= n by {
      assert n * ways == n + n * (ways - 1);
    }
  }

  /** Every simple path, and nothing else, is listed once. */
  ghost predicate ListsEachPathOnce(g: LockGraph) {
    Closed(g) && forall target, p :: target in g.entries ==>
      Count(PathsTo(g, target), p) == if IsRootPath(g.entries, p, target) then 1 else 0
  }

  /** Every path to every target is listed exactly once, unless some package that can be reached without passing
      another declares that other under two names; then some path is listed at least twice. */
  lemma ListsEachPathOnceExactly(entries: Entries, order: seq<string>)
    requires Elements(order) == entries.Keys && Distinct(order)
    ensures ListsEachPathOnce(GraphOf(entries, order)) <==> !Ambiguous(entries)
  {
    var g := GraphOf(entries, order);
    GraphOfInverts(entries, order);
    InversionIsClosed(g);
    if Ambiguous(entries) {
      var target, p := AmbiguousIsListedTwice(entries, order);
      assert Count(PathsTo(g, target), p) != if IsRootPath(entries, p, target) then 1 else 0;
    } else {
      forall target, p | target in entries
        ensures Count(PathsTo(g, target), p) == if IsRootPath(entries, p, target) then 1 else 0
      {
        EnumerationIsExact(g, target, p);
        CountPositive(PathsTo(g, target), p);
        if Count(PathsTo(g, target), p) >= 2 {
          ListedTwiceIsAmbiguous(entries, order, target, p);
        }
      }
    }
  }

  // ---------------------------------------------------------------- plain names

  /** No declared dependency name contains a directory boundary; npm allows no such name. */
  ghost predicate PlainNames(entries: Entries) {
    forall l, name :: l in entries && name in entries[l].dependencies + entries[l].devDependencies ==> Plain(name)
  }

  lemma SameTargetSameName(installed: set<string>, from: string, name1: string, name2: string)
    requires Plain(name1) && Plain(name2)
    requires ResolveFrom(installed, from, name1).Some?
    requires ResolveFrom(installed, from, name1) == ResolveFrom(installed, from, name2)
    ensures name1 == name2
  {
    var at1 := FoundIsChild(installed, from, name1);
    var at2 := FoundIsChild(installed, from, name2);
    ChildDeterminesName(at1, name1, at2, name2);
  }

  /** Names npm allows are never ambiguous. */
  lemma PlainNamesAreNotAmbiguous(entries: Entries)
    requires PlainNames(entries)
    ensures !Ambiguous(entries)
  {
    forall from, to ensures !DeclaresTwice(entries, from, to) {
      if from in entries {
        forall a, b | TwoNames(LookupIn(entries.Keys), from, DeclaredNames(entries[from]), to, a, b) ensures a == b {
          assert Plain(a) && Plain(b);
          SameTargetSameName(entries.Keys, from, a, b);
        }
      }
    }
  }
}
