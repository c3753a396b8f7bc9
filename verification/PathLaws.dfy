/**
  What the enumeration of root paths means for the dependency relation: it lists exactly the simple
  paths, and no walk from the root can enter the tree except through a listed path.
 */
module PathLaws {
  import opened Prelude
  import opened DependencyGraph
  import opened RootPaths

  // ---------------------------------------------------------------- simple paths

  ghost predicate Requires(entries: Entries, from: string, to: string) {
    exists viaDev :: DependsOn(entries, from, to, viaDev)
  }

  type Relation = (string, string) -> bool

  ghost predicate Linked(r: Relation, locations: seq<string>) {
    forall i {:trigger locations[i]} :: 0 <= i < |locations| - 1 ==> r(locations[i], locations[i + 1])
  }

  ghost function RequiresIn(entries: Entries): Relation {
    (from: string, to: string) => Requires(entries, from, to)
  }

  /** Each location requires the next; locations may repeat. */
  ghost predicate IsWalk(entries: Entries, locations: seq<string>) {
    Linked(RequiresIn(entries), locations)
  }

  /** A simple path from the root down to `target`, entered through a root edge of the given kind. */
  ghost predicate IsRootPath(entries: Entries, p: RootPath, target: string) {
    && p.locations != [] && p.locations[|p.locations| - 1] == target
    && Distinct(p.locations)
    && IsWalk(entries, p.locations)
    && DependsOn(entries, "", p.locations[0], p.viaDevEdge)
  }

  /** `p` runs down to `locations`, which it joins through one of `edges`. */
  ghost predicate Joins(g: LockGraph, p: RootPath, edges: seq<ParentEdge>, locations: seq<string>) {
    var k := |p.locations| - |locations|;
    && k >= 0 && p.locations[k..] == locations
    && Distinct(p.locations) && IsWalk(g.entries, p.locations[..k])
    && if k == 0 then ParentEdge("", p.viaDevEdge) in edges
       else
         && "" !in p.locations[..k]
         && DependsOn(g.entries, "", p.locations[0], p.viaDevEdge)
         && exists e :: e in edges && e.location == p.locations[k - 1]
  }

  lemma NoEdgeIntoRoot(entries: Entries, from: string, to: string, viaDev: bool)
    requires DependsOn(entries, from, to, viaDev)
    ensures to != "" && to in entries
  {
  }

  lemma RootEdgeJoins(g: LockGraph, p: RootPath, edge: ParentEdge, locations: seq<string>)
    requires edge.location == "" && Distinct(locations) && locations != []
    ensures p == RootPath(edge.viaDevEdge, locations) <==> Joins(g, p, [edge], locations)
  {
    if p == RootPath(edge.viaDevEdge, locations) {
      assert p.locations[..0] == [];
    }
  }

  lemma RepeatNeverJoins(g: LockGraph, p: RootPath, edge: ParentEdge, locations: seq<string>)
    requires edge.location != "" && edge.location in locations
    ensures !Joins(g, p, [edge], locations)
  {
    var k := |p.locations| - |locations|;
    var j :| 0 <= j < |locations| && locations[j] == edge.location;
    if k > 0 && p.locations[k..] == locations {
      assert p.locations[k + j] == p.locations[k..][j] == edge.location;
    }
  }

  /** Reaching up through one edge is joining through that edge alone. */
  lemma {:induction false} ThroughExact(g: LockGraph, p: RootPath, edge: ParentEdge, locations: seq<string>)
    requires InvertsDependencies(g) && Closed(g)
    requires edge.location in g.entries && AllInstalled(g, locations) && Distinct(locations) && locations != []
    ensures p in PathsThrough(g, edge, locations) <==> Joins(g, p, [edge], locations)
    decreases g.entries.Keys - Elements(locations), 0
  {
    if edge.location == "" {
      RootEdgeJoins(g, p, edge, locations);
    } else if edge.location in locations {
      RepeatNeverJoins(g, p, edge, locations);
    } else {
      var longer := [edge.location] + locations;
      Shrinks(g.entries.Keys, locations, edge.location);
      ViaExact(g, p, g.incoming[edge.location], longer);
      JoinLonger(g, p, edge, locations);
    }
  }

  lemma LinkedLonger(r: Relation, locations: seq<string>, next: string)
    requires Linked(r, locations) && locations != [] && r(locations[|locations| - 1], next)
    ensures Linked(r, locations + [next])
  {
  }

  lemma LinkedShorter(r: Relation, locations: seq<string>, next: string)
    requires Linked(r, locations + [next])
    ensures Linked(r, locations) && (locations != [] ==> r(locations[|locations| - 1], next))
  {
    var longer := locations + [next];
    forall i {:trigger longer[i]} | 0 <= i < |locations| ensures r(longer[i], longer[i + 1]) {
    }
    forall i {:trigger locations[i]} | 0 <= i < |locations| - 1 ensures r(locations[i], locations[i + 1]) {
      assert r(longer[i], longer[i + 1]);
    }
    if locations != [] {
      assert r(longer[|locations| - 1], longer[|locations|]);
    }
  }

  lemma SplitAt(all: seq<string>, k: nat, parent: string, rest: seq<string>)
    requires 0 < k <= |all|
    ensures all[k - 1..] == [parent] + rest <==> all[k - 1] == parent && all[k..] == rest
    ensures all[k - 1] == parent ==> all[..k] == all[..k - 1] + [parent]
  {
    assert all[k - 1..] == [all[k - 1]] + all[k..];
    if all[k - 1..] == [parent] + rest {
      assert all[k - 1..][1..] == rest;
    }
  }

  lemma EdgeMeansRequires(g: LockGraph, t: string, e: ParentEdge)
    requires InvertsDependencies(g) && t in g.entries && e in g.incoming[t]
    ensures RequiresIn(g.entries)(e.location, t)
  {
    assert DependsOn(g.entries, e.location, t, e.viaDevEdge);
  }

  lemma WalkToParent(g: LockGraph, prefix: seq<string>, parent: string, e: ParentEdge)
    requires InvertsDependencies(g) && parent in g.entries && e in g.incoming[parent]
    requires IsWalk(g.entries, prefix) && prefix != [] && prefix[|prefix| - 1] == e.location
    ensures IsWalk(g.entries, prefix + [parent])
  {
    EdgeMeansRequires(g, parent, e);
    LinkedLonger(RequiresIn(g.entries), prefix, parent);
  }

  lemma JoinFromAboveRoot(g: LockGraph, p: RootPath, edge: ParentEdge, locations: seq<string>)
    requires InvertsDependencies(g) && edge.location in g.entries && edge.location != "" && locations != []
    requires Joins(g, p, g.incoming[edge.location], [edge.location] + locations)
    requires |p.locations| == |locations| + 1
    ensures Joins(g, p, [edge], locations)
  {
    SplitAt(p.locations, 1, edge.location, locations);
    assert p.locations[..1] == [edge.location];
    assert edge in [edge];
    EdgeIsDependency(g, edge.location, ParentEdge("", p.viaDevEdge));
  }

  lemma JoinFromAbove(g: LockGraph, p: RootPath, edge: ParentEdge, locations: seq<string>)
    requires InvertsDependencies(g) && edge.location in g.entries && edge.location != "" && locations != []
    requires Joins(g, p, g.incoming[edge.location], [edge.location] + locations)
    ensures Joins(g, p, [edge], locations)
  {
    var k := |p.locations| - |locations|;
    if k == 1 {
      JoinFromAboveRoot(g, p, edge, locations);
    } else {
      var prefix := p.locations[..k - 1];
      SplitAt(p.locations, k, edge.location, locations);
      assert p.locations[..k] == prefix + [edge.location];
      assert edge in [edge];
      var e :| e in g.incoming[edge.location] && e.location == p.locations[k - 2];
      WalkToParent(g, prefix, edge.location, e);
    }
  }

  lemma EdgeIsDependency(g: LockGraph, t: string, e: ParentEdge)
    requires InvertsDependencies(g) && t in g.entries && e in g.incoming[t]
    ensures DependsOn(g.entries, e.location, t, e.viaDevEdge)
  {
  }

  lemma RequiringIsRecorded(g: LockGraph, from: string, to: string) returns (e: ParentEdge)
    requires InvertsDependencies(g) && to in g.entries && RequiresIn(g.entries)(from, to)
    ensures e in g.incoming[to] && e.location == from
  {
    var viaDev :| DependsOn(g.entries, from, to, viaDev);
    return ParentEdge(from, viaDev);
  }

  lemma JoinFromBelow(g: LockGraph, p: RootPath, edge: ParentEdge, locations: seq<string>)
    requires InvertsDependencies(g) && edge.location in g.entries && edge.location != "" && locations != []
    requires Joins(g, p, [edge], locations)
    ensures Joins(g, p, g.incoming[edge.location], [edge.location] + locations)
  {
    var k := |p.locations| - |locations|;
    var prefix := p.locations[..k - 1];
    SplitAt(p.locations, k, edge.location, locations);
    LinkedShorter(RequiresIn(g.entries), prefix, edge.location);
    if k > 1 {
      var e := RequiringIsRecorded(g, prefix[k - 2], edge.location);
      assert e.location == p.locations[k - 2];
    } else {
      assert ParentEdge("", p.viaDevEdge) in g.incoming[edge.location];
    }
  }

  lemma JoinLonger(g: LockGraph, p: RootPath, edge: ParentEdge, locations: seq<string>)
    requires InvertsDependencies(g) && edge.location in g.entries && edge.location != "" && locations != []
    ensures Joins(g, p, g.incoming[edge.location], [edge.location] + locations) <==> Joins(g, p, [edge], locations)
  {
    if Joins(g, p, g.incoming[edge.location], [edge.location] + locations) {
      JoinFromAbove(g, p, edge, locations);
    } else if Joins(g, p, [edge], locations) {
      JoinFromBelow(g, p, edge, locations);
    }
  }

  lemma {:induction false} ViaExact(g: LockGraph, p: RootPath, edges: seq<ParentEdge>, locations: seq<string>)
    requires InvertsDependencies(g) && Closed(g)
    requires FromInstalled(g, edges) && AllInstalled(g, locations) && Distinct(locations) && locations != []
    ensures p in PathsVia(g, edges, locations) <==> Joins(g, p, edges, locations)
    decreases g.entries.Keys - Elements(locations), |edges|
  {
    if edges != [] {
      ThroughExact(g, p, edges[0], locations);
      ViaExact(g, p, edges[1..], locations);
      assert edges == [edges[0]] + edges[1..];
      assert Joins(g, p, edges, locations)
             <==> Joins(g, p, [edges[0]], locations) || Joins(g, p, edges[1..], locations);
    }
  }

  lemma JoinsImpliesRootPath(g: LockGraph, target: string, p: RootPath)
    requires InvertsDependencies(g) && target in g.entries
    requires Joins(g, p, g.incoming[target], [target])
    ensures IsRootPath(g.entries, p, target)
  {
    var k := |p.locations| - 1;
    assert p.locations[k] == p.locations[k..][0] == target;
    if k == 0 {
      EdgeIsDependency(g, target, ParentEdge("", p.viaDevEdge));
    } else {
      var e :| e in g.incoming[target] && e.location == p.locations[k - 1];
      WalkToParent(g, p.locations[..k], target, e);
      assert p.locations == p.locations[..k] + [target];
    }
  }

  lemma NoRootOnPath(entries: Entries, p: RootPath, target: string, i: nat)
    requires IsRootPath(entries, p, target) && i < |p.locations|
    ensures p.locations[i] != ""
  {
    if i == 0 {
      NoEdgeIntoRoot(entries, "", p.locations[0], p.viaDevEdge);
    } else {
      assert Requires(entries, p.locations[i - 1], p.locations[i]);
    }
  }

  lemma RootPathJoins(g: LockGraph, target: string, p: RootPath)
    requires InvertsDependencies(g) && target in g.entries
    requires IsRootPath(g.entries, p, target)
    ensures Joins(g, p, g.incoming[target], [target])
  {
    var k := |p.locations| - 1;
    assert p.locations[k..] == [target];
    if k == 0 {
      assert ParentEdge("", p.viaDevEdge) in g.incoming[target];
    } else {
      forall i | 0 <= i < k ensures p.locations[..k][i] != "" {
        NoRootOnPath(g.entries, p, target, i);
      }
      assert Requires(g.entries, p.locations[k - 1], p.locations[k]);
      var viaDev :| DependsOn(g.entries, p.locations[k - 1], target, viaDev);
      assert ParentEdge(p.locations[k - 1], viaDev) in g.incoming[target];
      forall i | 0 <= i < k - 1 ensures Requires(g.entries, p.locations[..k][i], p.locations[..k][i + 1]) {
        assert Requires(g.entries, p.locations[i], p.locations[i + 1]);
      }
    }
  }

  /** The enumeration is exhaustive and lists nothing else. */
  lemma EnumerationIsExact(g: LockGraph, target: string, p: RootPath)
    requires InvertsDependencies(g) && target in g.entries
    ensures Closed(g)
    ensures p in PathsTo(g, target) <==> IsRootPath(g.entries, p, target)
  {
    InversionIsClosed(g);
    ViaExact(g, p, g.incoming[target], [target]);
    if Joins(g, p, g.incoming[target], [target]) {
      JoinsImpliesRootPath(g, target, p);
    } else if IsRootPath(g.entries, p, target) {
      RootPathJoins(g, target, p);
    }
  }

  // ---------------------------------------------------------------- walks with loops

  lemma LoopCut(r: Relation, walk: seq<string>, i: nat, j: nat)
    requires Linked(r, walk) && i < j < |walk| && walk[i] == walk[j]
    ensures Linked(r, walk[..i] + walk[j..])
  {
    var shorter := walk[..i] + walk[j..];
    forall k {:trigger shorter[k]} | 0 <= k < |shorter| - 1 ensures r(shorter[k], shorter[k + 1]) {
      var from := if k < i then k else k - i + j;
      assert r(walk[from], walk[from + 1]);
      assert shorter[k] == walk[from] && shorter[k + 1] == walk[from + 1];
    }
  }

  /** Cutting the loops out of a walk leaves a simple one between the same ends. */
  lemma {:induction false} LoopsCanBeCut(r: Relation, walk: seq<string>) returns (simple: seq<string>)
    requires walk != [] && Linked(r, walk)
    ensures simple != [] && Linked(r, simple) && Distinct(simple)
    ensures simple[0] == walk[0] && simple[|simple| - 1] == walk[|walk| - 1]
    ensures forall l :: l in simple ==> l in walk
    decreases |walk|
  {
    if Distinct(walk) {
      return walk;
    }
    var i, j :| 0 <= i < j < |walk| && walk[i] == walk[j];
    LoopCut(r, walk, i, j);
    simple := LoopsCanBeCut(r, walk[..i] + walk[j..]);
  }

  /** Some walk from the root, looping or not, reaches `node` through a runtime, optional or peer dependency of the
      root. */
  ghost predicate RuntimeReachable(entries: Entries, node: string) {
    exists walk :: walk != [] && walk[|walk| - 1] == node && IsWalk(entries, walk)
      && DependsOn(entries, "", walk[0], false)
  }

  /** However a walk from the root loops before it reaches `target`, a listed path starts with the same edge. */
  lemma EveryWalkIsListed(g: LockGraph, walk: seq<string>, viaDev: bool) returns (p: RootPath)
    requires InvertsDependencies(g) && walk != [] && IsWalk(g.entries, walk)
    requires DependsOn(g.entries, "", walk[0], viaDev)
    ensures walk[|walk| - 1] in g.entries && Closed(g)
    ensures p.viaDevEdge == viaDev && p.locations != [] && p.locations[0] == walk[0]
    ensures p in PathsTo(g, walk[|walk| - 1])
  {
    if |walk| > 1 {
      assert Requires(g.entries, walk[|walk| - 2], walk[|walk| - 1]);
    }
    var simple := LoopsCanBeCut(RequiresIn(g.entries), walk);
    p := RootPath(viaDev, simple);
    EnumerationIsExact(g, walk[|walk| - 1], p);
  }
}
