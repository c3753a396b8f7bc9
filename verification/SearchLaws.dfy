/**
  What the budgeted search reports, and what it counts as steps: one for every edge above every simple chain
  that climbs from the target without passing the root.
 */
module SearchLaws {
  import opened Prelude
  import opened DependencyGraph
  import opened RootPaths
  import opened PathLaws
  import opened PathCounts

  // ---------------------------------------------------------------- reported paths

  /** `packages` names the package installed at each location, and its version. */
  predicate Writes(entries: Entries, locations: seq<string>, packages: seq<string>) {
    && |packages| == |locations|
    && forall i | 0 <= i < |packages| ::
         && locations[i] in entries
         && packages[i] == entries[locations[i]].name + "@" + entries[locations[i]].version
  }

  lemma LabelsAreWritten(g: LockGraph, locations: seq<string>, packages: seq<string>)
    requires AllInstalled(g, locations)
    ensures packages == Labels(g, locations) <==> Writes(g.entries, locations, packages)
  {
    if Writes(g.entries, locations, packages) {
      forall i | 0 <= i < |packages| ensures packages[i] == Labels(g, locations)[i] {
      }
    }
  }

  /** `path` is what is reported of the root path `p`. */
  ghost predicate ReportsPath(entries: Entries, path: DependencyPath, p: RootPath) {
    && Writes(entries, p.locations, path.packages)
    && (path.developmentOnly <==> p.viaDevEdge && forall l :: l in p.locations ==> l in entries && entries[l].dev)
  }

  lemma DescribedExactly(g: LockGraph, path: DependencyPath, p: RootPath)
    requires AllInstalled(g, p.locations)
    ensures path == Describe(g, p) <==> ReportsPath(g.entries, path, p)
  {
    LabelsAreWritten(g, p.locations, path.packages);
  }

  /** Nothing is reported exactly when the location is not installed or a budget is exceeded; otherwise exactly the
      simple root paths are, each with the packages on it and whether it is development-only. */
  lemma ReportedExactly(g: ClosedGraph, location: string, limits: Limits, path: DependencyPath)
    requires InvertsDependencies(g)
    ensures Reported(g, location, limits).None? <==>
            location !in g.entries || StepsTo(g, location) > limits.maxSteps || |PathsTo(g, location)| > limits.maxPaths
    ensures Reported(g, location, limits).Some? ==>
              (path in Reported(g, location, limits).value <==>
               exists p :: IsRootPath(g.entries, p, location) && ReportsPath(g.entries, path, p))
  {
    if Reported(g, location, limits).Some? {
      var paths := PathsTo(g, location);
      forall p ensures p in paths <==> IsRootPath(g.entries, p, location) {
        EnumerationIsExact(g, location, p);
      }
      forall p | p in paths ensures path == Describe(g, p) <==> ReportsPath(g.entries, path, p) {
        DescribedExactly(g, path, p);
      }
      DescribedAmong(g, paths, path);
    }
  }

  lemma DescribedAmong(g: LockGraph, paths: seq<RootPath>, path: DependencyPath)
    requires forall p :: p in paths ==> AllInstalled(g, p.locations)
    ensures path in DescribeAll(g, paths) <==> exists p :: p in paths && path == Describe(g, p)
  {
    if p :| p in paths && path == Describe(g, p) {
      var i :| 0 <= i < |paths| && paths[i] == p;
      assert DescribeAll(g, paths)[i] == path;
    }
  }

  /** Edges recorded earlier are followed earlier. */
  lemma {:induction false} EarlierEdgesFirst(g: LockGraph, earlier: seq<ParentEdge>, later: seq<ParentEdge>,
                                             locations: seq<string>)
    requires Closed(g) && FromInstalled(g, earlier) && FromInstalled(g, later) && AllInstalled(g, locations)
    ensures FromInstalled(g, earlier + later)
    ensures PathsVia(g, earlier + later, locations)
            == PathsVia(g, earlier, locations) + PathsVia(g, later, locations)
  {
    if earlier == [] {
      assert earlier + later == later;
    } else {
      assert (earlier + later)[1..] == earlier[1..] + later;
      EarlierEdgesFirst(g, earlier[1..], later, locations);
    }
  }

  // ---------------------------------------------------------------- steps

  /** An edge, examined above the chain `below`. */
  datatype Visit = Visit(edge: ParentEdge, below: seq<string>)

  /** The edges examined from `edges` on, in order. */
  ghost function Examined(g: LockGraph, edges: seq<ParentEdge>, locations: seq<string>): seq<Visit>
    requires Closed(g) && FromInstalled(g, edges) && AllInstalled(g, locations)
    decreases g.entries.Keys - Elements(locations), |edges|
  {
    if edges == [] then []
    else
      var next := edges[0].location;
      [Visit(edges[0], locations)]
      + (if next == "" || next in locations then []
         else
           Shrinks(g.entries.Keys, locations, next);
           Examined(g, g.incoming[next], [next] + locations))
      + Examined(g, edges[1..], locations)
  }

  /** `chain` climbs from `locations` through one of `edges`, repeating nothing and not passing the root. */
  ghost predicate Climbs(g: LockGraph, edges: seq<ParentEdge>, locations: seq<string>, chain: seq<string>) {
    var k := |chain| - |locations|;
    && k >= 0 && chain[k..] == locations
    && Distinct(chain) && IsWalk(g.entries, chain[..k]) && "" !in chain[..k]
    && (k > 0 ==> exists e :: e in edges && e.location == chain[k - 1])
  }

  /** The edges above the top of such a chain are the ones examined. */
  ghost predicate IsExamined(g: LockGraph, edges: seq<ParentEdge>, locations: seq<string>, v: Visit) {
    && Climbs(g, edges, locations, v.below)
    && if |v.below| == |locations| then v.edge in edges
       else v.below[0] in g.incoming && v.edge in g.incoming[v.below[0]]
  }

  lemma {:induction false} StepsAreVisits(g: LockGraph, edges: seq<ParentEdge>, locations: seq<string>)
    requires Closed(g) && FromInstalled(g, edges) && AllInstalled(g, locations)
    ensures StepsVia(g, edges, locations) == |Examined(g, edges, locations)|
    decreases g.entries.Keys - Elements(locations), |edges|
  {
    if edges != [] {
      var next := edges[0].location;
      if next != "" && next !in locations {
        Shrinks(g.entries.Keys, locations, next);
        StepsAreVisits(g, g.incoming[next], [next] + locations);
      }
      StepsAreVisits(g, edges[1..], locations);
    }
  }

  lemma VisitFromJustAbove(g: LockGraph, edge: ParentEdge, locations: seq<string>, v: Visit)
    requires edge.location in g.incoming && edge.location != "" && locations != []
    requires IsExamined(g, g.incoming[edge.location], [edge.location] + locations, v)
    requires |v.below| == |locations| + 1
    ensures IsExamined(g, [edge], locations, v)
  {
    assert v.below[0..] == v.below;
    assert v.below == [edge.location] + locations && v.below[1..] == locations && v.below[..1] == [edge.location];
    assert edge in [edge];
  }

  lemma VisitFromAbove(g: LockGraph, edge: ParentEdge, locations: seq<string>, v: Visit)
    requires InvertsDependencies(g) && edge.location in g.entries && edge.location != "" && locations != []
    requires IsExamined(g, g.incoming[edge.location], [edge.location] + locations, v)
    ensures |v.below| > |locations| && IsExamined(g, [edge], locations, v)
  {
    var k := |v.below| - |locations|;
    if k == 1 {
      VisitFromJustAbove(g, edge, locations, v);
    } else {
      var prefix := v.below[..k - 1];
      SplitAt(v.below, k, edge.location, locations);
      assert v.below[..k] == prefix + [edge.location];
      assert edge in [edge];
      var e :| e in g.incoming[edge.location] && e.location == v.below[k - 2];
      WalkToParent(g, prefix, edge.location, e);
    }
  }

  lemma VisitFromBelow(g: LockGraph, edge: ParentEdge, locations: seq<string>, v: Visit)
    requires InvertsDependencies(g) && edge.location in g.entries && locations != []
    requires |v.below| > |locations| && IsExamined(g, [edge], locations, v)
    ensures edge.location != "" && edge.location !in locations
    ensures IsExamined(g, g.incoming[edge.location], [edge.location] + locations, v)
  {
    var k := |v.below| - |locations|;
    var prefix := v.below[..k - 1];
    assert v.below[..k][k - 1] == edge.location;
    assert forall i :: 0 <= i < |locations| ==> v.below[k..][i] == v.below[k + i];
    SplitAt(v.below, k, edge.location, locations);
    LinkedShorter(RequiresIn(g.entries), prefix, edge.location);
    assert forall i :: 0 <= i < k - 1 ==> prefix[i] == v.below[..k][i];
    if k > 1 {
      var e := RequiringIsRecorded(g, prefix[k - 2], edge.location);
      assert e.location == v.below[k - 2];
    }
  }

  lemma ExaminedThroughOne(g: LockGraph, edges: seq<ParentEdge>, locations: seq<string>, v: Visit)
    requires edges != [] && Distinct(locations)
    ensures IsExamined(g, edges, locations, v) <==>
            || v == Visit(edges[0], locations)
            || (|v.below| > |locations| && IsExamined(g, [edges[0]], locations, v))
            || IsExamined(g, edges[1..], locations, v)
  {
    assert edges == [edges[0]] + edges[1..];
    if v.below == locations {
      assert v.below[..0] == [];
    }
    assert |v.below| == |locations| && v.below[0..] == locations ==> v.below == locations;
  }

  /** The edges examined are exactly those above the chains that climb from the start. */
  lemma {:induction false} ExaminedExactly(g: LockGraph, edges: seq<ParentEdge>, locations: seq<string>, v: Visit)
    requires InvertsDependencies(g) && Closed(g) && FromInstalled(g, edges) && AllInstalled(g, locations)
    requires Distinct(locations) && locations != []
    ensures v in Examined(g, edges, locations) <==> IsExamined(g, edges, locations, v)
    decreases g.entries.Keys - Elements(locations), |edges|
  {
    if edges != [] {
      var edge := edges[0];
      ExaminedThroughOne(g, edges, locations, v);
      ExaminedExactly(g, edges[1..], locations, v);
      if edge.location != "" && edge.location !in locations {
        Shrinks(g.entries.Keys, locations, edge.location);
        ExaminedExactly(g, g.incoming[edge.location], [edge.location] + locations, v);
        if IsExamined(g, g.incoming[edge.location], [edge.location] + locations, v) {
          VisitFromAbove(g, edge, locations, v);
        }
      }
      if |v.below| > |locations| && IsExamined(g, [edge], locations, v) {
        VisitFromBelow(g, edge, locations, v);
      }
    }
  }

  /** No package is recorded twice above another. */
  ghost predicate RecordsEachEdgeOnce(g: LockGraph) {
    forall t {:trigger g.incoming[t]} :: t in g.incoming ==> Distinct(g.incoming[t])
  }

  lemma DistinctParts<T>(first: T, middle: seq<T>, rest: seq<T>)
    requires Distinct(middle) && Distinct(rest) && first !in middle && first !in rest
    requires forall x :: x in middle ==> x !in rest
    ensures Distinct([first] + middle + rest)
  {
    var all := [first] + middle + rest;
    forall i, j | 0 <= i < j < |all| ensures all[i] != all[j] {
      if 0 < i <= |middle| {
        assert all[i] in middle;
      }
      assert i > |middle| ==> all[i] == rest[i - 1 - |middle|];
      assert j > |middle| ==> all[j] == rest[j - 1 - |middle|] && all[j] in rest;
      assert 0 < j <= |middle| ==> all[j] == middle[j - 1];
    }
  }

  lemma ApartFromTail(g: LockGraph, edges: seq<ParentEdge>, locations: seq<string>, v: Visit)
    requires edges != [] && Distinct(edges) && DevFromRootOnly(edges) && edges[0].location != ""
    requires |v.below| > |locations| && IsExamined(g, [edges[0]], locations, v)
    ensures !IsExamined(g, edges[1..], locations, v)
  {
    forall e | e in edges[1..] ensures e.location != edges[0].location {
      assert e in edges && edges[0] in edges && e != edges[0];
    }
  }

  lemma {:induction false} VisitsAreDistinct(g: LockGraph, edges: seq<ParentEdge>, locations: seq<string>)
    requires InvertsDependencies(g) && Closed(g) && RecordsEachEdgeOnce(g)
    requires FromInstalled(g, edges) && AllInstalled(g, locations) && Distinct(edges) && DevFromRootOnly(edges)
    requires Distinct(locations) && locations != []
    ensures Distinct(Examined(g, edges, locations))
    decreases g.entries.Keys - Elements(locations), |edges|
  {
    if edges != [] {
      var next, first := edges[0].location, Visit(edges[0], locations);
      var rest := Examined(g, edges[1..], locations);
      VisitsAreDistinct(g, edges[1..], locations);
      ExaminedExactly(g, edges[1..], locations, first);
      if next != "" && next !in locations {
        var longer := [next] + locations;
        Shrinks(g.entries.Keys, locations, next);
        IncomingDevFromRootOnly(g, next);
        VisitsAreDistinct(g, g.incoming[next], longer);
        var middle := Examined(g, g.incoming[next], longer);
        forall v | v in middle ensures v !in rest && v != first {
          ExaminedExactly(g, g.incoming[next], longer, v);
          VisitFromAbove(g, edges[0], locations, v);
          ApartFromTail(g, edges, locations, v);
          ExaminedExactly(g, edges[1..], locations, v);
        }
        DistinctParts(first, middle, rest);
      } else {
        DistinctParts(first, [], rest);
        assert [first] + [] + rest == Examined(g, edges, locations);
      }
    }
  }

  /** The search takes one step for every edge above a chain that climbs from the target, and where no edge is
      recorded twice, no more. */
  lemma StepsExactly(g: ClosedGraph, location: string, v: Visit)
    requires InvertsDependencies(g) && location in g.entries
    ensures var visits := Examined(g, g.incoming[location], [location]);
            && StepsTo(g, location) == |visits|
            && (v in visits <==> IsExamined(g, g.incoming[location], [location], v))
            && (RecordsEachEdgeOnce(g) ==> Distinct(visits))
  {
    StepsAreVisits(g, g.incoming[location], [location]);
    ExaminedExactly(g, g.incoming[location], [location], v);
    if RecordsEachEdgeOnce(g) {
      IncomingDevFromRootOnly(g, location);
      VisitsAreDistinct(g, g.incoming[location], [location]);
    }
  }
}
