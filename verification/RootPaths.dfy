/**
  The enumeration of dependency paths from the root to an installed package, by walking edges upwards,
  the number of edges it examines, and what is reported of it within given limits.
 */
module RootPaths {
  import opened Prelude
  import opened Location
  import opened DependencyGraph

  /** A path below the root: its locations root-first, and whether the root names the first one for development only. */
  datatype RootPath = RootPath(viaDevEdge: bool, locations: seq<string>)

  datatype DependencyPath = DependencyPath(packages: seq<string>, developmentOnly: bool)

  datatype Limits = Limits(maxPaths: nat, maxSteps: nat)

  const LIMITS := Limits(200, 100_000)

  /** Edges lead from and to installed locations only. */
  predicate Closed(g: LockGraph) {
    && g.incoming.Keys == g.entries.Keys
    && forall t | t in g.incoming :: FromInstalled(g, g.incoming[t])
  }

  predicate FromInstalled(g: LockGraph, edges: seq<ParentEdge>) {
    forall e | e in edges :: e.location in g.entries
  }

  predicate AllInstalled(g: LockGraph, locations: seq<string>) {
    forall l | l in locations :: l in g.entries
  }

  type ClosedGraph = g: LockGraph | Closed(g) witness LockGraph(map[], map[])

  lemma InversionIsClosed(g: LockGraph)
    requires InvertsDependencies(g)
    ensures Closed(g)
  {
    forall t, e | t in g.incoming && e in g.incoming[t] ensures e.location in g.entries {
      assert DependsOn(g.entries, e.location, t, e.viaDevEdge);
    }
  }

  // ---------------------------------------------------------------- enumeration

  /** The paths that reach the root by first following `edge` up from `locations[0]`. */
  function PathsThrough(g: LockGraph, edge: ParentEdge, locations: seq<string>): (paths: seq<RootPath>)
    requires Closed(g) && edge.location in g.entries && AllInstalled(g, locations)
    ensures forall p :: p in paths ==> AllInstalled(g, p.locations)
    decreases g.entries.Keys - Elements(locations), 0
  {
    if edge.location == "" then [RootPath(edge.viaDevEdge, locations)]
    else if edge.location in locations then []
    else
      Shrinks(g.entries.Keys, locations, edge.location);
      PathsVia(g, g.incoming[edge.location], [edge.location] + locations)
  }

  function PathsVia(g: LockGraph, edges: seq<ParentEdge>, locations: seq<string>): (paths: seq<RootPath>)
    requires Closed(g) && FromInstalled(g, edges) && AllInstalled(g, locations)
    ensures forall p :: p in paths ==> AllInstalled(g, p.locations)
    decreases g.entries.Keys - Elements(locations), |edges|
  {
    if edges == [] then [] else PathsThrough(g, edges[0], locations) + PathsVia(g, edges[1..], locations)
  }

  /** How many edges that enumeration examines. */
  function StepsThrough(g: LockGraph, edge: ParentEdge, locations: seq<string>): nat
    requires Closed(g) && edge.location in g.entries && AllInstalled(g, locations)
    decreases g.entries.Keys - Elements(locations), 0
  {
    if edge.location == "" || edge.location in locations then 1
    else
      Shrinks(g.entries.Keys, locations, edge.location);
      1 + StepsVia(g, g.incoming[edge.location], [edge.location] + locations)
  }

  function StepsVia(g: LockGraph, edges: seq<ParentEdge>, locations: seq<string>): nat
    requires Closed(g) && FromInstalled(g, edges) && AllInstalled(g, locations)
    decreases g.entries.Keys - Elements(locations), |edges|
  {
    if edges == [] then 0 else StepsThrough(g, edges[0], locations) + StepsVia(g, edges[1..], locations)
  }

  /** A path that grows by a new location leaves fewer to visit. */
  lemma Shrinks(all: set<string>, locations: seq<string>, next: string)
    requires next in all && next !in locations
    ensures all - Elements([next] + locations) < all - Elements(locations)
  {
    assert next in all - Elements(locations);
    assert forall l :: l in locations ==> l in [next] + locations;
    assert next in [next] + locations;
  }

  function PathsTo(g: LockGraph, location: string): seq<RootPath>
    requires Closed(g) && location in g.entries
  {
    PathsVia(g, g.incoming[location], [location])
  }

  function StepsTo(g: LockGraph, location: string): nat
    requires Closed(g) && location in g.entries
  {
    StepsVia(g, g.incoming[location], [location])
  }

  // ---------------------------------------------------------------- what is reported of a path

  function Label(g: LockGraph, location: string): string
    requires location in g.entries
  {
    AtVersion(g.entries[location].name, g.entries[location].version)
  }

  function Labels(g: LockGraph, locations: seq<string>): seq<string>
    requires AllInstalled(g, locations)
  {
    seq(|locations|, i requires 0 <= i < |locations| => Label(g, locations[i]))
  }

  predicate AllDev(g: LockGraph, locations: seq<string>)
    requires AllInstalled(g, locations)
  {
    forall l | l in locations :: g.entries[l].dev
  }

  function Describe(g: LockGraph, p: RootPath): DependencyPath
    requires AllInstalled(g, p.locations)
  {
    DependencyPath(Labels(g, p.locations), p.viaDevEdge && AllDev(g, p.locations))
  }

  function DescribeAll(g: LockGraph, paths: seq<RootPath>): seq<DependencyPath>
    requires forall p :: p in paths ==> AllInstalled(g, p.locations)
  {
    seq(|paths|, i requires 0 <= i < |paths| => Describe(g, paths[i]))
  }

  /** What a search for all paths to `location` must report: all of them, or nothing when over budget. */
  function Reported(g: LockGraph, location: string, limits: Limits): Option<seq<DependencyPath>>
    requires Closed(g)
  {
    if location !in g.entries then None
    else if StepsTo(g, location) > limits.maxSteps || |PathsTo(g, location)| > limits.maxPaths then None
    else Some(DescribeAll(g, PathsTo(g, location)))
  }
}
