/**
  The dependency graph of a package-lock (v2/v3). Which package depends on which is a relation
  (`DependsOn`) over the installed entries; a `LockGraph` records its inverse, so that the ancestry
  of a package can be walked upwards.
 */
module DependencyGraph {
  import opened Prelude
  import opened Location

  datatype LockEntry = LockEntry(
    name: string,
    version: string,
    dev: bool,
    dependencies: seq<string>,
    devDependencies: seq<string>)

  datatype ParentEdge = ParentEdge(location: string, viaDevEdge: bool)

  type Entries = map<string, LockEntry>

  /** The graph: every installed location, and who depends on it in the order the edges were found. */
  datatype LockGraph = LockGraph(entries: Entries, incoming: map<string, seq<ParentEdge>>)

  type Resolver = (string, string) -> Option<string>

  function LookupIn(installed: set<string>): Resolver {
    (from: string, dependency: string) => ResolveFrom(installed, from, dependency)
  }

  // ---------------------------------------------------------------- the dependency relation

  predicate IsRuntime(entry: LockEntry, name: string) {
    name in entry.dependencies
  }

  /** `from` declares a dependency that resolves to `to`; `viaDev` when only the root's dev list names it. */
  ghost predicate DependsOn(entries: Entries, from: string, to: string, viaDev: bool) {
    && from in entries
    && exists name ::
         && name in entries[from].dependencies + entries[from].devDependencies
         && LookupIn(entries.Keys)(from, name) == Some(to)
         && viaDev == (from == "" && !IsRuntime(entries[from], name))
  }

  /** The recorded edges are the inverse of the dependency relation, nothing more and nothing less. */
  ghost predicate InvertsDependencies(g: LockGraph) {
    && g.incoming.Keys == g.entries.Keys
    && forall t, e :: t in g.entries ==>
         (e in g.incoming[t] <==> DependsOn(g.entries, e.location, t, e.viaDevEdge))
  }

  /** Every name an entry declares, once each, in declaration order. */
  function DeclaredNames(e: LockEntry): seq<string> {
    InsertAll([], e.dependencies + e.devDependencies)
  }

  function EdgeTo(entries: Entries, resolve: Resolver, from: string, name: string, target: string): seq<ParentEdge>
    requires from in entries
  {
    if resolve(from, name) == Some(target) then [ParentEdge(from, from == "" && !IsRuntime(entries[from], name))]
    else []
  }

  /** The edges into `target` through the declared `names` of one location. */
  function EdgesByName(entries: Entries, resolve: Resolver, from: string, names: seq<string>,
                       target: string): seq<ParentEdge>
    requires from in entries
  {
    if names == [] then []
    else EdgesByName(entries, resolve, from, names[..|names| - 1], target)
         + EdgeTo(entries, resolve, from, names[|names| - 1], target)
  }

  /** The edges into `target` from `locations`, in order. */
  function EdgesByLocation(entries: Entries, resolve: Resolver, locations: seq<string>, target: string): seq<ParentEdge>
    requires forall l :: l in locations ==> l in entries
  {
    if locations == [] then []
    else
      var from := locations[|locations| - 1];
      EdgesByLocation(entries, resolve, locations[..|locations| - 1], target)
      + EdgesByName(entries, resolve, from, DeclaredNames(entries[from]), target)
  }

  lemma {:induction false} EdgesByNameExact(entries: Entries, resolve: Resolver, from: string, names: seq<string>,
                                            target: string, e: ParentEdge)
    requires from in entries
    ensures e in EdgesByName(entries, resolve, from, names, target) <==>
            e.location == from && exists name ::
              && name in names && resolve(from, name) == Some(target)
              && e.viaDevEdge == (from == "" && !IsRuntime(entries[from], name))
  {
    if names != [] {
      var front, last := names[..|names| - 1], names[|names| - 1];
      assert names == front + [last];
      EdgesByNameExact(entries, resolve, from, front, target, e);
    }
  }

  lemma {:induction false} EdgesByLocationExact(entries: Entries, resolve: Resolver, locations: seq<string>,
                                                target: string, e: ParentEdge)
    requires forall l :: l in locations ==> l in entries
    ensures e in EdgesByLocation(entries, resolve, locations, target) <==>
            e.location in locations && exists name ::
              && name in entries[e.location].dependencies + entries[e.location].devDependencies
              && resolve(e.location, name) == Some(target)
              && e.viaDevEdge == (e.location == "" && !IsRuntime(entries[e.location], name))
  {
    if locations != [] {
      var front, from := locations[..|locations| - 1], locations[|locations| - 1];
      assert locations == front + [from];
      EdgesByLocationExact(entries, resolve, front, target, e);
      EdgesByNameExact(entries, resolve, from, DeclaredNames(entries[from]), target, e);
    }
  }

  function GraphOf(entries: Entries, order: seq<string>): LockGraph
    requires Elements(order) == entries.Keys
  {
    LockGraph(entries, map t | t in entries :: EdgesByLocation(entries, LookupIn(entries.Keys), order, t))
  }

  lemma GraphOfInverts(entries: Entries, order: seq<string>)
    requires Elements(order) == entries.Keys
    ensures InvertsDependencies(GraphOf(entries, order))
  {
    var g := GraphOf(entries, order);
    forall t, e | t in entries
      ensures e in g.incoming[t] <==> DependsOn(entries, e.location, t, e.viaDevEdge)
    {
      EdgesByLocationExact(entries, LookupIn(entries.Keys), order, t, e);
    }
  }
}
