/**
  Reading package-lock.json into a graph. `Load` says what a lockfile stands for; the class
  `LockfileGraph` holds the graph the way the program does, as maps filled by loops.
 */
module Lockfile {
  import opened Prelude
  import opened Location
  import opened DependencyGraph
  import opened RootPaths
  import Json

  // ---------------------------------------------------------------- reading package-lock.json

  function Decimal(n: nat): string {
    if n < 10 then [('0' as int + n) as char] else Decimal(n / 10) + Decimal(n % 10)
  }

  /** `Object.keys` of a property when it is an object (or array), otherwise nothing. */
  function KeysOf(v: Json.Value): seq<string> {
    match v
    case Object(fields) => seq(|fields|, i requires 0 <= i < |fields| => fields[i].key)
    case Array(items) => seq(|items|, i requires 0 <= i < |items| => Decimal(i))
    case _ => []
  }

  /** The package name a location ends with. */
  function NameFromLocation(location: string): string {
    SliceFrom(location, LastIndexOf(location, MARKER) + 13)
  }

  function EntryOf(location: string, raw: Json.Value): (e: LockEntry)
    ensures location != "" ==> e.devDependencies == []
  {
    var name, version := Json.Get(raw, "name"), Json.Get(raw, "version");
    LockEntry(
      if location == "" then "" else if name.String? then name.s else NameFromLocation(location),
      if version.String? then version.s else "",
      Json.Get(raw, "dev") == Json.Bool(true),
      KeysOf(Json.Get(raw, "dependencies")) + KeysOf(Json.Get(raw, "optionalDependencies"))
      + KeysOf(Json.Get(raw, "peerDependencies")),
      if location == "" then KeysOf(Json.Get(raw, "devDependencies")) else [])
  }

  /** Entries by location, each read by `read`; a later field replaces an earlier one. */
  function EntriesBy(read: (string, Json.Value) -> LockEntry, fields: seq<Json.Field<Json.Value>>): Entries {
    if fields == [] then map[]
    else
      var last := fields[|fields| - 1];
      EntriesBy(read, fields[..|fields| - 1])[last.key := read(last.key, last.value)]
  }

  function EntriesOf(fields: seq<Json.Field<Json.Value>>): Entries {
    EntriesBy(EntryOf, fields)
  }

  lemma {:induction false} EntriesByExact(read: (string, Json.Value) -> LockEntry, fields: seq<Json.Field<Json.Value>>)
    ensures EntriesBy(read, fields).Keys == Elements(Locations(fields))
  {
    if fields != [] {
      var front, last := fields[..|fields| - 1], fields[|fields| - 1];
      EntriesByExact(read, front);
      LocationsOfLonger(front, last);
      assert fields == front + [last];
    }
  }

  lemma EntriesOfExact(fields: seq<Json.Field<Json.Value>>)
    ensures EntriesOf(fields).Keys == Elements(Locations(fields))
  {
    EntriesByExact(EntryOf, fields);
  }

  lemma LocationsOfLonger(front: seq<Json.Field<Json.Value>>, last: Json.Field<Json.Value>)
    ensures Locations(front + [last]) == Locations(front) + [last.key]
    ensures Elements(Locations(front + [last])) == Elements(Locations(front)) + {last.key}
  {
    assert Locations(front + [last]) == Locations(front) + [last.key];
    ElementsOfLonger(Locations(front), last.key);
  }

  lemma ElementsOfLonger(s: seq<string>, x: string)
    ensures Elements(s + [x]) == Elements(s) + {x}
  {
  }

  function Locations(fields: seq<Json.Field<Json.Value>>): seq<string> {
    seq(|fields|, i requires 0 <= i < |fields| => fields[i].key)
  }

  /** What becomes of a lockfile: a graph, a refusal, or an uncaught TypeError. */
  datatype Loaded = Graph(graph: ClosedGraph) | Refused | Crashed

  /** Reading a property of a `null` package throws; a linked package is refused; the first one decides. */
  function FirstFault(fields: seq<Json.Field<Json.Value>>): (r: Option<Loaded>)
    ensures r.Some? ==> !r.value.Graph?
  {
    if fields == [] then None
    else if fields[0].value.Null? then Some(Crashed)
    else if Json.Get(fields[0].value, "link") == Json.Bool(true) then Some(Refused)
    else FirstFault(fields[1..])
  }

  predicate HasLockShape(payload: Json.Value) {
    var version, packages := Json.Get(payload, "lockfileVersion"), Json.Get(payload, "packages");
    && (version == Json.Number(2.0) || version == Json.Number(3.0))
    && Json.Truthy(Json.Get(packages, ""))
  }

  function Load(payload: Json.Value): Loaded {
    if !HasLockShape(payload) then Refused
    else
      var fields := Json.Get(payload, "packages").fields;
      if FirstFault(fields).Some? then FirstFault(fields).value
      else
        EntriesOfExact(fields);
        GraphOfInverts(EntriesOf(fields), Locations(fields));
        InversionIsClosed(GraphOf(EntriesOf(fields), Locations(fields)));
        Graph(GraphOf(EntriesOf(fields), Locations(fields)))
  }

  /** A lockfile that loads yields the exact inverse of its dependency relation. */
  lemma LoadedGraphInverts(payload: Json.Value)
    requires Load(payload).Graph?
    ensures InvertsDependencies(Load(payload).graph)
  {
    var fields := Json.Get(payload, "packages").fields;
    EntriesOfExact(fields);
    GraphOfInverts(EntriesOf(fields), Locations(fields));
  }

  // ---------------------------------------------------------------- the graph as the program builds it

  function ParentsAt(parents: map<string, seq<ParentEdge>>, target: string): seq<ParentEdge> {
    if target in parents then parents[target] else []
  }

  class LockfileGraph {
    var entries: map<string, LockEntry>
    var order: seq<string>               // insertion order of `entries`
    var parents: map<string, seq<ParentEdge>>

    ghost predicate Complete()
      reads this
    {
      Elements(order) == entries.Keys
    }

    ghost predicate Valid()
      reads this
    {
      && Complete()
      && Inverted(parents, entries, LookupIn(entries.Keys), order)
    }

    ghost function Model(): LockGraph
      reads this
      requires Complete()
    {
      GraphOf(entries, order)
    }

    /** The maps hold graph `g`. */
    ghost predicate Represents(g: LockGraph)
      reads this
    {
      g.entries == entries && forall t :: t in g.incoming ==> ParentsAt(parents, t) == g.incoming[t]
    }

    lemma ModelIsClosed()
      requires Valid()
      ensures Closed(Model()) && InvertsDependencies(Model()) && Represents(Model())
    {
      GraphOfInverts(entries, order);
      InversionIsClosed(Model());
    }

    constructor ()
      ensures entries == map[] && order == [] && parents == map[]
    {
      entries, order, parents := map[], [], map[];
    }

    method Resolve(from: string, dependency: string) returns (r: Option<string>)
      ensures r == ResolveFrom(entries.Keys, from, dependency)
    {
      var base := from;
      while true
        invariant ResolveFrom(entries.Keys, from, dependency) == ResolveFrom(entries.Keys, base, dependency)
        decreases |base|
      {
        var candidate := (if base != "" then base + "/" else "") + MARKER + dependency;
        if candidate in entries {
          return Some(candidate);
        }
        if base == "" {
          return None;
        }
        var index := LastIndexOf(base, MARKER);
        base := if index <= 0 then "" else base[..index - 1];
      }
    }

    method Version(location: string) returns (r: Option<string>)
      ensures r == if location in entries then Some(entries[location].version) else None
    {
      r := if location in entries then Some(entries[location].version) else None;
    }

    function LabelOf(location: string): string
      reads this
      requires location in entries
    {
      AtVersion(entries[location].name, entries[location].version)
    }

    predicate AreDev(locations: seq<string>)
      reads this
    {
      forall l | l in locations :: l in entries && entries[l].dev
    }

    /** Every root-to-node path, or nothing when they cannot all be enumerated within the limits. */
    method PathsTo(location: string, limits: Limits) returns (r: Option<seq<DependencyPath>>)
      requires Valid()
      ensures Closed(Model()) && r == Reported(Model(), location, limits)
    {
      ModelIsClosed();
      if location !in entries {
        return None;
      }
      ghost var g := Model();
      var search := new PathSearch(limits);
      OneLabel(g, location);
      search.Walk(this, g, location, [LabelOf(location)], [location]);
      SearchIsDone(search.State(), limits, g, location);
      return if search.overflow then None else Some(search.results);
    }

    /** Records every entry, stopping at the first linked or unreadable package. */
    method AddEntries(fields: Json.Fields<Json.Value>) returns (fault: Option<Loaded>)
      requires entries == map[] && order == []
      modifies this`entries, this`order
      ensures fault == FirstFault(fields)
      ensures fault.None? ==> entries == EntriesOf(fields) && order == Locations(fields)
    {
      for i := 0 to |fields|
        invariant FirstFault(fields) == FirstFault(fields[i..])
        invariant entries == EntriesOf(fields[..i])
        invariant order == Locations(fields[..i])
      {
        var location, raw := fields[i].key, fields[i].value;
        FaultStep(fields, i);
        if raw.Null? {
          return Some(Crashed);
        }
        if Json.Get(raw, "link") == Json.Bool(true) {
          return Some(Refused);
        }
        EntriesStep(EntryOf, fields, i);
        entries := entries[location := EntryOf(location, raw)];
        order := order + [location];
      }
      assert fields[..|fields|] == fields;
      return None;
    }

    /** Inverts the resolved dependency edges of one location. */
    method AddEdgesOf(location: string)
      requires location in entries
      modifies this`parents
      ensures Extended(parents, old(parents), entries, LookupIn(entries.Keys), location,
                       DeclaredNames(entries[location]))
    {
      ghost var before, lookup := parents, LookupIn(entries.Keys);
      var entry := entries[location];
      var names := DeclaredNames(entry);
      for j := 0 to |names|
        invariant Extended(parents, before, entries, lookup, location, names[..j])
      {
        ExtendedStep(parents, before, entries, lookup, location, names, j);
        var dependency := names[j];
        var resolved := Resolve(location, dependency);
        if resolved.Some? {
          var viaDevEdge := location == "" && !IsRuntime(entry, dependency);
          var list := ParentsAt(parents, resolved.value) + [ParentEdge(location, viaDevEdge)];
          parents := parents[resolved.value := list];
        }
      }
      assert names[..|names|] == names;
    }

    /** Inverts the resolved dependency edges of every location. */
    method AddParents()
      requires Complete() && parents == map[]
      modifies this`parents
      ensures Valid()
    {
      for i := 0 to |order|
        invariant Inverted(parents, entries, LookupIn(entries.Keys), order[..i])
      {
        assert order[i] in Elements(order);
        ghost var before := parents;
        AddEdgesOf(order[i]);
        InvertedStep(parents, before, entries, LookupIn(entries.Keys), order, i);
      }
      assert order[..|order|] == order;
    }
  }

  // ---------------------------------------------------------------- the search for root paths

  /** The state a search mutates: how many edges it has examined, whether it gave up, what it has found. */
  class PathSearch {
    const limits: Limits
    var steps: nat
    var overflow: bool
    var results: seq<DependencyPath>

    constructor (limits: Limits)
      ensures this.limits == limits && steps == 0 && !overflow && results == []
    {
      this.limits, steps, overflow, results := limits, 0, false, [];
    }

    ghost function State(): Progress
      reads this
    {
      Progress(steps, overflow, results)
    }

    /** Explores upwards from `current`; `chain` labels the locations already on the path, `current` first. */
    method Walk(graph: LockfileGraph, ghost g: LockGraph, current: string, chain: seq<string>, locations: seq<string>)
      requires graph.Represents(g) && Closed(g)
      requires current in g.entries && AllInstalled(g, locations) && chain == Labels(g, locations)
      requires State().WithinBudget(limits)
      modifies this
      ensures Towards(State(), old(State()).Goal(g, g.incoming[current], locations), limits, g, [], locations)
      decreases g.entries.Keys - Elements(locations)
    {
      var parents := ParentsAt(graph.parents, current);
      ghost var goal := State().Goal(g, parents, locations);
      assert parents[0..] == parents;
      for i := 0 to |parents|
        invariant Towards(State(), goal, limits, g, parents[i..], locations)
      {
        var parent := parents[i];
        SearchStep(State(), goal, limits, g, parents[i..], locations);
        assert parents[i..][0] == parent && parents[i..][1..] == parents[i + 1..];
        steps := steps + 1;
        if overflow || steps > limits.maxSteps {
          overflow := true;
          return;
        }
        if parent.location == "" {
          results := results + [DependencyPath(chain, parent.viaDevEdge && graph.AreDev(locations))];
          if |results| > limits.maxPaths {
            overflow := true;
            return;
          }
          continue;
        }
        if parent.location in locations {
          continue;
        }
        Shrinks(graph.entries.Keys, locations, parent.location);
        assert Labels(g, [parent.location] + locations) == [Label(g, parent.location)] + Labels(g, locations);
        ghost var before := State();
        Walk(graph, g, parent.location, [graph.LabelOf(parent.location)] + chain, [parent.location] + locations);
        DescentStep(State(), before, goal, limits, g, parents[i..], locations);
      }
    }
  }

  // ---------------------------------------------------------------- the steps of the search

  datatype Progress = Progress(steps: nat, overflow: bool, results: seq<DependencyPath>) {
    predicate WithinBudget(limits: Limits) {
      !overflow && steps <= limits.maxSteps && |results| <= limits.maxPaths
    }

    /** What an unlimited search would have counted and found after exploring `edges`. */
    ghost function Goal(g: LockGraph, edges: seq<ParentEdge>, locations: seq<string>): Progress
      requires Closed(g) && FromInstalled(g, edges) && AllInstalled(g, locations)
    {
      Progress(steps + StepsVia(g, edges, locations), false, results + DescribeAll(g, PathsVia(g, edges, locations)))
    }
  }

  /** Either the goal is over budget and the search has given up, or `edges` separate it from the goal. */
  ghost predicate Towards(p: Progress, goal: Progress, limits: Limits, g: LockGraph, edges: seq<ParentEdge>,
                          locations: seq<string>)
  {
    && Closed(g) && FromInstalled(g, edges) && AllInstalled(g, locations)
    && if p.overflow then !goal.WithinBudget(limits)
       else p.WithinBudget(limits) && goal == p.Goal(g, edges, locations)
  }

  lemma OneLabel(g: LockGraph, location: string)
    requires location in g.entries
    ensures Labels(g, [location]) == [Label(g, location)]
  {
  }

  /** A finished search has found what must be reported. */
  lemma SearchIsDone(p: Progress, limits: Limits, g: LockGraph, location: string)
    requires Closed(g) && location in g.entries
    requires Towards(p, Progress(0, false, []).Goal(g, g.incoming[location], [location]), limits, g, [], [location])
    ensures Reported(g, location, limits) == if p.overflow then None else Some(p.results)
  {
    var found := DescribeAll(g, RootPaths.PathsTo(g, location));
    assert [] + found == found;
    assert p.results + DescribeAll(g, []) == p.results;
  }

  lemma GoalStep(p: Progress, g: LockGraph, edges: seq<ParentEdge>, locations: seq<string>)
    requires Closed(g) && FromInstalled(g, edges) && AllInstalled(g, locations) && edges != []
    ensures var inner := Progress(p.steps + StepsThrough(g, edges[0], locations), false,
                                  p.results + DescribeAll(g, PathsThrough(g, edges[0], locations)));
            p.Goal(g, edges, locations) == inner.Goal(g, edges[1..], locations)
  {
    var through, rest := PathsThrough(g, edges[0], locations), PathsVia(g, edges[1..], locations);
    assert DescribeAll(g, through + rest) == DescribeAll(g, through) + DescribeAll(g, rest);
  }

  /** Examining one edge costs a step; an edge from the root also yields a path. */
  lemma SearchStep(p: Progress, goal: Progress, limits: Limits, g: LockGraph, edges: seq<ParentEdge>,
                   locations: seq<string>)
    requires Towards(p, goal, limits, g, edges, locations) && edges != []
    ensures p.overflow || p.steps + 1 > limits.maxSteps ==> !goal.WithinBudget(limits)
    ensures !p.overflow && p.steps + 1 <= limits.maxSteps ==>
              var next := Progress(p.steps + 1, false, p.results);
              var path := Describe(g, RootPath(edges[0].viaDevEdge, locations));
              if edges[0].location == "" then
                var found := Progress(p.steps + 1, |p.results| + 1 > limits.maxPaths, p.results + [path]);
                Towards(found, goal, limits, g, if found.overflow then [] else edges[1..], locations)
              else if edges[0].location in locations then Towards(next, goal, limits, g, edges[1..], locations)
              else true
  {
    if !p.overflow {
      GoalStep(p, g, edges, locations);
      if edges[0].location == "" {
        var path := RootPath(edges[0].viaDevEdge, locations);
        assert DescribeAll(g, [path]) == [Describe(g, path)];
      } else if edges[0].location in locations {
        assert p.results + DescribeAll(g, []) == p.results;
      }
    }
  }

  /** Exploring above an edge accounts for everything found through it. */
  lemma DescentStep(after: Progress, p: Progress, goal: Progress, limits: Limits, g: LockGraph,
                    edges: seq<ParentEdge>, locations: seq<string>)
    requires Closed(g) && FromInstalled(g, edges) && AllInstalled(g, locations) && edges != []
    requires edges[0].location != "" && edges[0].location !in locations && p.steps > 0 && p.WithinBudget(limits)
    requires goal == Progress(p.steps - 1, false, p.results).Goal(g, edges, locations)
    requires var longer := [edges[0].location] + locations;
             Towards(after, p.Goal(g, g.incoming[edges[0].location], longer), limits, g, [], longer)
    ensures Towards(after, goal, limits, g, edges[1..], locations)
  {
    var up, longer := g.incoming[edges[0].location], [edges[0].location] + locations;
    GoalStep(Progress(p.steps - 1, false, p.results), g, edges, locations);
    var reached := p.Goal(g, up, longer);
    assert goal == reached.Goal(g, edges[1..], locations);
    assert after.results + DescribeAll(g, []) == after.results;
  }

  // ---------------------------------------------------------------- the steps of the loops

  /** `parents` is `before` plus the edges one location adds through `names`. */
  ghost predicate Extended(parents: map<string, seq<ParentEdge>>, before: map<string, seq<ParentEdge>>,
                           entries: Entries, resolve: Resolver, from: string, names: seq<string>)
  {
    && from in entries
    && forall t :: ParentsAt(parents, t) == ParentsAt(before, t) + EdgesByName(entries, resolve, from, names, t)
  }

  ghost predicate Inverted(parents: map<string, seq<ParentEdge>>, entries: Entries, resolve: Resolver,
                           locations: seq<string>)
  {
    && (forall l :: l in locations ==> l in entries)
    && forall t :: ParentsAt(parents, t) == EdgesByLocation(entries, resolve, locations, t)
  }

  lemma ExtendedStep(parents: map<string, seq<ParentEdge>>, before: map<string, seq<ParentEdge>>,
                     entries: Entries, resolve: Resolver, from: string, names: seq<string>, j: nat)
    requires j < |names|
    requires Extended(parents, before, entries, resolve, from, names[..j])
    ensures var edge := ParentEdge(from, from == "" && !IsRuntime(entries[from], names[j]));
            var resolved := resolve(from, names[j]);
            var parents' := if resolved.Some?
              then parents[resolved.value := ParentsAt(parents, resolved.value) + [edge]]
                            else parents;
            Extended(parents', before, entries, resolve, from, names[..j + 1])
  {
    var edge := ParentEdge(from, from == "" && !IsRuntime(entries[from], names[j]));
    var resolved := resolve(from, names[j]);
    var parents' := if resolved.Some? then parents[resolved.value := ParentsAt(parents, resolved.value) + [edge]]
                    else parents;
    forall t
      ensures ParentsAt(parents', t) == ParentsAt(before, t) + EdgesByName(entries, resolve, from, names[..j + 1], t)
    {
      EdgesByOneMoreName(entries, resolve, from, names, j, t);
      AddedEdge(parents, resolved, edge, t);
      assert ParentsAt(parents, t) == ParentsAt(before, t) + EdgesByName(entries, resolve, from, names[..j], t);
      Regroup(ParentsAt(before, t), EdgesByName(entries, resolve, from, names[..j], t),
              EdgeTo(entries, resolve, from, names[j], t));
    }
  }

  lemma AddedEdge(parents: map<string, seq<ParentEdge>>, resolved: Option<string>, edge: ParentEdge, t: string)
    ensures ParentsAt(if resolved.Some? then parents[resolved.value := ParentsAt(parents, resolved.value) + [edge]]
                      else parents, t)
            == ParentsAt(parents, t) + if resolved == Some(t) then [edge] else []
  {
  }

  lemma Regroup(a: seq<ParentEdge>, b: seq<ParentEdge>, c: seq<ParentEdge>)
    ensures (a + b) + c == a + (b + c)
  {
  }

  lemma EdgesByOneMoreName(entries: Entries, resolve: Resolver, from: string, names: seq<string>, j: nat, t: string)
    requires from in entries && j < |names|
    ensures EdgesByName(entries, resolve, from, names[..j + 1], t) ==
            EdgesByName(entries, resolve, from, names[..j], t) + EdgeTo(entries, resolve, from, names[j], t)
  {
    assert names[..j + 1][..j] == names[..j];
  }

  lemma InvertedStep(parents: map<string, seq<ParentEdge>>, before: map<string, seq<ParentEdge>>,
                     entries: Entries, resolve: Resolver, order: seq<string>, i: nat)
    requires i < |order|
    requires Inverted(before, entries, resolve, order[..i])
    requires order[i] in entries
    requires Extended(parents, before, entries, resolve, order[i], DeclaredNames(entries[order[i]]))
    ensures Inverted(parents, entries, resolve, order[..i + 1])
  {
    assert order[..i + 1][..i] == order[..i];
  }

  lemma FaultStep(fields: seq<Json.Field<Json.Value>>, i: nat)
    requires i < |fields|
    ensures FirstFault(fields[i..]) ==
            if fields[i].value.Null? then Some(Crashed)
            else if Json.Get(fields[i].value, "link") == Json.Bool(true) then Some(Refused)
            else FirstFault(fields[i + 1..])
  {
    assert fields[i..][1..] == fields[i + 1..];
  }

  lemma EntriesStep(read: (string, Json.Value) -> LockEntry, fields: seq<Json.Field<Json.Value>>, i: nat)
    requires i < |fields|
    ensures EntriesBy(read, fields[..i + 1])
            == EntriesBy(read, fields[..i])[fields[i].key := read(fields[i].key, fields[i].value)]
    ensures Locations(fields[..i + 1]) == Locations(fields[..i]) + [fields[i].key]
  {
    assert fields[..i + 1][..i] == fields[..i];
    LocationsOfLonger(fields[..i], fields[i]);
    assert fields[..i + 1] == fields[..i] + [fields[i]];
  }

  datatype ParseOutcome = Parsed(graph: LockfileGraph) | ParseRefused | ParseCrashed

  method Parse(payload: Json.Value) returns (r: ParseOutcome)
    ensures match Load(payload)
            case Graph(g) => r.Parsed? && fresh(r.graph) && r.graph.Valid() && r.graph.Model() == g
            case Refused => r.ParseRefused?
            case Crashed => r.ParseCrashed?
  {
    if !HasLockShape(payload) {
      return ParseRefused;
    }
    var fields := Json.Get(payload, "packages").fields;
    var graph := new LockfileGraph();
    var fault := graph.AddEntries(fields);
    match fault {
      case Some(Crashed) => return ParseCrashed;
      case Some(_) => return ParseRefused;
      case None =>
        EntriesOfExact(fields);
        graph.AddParents();
        return Parsed(graph);
    }
  }
}
