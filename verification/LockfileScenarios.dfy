/**
  Three families of lockfiles, for any package names: one in which a path is listed twice, one with a package
  that Node finds and the graph does not, and one with a single direct dependency.
 */
module LockfileScenarios {
  import opened Prelude
  import opened Location
  import opened LocationLaws
  import opened DependencyGraph
  import opened RootPaths
  import opened PathLaws
  import opened PathCounts
  import opened Lockfile
  import opened LockfileLaws
  import opened NodeLookup
  import Json

  // ---------------------------------------------------------------- lockfiles

  function LockOf(packages: Json.Fields<Json.Value>): Json.Value {
    Json.Object([Json.Field("lockfileVersion", Json.Number(3.0)), Json.Field("packages", Json.Object(packages))])
  }

  /** An object with one property. */
  function Only(key: string, value: Json.Value): Json.Value {
    Json.Object([Json.Field(key, value)])
  }

  const ANY_RANGE := Json.String("*")

  lemma OnlyIsRead(key: string, value: Json.Value, other: string)
    ensures Json.Get(Only(key, value), other) == if other == key then value else Json.Undefined
  {
    var fields: Json.Fields<Json.Value> := [Json.Field(key, value)];
    if other == key {
      Json.FieldIsRead(fields, 0, key, value);
    } else {
      Json.LookupMisses(fields, other);
    }
  }

  /** A lockfile that lists the root and only unlinked packages loads. */
  lemma LockLoads(packages: Json.Fields<Json.Value>)
    requires packages != [] && packages[0].key == ""
    requires forall i :: 0 <= i < |packages| ==> packages[i].value.Object? && !IsLinked(packages[i].value)
    ensures HasLockShape(LockOf(packages)) && PackageFields(LockOf(packages)) == packages
    ensures Load(LockOf(packages)).Graph?
    ensures Elements(Locations(packages)) == EntriesOf(packages).Keys && Distinct(Locations(packages))
    ensures Load(LockOf(packages)).graph == GraphOf(EntriesOf(packages), Locations(packages))
  {
    var fields := LockOf(packages).fields;
    Json.FieldIsRead(fields, 0, "lockfileVersion", Json.Number(3.0));
    Json.FieldIsRead(fields, 1, "packages", Json.Object(packages));
    Json.FieldIsRead(packages, 0, "", packages[0].value);
    LoadExact(LockOf(packages));
    LoadedGraphIsBuilt(LockOf(packages));
  }

  // ---------------------------------------------------------------- a path listed twice

  /** The root needs `x`; `x` names the `y` nested in it twice, the second time by its whole location. */
  function TwiceNamed(x: string, y: string): Json.Fields<Json.Value> {
    [Json.Field("", Only("dependencies", Only(x, ANY_RANGE))),
     Json.Field(Child("", x), Only("dependencies", Both(y, LongName(x, y)))),
     Json.Field(Child(Child("", x), y), Json.Object([]))]
  }

  function LongName(x: string, y: string): (name: string)
    ensures |name| > |y|
  {
    x + "/" + MARKER + y
  }

  function Both(a: string, b: string): Json.Value
    requires a != b
  {
    Json.Object([Json.Field(a, ANY_RANGE), Json.Field(b, ANY_RANGE)])
  }

  lemma TwiceNamedLoads(x: string, y: string)
    ensures var packages, payload := TwiceNamed(x, y), LockOf(TwiceNamed(x, y));
            && Elements(Locations(packages)) == EntriesOf(packages).Keys && Distinct(Locations(packages))
            && Load(payload).Graph? && Load(payload).graph == GraphOf(EntriesOf(packages), Locations(packages))
  {
    var packages := TwiceNamed(x, y);
    OnlyIsRead("dependencies", Only(x, ANY_RANGE), "link");
    OnlyIsRead("dependencies", Both(y, LongName(x, y)), "link");
    LockLoads(packages);
  }

  lemma EntryIsRead(packages: Json.Fields<Json.Value>, i: nat, key: string, value: Json.Value)
    requires i < |packages| && packages[i] == Json.Field(key, value)
    ensures key in EntriesOf(packages) && EntriesOf(packages)[key] == EntryOf(key, value)
  {
    EntryAt(EntryOf, packages, i);
  }

  lemma RuntimeNames(location: string, names: Json.Value, name: string)
    requires name in KeysOf(names)
    ensures name in EntryOf(location, Only("dependencies", names)).dependencies
  {
    OnlyIsRead("dependencies", names, "dependencies");
    EntryReads(location, Only("dependencies", names), name);
  }

  lemma ThreePackages(packages: Json.Fields<Json.Value>, a: string, b: string, c: string)
    requires |packages| == 3 && packages[0].key == a && packages[1].key == b && packages[2].key == c
    ensures EntriesOf(packages).Keys == {a, b, c}
  {
    EntriesOfExact(packages);
    assert Locations(packages) == [a, b, c];
  }

  lemma RootNeedsX(x: string, y: string)
    ensures var entries := EntriesOf(TwiceNamed(x, y)); "" in entries && x in entries[""].dependencies
  {
    EntryIsRead(TwiceNamed(x, y), 0, "", Only("dependencies", Only(x, ANY_RANGE)));
    KeysRead(x, y);
    RuntimeNames("", Only(x, ANY_RANGE), x);
  }

  lemma XNeedsBoth(x: string, y: string)
    ensures var entries, at := EntriesOf(TwiceNamed(x, y)), Child("", x);
            at in entries && y in entries[at].dependencies && LongName(x, y) in entries[at].dependencies
  {
    EntryIsRead(TwiceNamed(x, y), 1, Child("", x), Only("dependencies", Both(y, LongName(x, y))));
    KeysRead(x, y);
    RuntimeNames(Child("", x), Both(y, LongName(x, y)), y);
    RuntimeNames(Child("", x), Both(y, LongName(x, y)), LongName(x, y));
  }

  lemma TwiceNamedEntries(x: string, y: string)
    ensures var entries := EntriesOf(TwiceNamed(x, y));
            && entries.Keys == {"", Child("", x), Child(Child("", x), y)}
            && x in entries[""].dependencies
            && y in entries[Child("", x)].dependencies && LongName(x, y) in entries[Child("", x)].dependencies
  {
    ThreePackages(TwiceNamed(x, y), "", Child("", x), Child(Child("", x), y));
    RootNeedsX(x, y);
    XNeedsBoth(x, y);
  }

  lemma KeysRead(x: string, y: string)
    ensures x in KeysOf(Only(x, ANY_RANGE))
    ensures y in KeysOf(Both(y, LongName(x, y))) && LongName(x, y) in KeysOf(Both(y, LongName(x, y)))
  {
    assert KeysOf(Only(x, ANY_RANGE))[0] == x;
    assert KeysOf(Both(y, LongName(x, y)))[0] == y && KeysOf(Both(y, LongName(x, y)))[1] == LongName(x, y);
  }

  /** Looked up in `x`, both names lead to the same package. */
  lemma BothNamesResolve(x: string, y: string)
    requires Plain(x)
    ensures var installed, at := {"", Child("", x), Child(Child("", x), y)}, Child("", x);
            && ResolveFrom(installed, "", x) == Some(at)
            && ResolveFrom(installed, at, y) == Some(Child(at, y))
            && ResolveFrom(installed, at, LongName(x, y)) == Some(Child(at, y))
  {
    var at := Child("", x);
    assert Child("", LongName(x, y)) == Child(at, y);
    assert |Child(at, LongName(x, y))| > |Child(at, y)| > |at| > 0;
    EnclosingOfChild("", x);
  }

  /** Each path once does not hold of every lockfile: here one path is listed at least twice. */
  lemma PathListedTwice(x: string, y: string)
    requires Plain(x)
    ensures var payload, at := LockOf(TwiceNamed(x, y)), Child("", x);
            && Load(payload).Graph? && Child(at, y) in Load(payload).graph.entries
            && Count(PathsTo(Load(payload).graph, Child(at, y)), RootPath(false, [at, Child(at, y)])) >= 2
            && !ListsEachPathOnce(Load(payload).graph)
  {
    var packages, at := TwiceNamed(x, y), Child("", x);
    TwiceNamedLoads(x, y);
    TwiceNamedEntries(x, y);
    BothNamesResolve(x, y);
    DoublyDeclaredIsListedTwice(EntriesOf(packages), Locations(packages), at, Child(at, y), x, y, LongName(x, y));
    CountRefutesOnce(Load(LockOf(packages)).graph, Child(at, y), RootPath(false, [at, Child(at, y)]));
  }

  lemma CountRefutesOnce(g: LockGraph, target: string, p: RootPath)
    requires Closed(g) && target in g.entries && Count(PathsTo(g, target), p) >= 2
    ensures !ListsEachPathOnce(g)
  {
    assert Count(PathsTo(g, target), p) != if IsRootPath(g.entries, p, target) then 1 else 0;
  }

  lemma DoublyDeclaredIsListedTwice(entries: Entries, order: seq<string>, at: string, to: string, x: string,
                                    a: string, b: string)
    requires Elements(order) == entries.Keys && Distinct(order)
    requires "" in entries && at in entries && at != "" && at != to && a != b
    requires x in entries[""].dependencies && a in entries[at].dependencies && b in entries[at].dependencies
    requires LookupIn(entries.Keys)("", x) == Some(at)
    requires LookupIn(entries.Keys)(at, a) == Some(to) && LookupIn(entries.Keys)(at, b) == Some(to)
    ensures to in entries && Closed(GraphOf(entries, order))
    ensures Count(PathsTo(GraphOf(entries, order), to), RootPath(false, [at, to])) >= 2
  {
    NamedTwiceIsDeclaredTwice(entries, at, to, a, b);
    PathOfTwo(entries, at, to, x, a);
    DoubledStepIsListedTwice(entries, order, RootPath(false, [at, to]), to);
  }

  lemma NamedTwiceIsDeclaredTwice(entries: Entries, from: string, to: string, a: string, b: string)
    requires from in entries && a != b && a in entries[from].dependencies && b in entries[from].dependencies
    requires LookupIn(entries.Keys)(from, a) == Some(to) && LookupIn(entries.Keys)(from, b) == Some(to)
    ensures DeclaresTwice(entries, from, to)
  {
    assert TwoNames(LookupIn(entries.Keys), from, DeclaredNames(entries[from]), to, a, b);
  }

  lemma PathOfTwo(entries: Entries, at: string, to: string, x: string, y: string)
    requires "" in entries && at in entries && at != "" && at != to
    requires x in entries[""].dependencies && LookupIn(entries.Keys)("", x) == Some(at)
    requires y in entries[at].dependencies && LookupIn(entries.Keys)(at, y) == Some(to)
    ensures IsRootPath(entries, RootPath(false, [at, to]), to)
  {
    assert x in entries[""].dependencies + entries[""].devDependencies;
    assert y in entries[at].dependencies + entries[at].devDependencies;
    assert DependsOn(entries, "", at, false) && DependsOn(entries, at, to, false);
    assert RequiresIn(entries)(at, to);
  }

  // ---------------------------------------------------------------- a package in a scope directory

  /** The root needs the scoped package `name`, which needs `inner`; `inner` is installed in the scope's own
      directory. */
  function InScopeDirectory(name: string, scope: string, bare: string, inner: string): Json.Fields<Json.Value>
    requires IsScoped(name, scope, bare)
  {
    InnerIsApart(name, scope, bare, inner);
    [Json.Field("", Only("dependencies", Only(name, ANY_RANGE))),
     Json.Field(Child("", name), Only("dependencies", Only(inner, ANY_RANGE))),
     Json.Field(Child(Child("", scope), inner), Json.Object([]))]
  }

  lemma InnerIsApart(name: string, scope: string, bare: string, inner: string)
    requires IsScoped(name, scope, bare)
    ensures Child("", name) != Child(Child("", scope), inner)
  {
    MarkerCharacters();
    ScopedChild("", name, scope, bare);
    var at, target, n := Child("", name), Child(Child("", scope), inner), |Child("", scope)| + 1;
    assert target == Child("", scope) + "/" + (MARKER + inner);
    assert target[n + 12] == '/';
    if |at| > n + 12 {
      assert at[n + 12] == bare[12] && bare[12] in bare;
    }
  }

  /** From `name`, Node finds `inner` in the scope directory; the lookup of the graph does not find it. */
  lemma ScopeDirectoryIsSkipped(name: string, scope: string, bare: string, inner: string)
    requires IsScoped(name, scope, bare) && Plain(name) && inner != name
    ensures var at, target := Child("", name), Child(Child("", scope), inner);
            && ResolveFrom({"", at, target}, at, inner) == None
            && LookupByNode({"", at, target}, at, inner) == Some(target)
  {
    var at, target := Child("", name), Child(Child("", scope), inner);
    var installed := {"", at, target};
    ScopedChild("", name, scope, bare);
    EnclosingOfChild("", name);
    assert |Child(at, inner)| > |target| > |Child("", inner)|;
    assert |Child(at, inner)| > |at|;
    assert Child("", inner) != at by {
      assert Child("", inner)[|MARKER|..] == inner && at[|MARKER|..] == name;
    }
    DirectoriesAboveScoped("", name, scope, bare);
    FirstOfThree(installed, at, Child("", scope), NodeDirectories(""), inner);
  }

  lemma FirstOfThree(installed: set<string>, first: string, second: string, rest: seq<string>, dependency: string)
    requires Child(first, dependency) !in installed && Child(second, dependency) in installed
    ensures FirstInstalled(installed, [first, second] + rest, dependency) == Some(Child(second, dependency))
  {
    assert [first, second] + rest == [first] + ([second] + rest);
    FirstOfMore(installed, first, [second] + rest, dependency);
    FirstOfMore(installed, second, rest, dependency);
  }

  lemma InScopeDirectoryLoads(name: string, scope: string, bare: string, inner: string)
    requires IsScoped(name, scope, bare)
    ensures var packages := InScopeDirectory(name, scope, bare, inner);
            && Elements(Locations(packages)) == EntriesOf(packages).Keys
            && EntriesOf(packages).Keys == {"", Child("", name), Child(Child("", scope), inner)}
            && Load(LockOf(packages)).Graph?
            && Load(LockOf(packages)).graph == GraphOf(EntriesOf(packages), Locations(packages))
  {
    var packages := InScopeDirectory(name, scope, bare, inner);
    OnlyIsRead("dependencies", Only(name, ANY_RANGE), "link");
    OnlyIsRead("dependencies", Only(inner, ANY_RANGE), "link");
    LockLoads(packages);
    ThreePackages(packages, "", Child("", name), Child(Child("", scope), inner));
  }

  lemma ScopedDeclares(name: string, scope: string, bare: string, inner: string)
    requires IsScoped(name, scope, bare)
    ensures var entries, at := EntriesOf(InScopeDirectory(name, scope, bare, inner)), Child("", name);
            at in entries && entries[at].dependencies == [inner] && entries[at].devDependencies == []
  {
    var at, raw := Child("", name), Only("dependencies", Only(inner, ANY_RANGE));
    EntryIsRead(InScopeDirectory(name, scope, bare, inner), 1, at, raw);
    OnlyIsRead("dependencies", Only(inner, ANY_RANGE), "dependencies");
    OnlyIsRead("dependencies", Only(inner, ANY_RANGE), "optionalDependencies");
    OnlyIsRead("dependencies", Only(inner, ANY_RANGE), "peerDependencies");
    assert KeysOf(Only(inner, ANY_RANGE)) == [inner];
  }

  lemma OneNameDiffers(entries: Entries, from: string, name: string, to: string)
    requires from in entries && from != "" && entries[from].dependencies == [name]
             && entries[from].devDependencies == []
    requires ResolveFrom(entries.Keys, from, name) == None && LookupByNode(entries.Keys, from, name) == Some(to)
    ensures NodeDependsOn(entries, from, to, false) && !DependsOn(entries, from, to, false)
  {
    assert name in entries[from].dependencies + entries[from].devDependencies;
  }

  /** The lookup is not always Node's: this lockfile loads, and its graph lacks an edge that Node would follow. */
  lemma GraphMissesNodesEdge(name: string, scope: string, bare: string, inner: string)
    requires IsScoped(name, scope, bare) && Plain(name) && inner != name
    ensures var payload, at, target := LockOf(InScopeDirectory(name, scope, bare, inner)), Child("", name),
                                       Child(Child("", scope), inner);
            && Load(payload).Graph?
            && NodeDependsOn(Load(payload).graph.entries, at, target, false)
            && !DependsOn(Load(payload).graph.entries, at, target, false)
  {
    InScopeDirectoryLoads(name, scope, bare, inner);
    ScopeDirectoryIsSkipped(name, scope, bare, inner);
    ScopedDeclares(name, scope, bare, inner);
    OneNameDiffers(EntriesOf(InScopeDirectory(name, scope, bare, inner)), Child("", name), inner,
                   Child(Child("", scope), inner));
  }

  // ---------------------------------------------------------------- one direct dependency

  /** The root names `name`, for development or not; the installed package may be flagged as development-only. */
  function DirectPackages(name: string, version: string, development: bool, dev: bool): Json.Fields<Json.Value> {
    [Json.Field("", Only(RootField(development), Only(name, ANY_RANGE))),
     Json.Field(Child("", name), Json.Object(InstalledFields(version, dev)))]
  }

  function RootField(development: bool): string {
    if development then "devDependencies" else "dependencies"
  }

  function InstalledFields(version: string, dev: bool): Json.Fields<Json.Value> {
    [Json.Field("version", Json.String(version)), Json.Field("dev", Json.Bool(dev))]
  }

  lemma RootEntryOfDirect(name: string, development: bool)
    ensures var e := EntryOf("", Only(RootField(development), Only(name, ANY_RANGE)));
            e.dependencies + e.devDependencies == [name] && IsRuntime(e, name) == !development
  {
    var raw := Only(RootField(development), Only(name, ANY_RANGE));
    OnlyIsRead(RootField(development), Only(name, ANY_RANGE), "dependencies");
    OnlyIsRead(RootField(development), Only(name, ANY_RANGE), "devDependencies");
    OnlyIsRead(RootField(development), Only(name, ANY_RANGE), "optionalDependencies");
    OnlyIsRead(RootField(development), Only(name, ANY_RANGE), "peerDependencies");
    assert KeysOf(Only(name, ANY_RANGE)) == [name];
  }

  lemma InstalledEntryOfDirect(name: string, version: string, dev: bool)
    requires Plain(name)
    ensures EntryOf(Child("", name), Json.Object(InstalledFields(version, dev)))
            == LockEntry(name, version, dev, [], [])
    ensures !IsLinked(Json.Object(InstalledFields(version, dev)))
  {
    var fields := InstalledFields(version, dev);
    Json.FieldIsRead(fields, 0, "version", Json.String(version));
    Json.FieldIsRead(fields, 1, "dev", Json.Bool(dev));
    Json.LookupMisses(fields, "name");
    Json.LookupMisses(fields, "link");
    Json.LookupMisses(fields, "dependencies");
    Json.LookupMisses(fields, "optionalDependencies");
    Json.LookupMisses(fields, "peerDependencies");
    UnnamedPackageIsNamedByLocation("", name, Json.Object(fields));
  }

  lemma EdgesOfTwo(entries: Entries, resolve: Resolver, a: string, b: string, target: string)
    requires a in entries && b in entries
    ensures EdgesByLocation(entries, resolve, [a, b], target)
            == EdgesByName(entries, resolve, a, DeclaredNames(entries[a]), target)
               + EdgesByName(entries, resolve, b, DeclaredNames(entries[b]), target)
  {
    assert [a, b][..1] == [a] && [a][..0] == [];
    assert EdgesByLocation(entries, resolve, [], target) == [];
    assert EdgesByLocation(entries, resolve, [a], target)
           == EdgesByName(entries, resolve, a, DeclaredNames(entries[a]), target);
  }

  lemma EdgesOfOneName(entries: Entries, resolve: Resolver, from: string, name: string, target: string)
    requires from in entries && entries[from].dependencies + entries[from].devDependencies == [name]
    ensures EdgesByName(entries, resolve, from, DeclaredNames(entries[from]), target)
            == EdgeTo(entries, resolve, from, name, target)
  {
    var none: seq<string> := [];
    assert [name][..0] == none;
    assert InsertAll(none, none) == none;
    assert DeclaredNames(entries[from]) == [name];
    assert EdgesByName(entries, resolve, from, none, target) == [];
  }

  /** In a graph of the root and one package that it names, that package has one incoming edge. */
  lemma OnlyEdge(entries: Entries, resolve: Resolver, at: string, name: string, development: bool)
    requires "" in entries && at in entries
    requires entries[""].dependencies + entries[""].devDependencies == [name]
             && IsRuntime(entries[""], name) == !development
    requires entries[at].dependencies + entries[at].devDependencies == [] && resolve("", name) == Some(at)
    ensures EdgesByLocation(entries, resolve, ["", at], at) == [ParentEdge("", development)]
  {
    EdgesOfTwo(entries, resolve, "", at, at);
    EdgesOfOneName(entries, resolve, "", name, at);
  }

  lemma DirectEntries(name: string, version: string, development: bool, dev: bool)
    requires Plain(name)
    ensures var entries, at := EntriesOf(DirectPackages(name, version, development, dev)), Child("", name);
            && entries.Keys == {"", at} && entries[at] == LockEntry(name, version, dev, [], [])
            && entries[""].dependencies + entries[""].devDependencies == [name]
            && IsRuntime(entries[""], name) == !development
  {
    var packages, at := DirectPackages(name, version, development, dev), Child("", name);
    InstalledEntryOfDirect(name, version, dev);
    EntryIsRead(packages, 0, "", packages[0].value);
    EntryIsRead(packages, 1, at, packages[1].value);
    RootEntryOfDirect(name, development);
    EntriesOfExact(packages);
    assert Locations(packages) == ["", at];
  }

  lemma DirectLoads(name: string, version: string, development: bool, dev: bool)
    requires Plain(name)
    ensures var packages, payload := DirectPackages(name, version, development, dev),
                                     LockOf(DirectPackages(name, version, development, dev));
            && Elements(Locations(packages)) == EntriesOf(packages).Keys
            && Load(payload).Graph? && Load(payload).graph == GraphOf(EntriesOf(packages), Locations(packages))
            && Locations(packages) == ["", Child("", name)]
  {
    var packages := DirectPackages(name, version, development, dev);
    OnlyIsRead(RootField(development), Only(name, ANY_RANGE), "link");
    InstalledEntryOfDirect(name, version, dev);
    LockLoads(packages);
  }

  lemma DirectGraph(name: string, version: string, development: bool, dev: bool)
    requires Plain(name)
    ensures var payload, at := LockOf(DirectPackages(name, version, development, dev)), Child("", name);
            && Load(payload).Graph? && at in Load(payload).graph.entries && at in Load(payload).graph.incoming
            && Load(payload).graph.entries[at] == LockEntry(name, version, dev, [], [])
            && Load(payload).graph.incoming[at] == [ParentEdge("", development)]
  {
    var entries, at := EntriesOf(DirectPackages(name, version, development, dev)), Child("", name);
    DirectLoads(name, version, development, dev);
    DirectEntries(name, version, development, dev);
    RootFindsTopLevel(entries.Keys, name);
    OnlyEdge(entries, LookupIn(entries.Keys), at, name, development);
  }

  /** Such a lockfile is laid out as npm does, for every name npm installs. */
  lemma DirectLockIsNpm(name: string, version: string, development: bool, dev: bool)
    requires IsNpmName(name)
    ensures Load(LockOf(DirectPackages(name, version, development, dev))).Graph?
    ensures IsNpmLockfile(Load(LockOf(DirectPackages(name, version, development, dev))).graph.entries)
  {
    DirectLoads(name, version, development, dev);
    DirectEntries(name, version, development, dev);
    RootAndOneIsNpm(EntriesOf(DirectPackages(name, version, development, dev)), name);
  }

  lemma RootAndOneIsNpm(entries: Entries, name: string)
    requires IsNpmName(name) && entries.Keys == {"", Child("", name)}
    requires entries[""].dependencies + entries[""].devDependencies == [name]
    requires entries[Child("", name)].dependencies + entries[Child("", name)].devDependencies == []
    ensures IsNpmLockfile(entries)
  {
    assert AreNpmNames([]) && Nested("", []) == "";
    assert [name][..0] == [];
    assert AreNpmNames([name]) && Nested("", [name]) == Child("", name);
  }
}
