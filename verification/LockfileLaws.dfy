/**
  What a lockfile that loads says: which lockfiles load, which names count as runtime dependencies,
  how a package without an explicit name is named, and when its root paths are listed once each.
 */
module LockfileLaws {
  import opened Prelude
  import opened Location
  import opened LocationLaws
  import opened DependencyGraph
  import opened PathLaws
  import opened PathCounts
  import opened Lockfile
  import opened NodeLookup
  import Json

  function PackageFields(payload: Json.Value): Json.Fields<Json.Value>
    requires HasLockShape(payload)
  {
    Json.Get(payload, "packages").fields
  }

  predicate IsLinked(raw: Json.Value) {
    Json.Get(raw, "link") == Json.Bool(true)
  }

  /** A lockfile of the supported shape that lists a `null` package before any linked one. */
  predicate ListsNullFirst(payload: Json.Value) {
    HasLockShape(payload) && NullComesFirst(PackageFields(payload))
  }

  predicate NullComesFirst(fields: seq<Json.Field<Json.Value>>) {
    exists i | 0 <= i < |fields| :: fields[i].value.Null? && forall j | 0 <= j < i :: !IsLinked(fields[j].value)
  }

  lemma {:induction false} FirstFaultExact(fields: seq<Json.Field<Json.Value>>)
    ensures FirstFault(fields).None?
            <==> forall i :: 0 <= i < |fields| ==> !fields[i].value.Null? && !IsLinked(fields[i].value)
    ensures FirstFault(fields) == Some(Crashed) <==> NullComesFirst(fields)
  {
    if fields != [] {
      FirstFaultExact(fields[1..]);
      NullFirstStep(fields);
      assert forall i :: 0 <= i < |fields[1..]| ==> fields[1..][i] == fields[i + 1];
    }
  }

  lemma NullFirstStep(fields: seq<Json.Field<Json.Value>>)
    requires fields != []
    ensures NullComesFirst(fields) <==>
            fields[0].value.Null? || (!IsLinked(fields[0].value) && NullComesFirst(fields[1..]))
  {
    var rest := fields[1..];
    if NullComesFirst(rest) && !IsLinked(fields[0].value) {
      var i :| 0 <= i < |rest| && rest[i].value.Null? && forall j | 0 <= j < i :: !IsLinked(rest[j].value);
      assert fields[i + 1].value.Null?;
      assert forall j | 0 < j < i + 1 :: fields[j] == rest[j - 1];
    }
    if NullComesFirst(fields) && !fields[0].value.Null? {
      var i :| 0 <= i < |fields| && fields[i].value.Null? && forall j | 0 <= j < i :: !IsLinked(fields[j].value);
      assert rest[i - 1].value.Null?;
      assert forall j | 0 <= j < i - 1 :: rest[j] == fields[j + 1];
    }
  }

  /** A lockfile loads exactly when it has the supported shape and no package is linked or `null`; it ends
      the run in an exception exactly when a `null` package comes before every linked one. */
  lemma LoadExact(payload: Json.Value)
    ensures !HasLockShape(payload) ==> Load(payload).Refused?
    ensures HasLockShape(payload) ==>
              var fields := PackageFields(payload);
              (Load(payload).Graph?
               <==> forall i :: 0 <= i < |fields| ==> !fields[i].value.Null? && !IsLinked(fields[i].value))
    ensures Load(payload).Crashed? <==> ListsNullFirst(payload)
  {
    if HasLockShape(payload) {
      FirstFaultExact(PackageFields(payload));
    }
  }

  lemma {:induction false} EntryAt(read: (string, Json.Value) -> LockEntry, fields: seq<Json.Field<Json.Value>>, i: nat)
    requires Json.DistinctKeys(fields) && i < |fields|
    ensures fields[i].key in EntriesBy(read, fields)
    ensures EntriesBy(read, fields)[fields[i].key] == read(fields[i].key, fields[i].value)
  {
    if i < |fields| - 1 {
      EntryAt(read, fields[..|fields| - 1], i);
    }
  }

  /** The value of a decimal text. */
  function DecimalValue(s: string): int {
    if s == "" then 0 else 10 * DecimalValue(s[..|s| - 1]) + (s[|s| - 1] as int - '0' as int)
  }

  predicate IsDecimal(s: string) {
    && s != "" && (forall i | 0 <= i < |s| :: '0' <= s[i] <= '9')
    && (s[0] == '0' ==> |s| == 1)
  }

  /** `Decimal` writes a number as the one decimal text without leading zeros that has its value. */
  lemma {:induction false} DecimalExactly(s: string, n: nat)
    ensures s == Decimal(n) <==> IsDecimal(s) && DecimalValue(s) == n
    decreases n, |s|
  {
    DecimalIsDecimal(n);
    if IsDecimal(s) && DecimalValue(s) == n {
      var front, last := s[..|s| - 1], s[|s| - 1] as int - '0' as int;
      if front == "" {
        assert s == [s[0]];
      } else {
        DecimalIsPositive(front);
        DecimalExactly(front, DecimalValue(front));
        assert n / 10 == DecimalValue(front) && n % 10 == last;
        assert s == front + [s[|s| - 1]];
      }
    }
  }

  lemma {:induction false} DecimalIsDecimal(n: nat)
    ensures IsDecimal(Decimal(n)) && DecimalValue(Decimal(n)) == n
    ensures Decimal(n)[0] == '0' ==> n == 0
  {
    if n >= 10 {
      var front, last := Decimal(n / 10), Decimal(n % 10);
      DecimalIsDecimal(n / 10);
      assert (front + last)[..|front|] == front && (front + last)[0] == front[0];
    }
  }

  /** A decimal text of more than one digit has a positive value, and so has its front. */
  lemma {:induction false} DecimalIsPositive(s: string)
    requires s != "" && (forall i | 0 <= i < |s| :: '0' <= s[i] <= '9') && s[0] != '0'
    ensures DecimalValue(s) > 0
  {
    if |s| > 1 {
      DecimalIsPositive(s[..|s| - 1]);
    }
  }

  /** `field` of a raw package declares `name`: it is an object with that key, or a list with that index. */
  predicate Declares(raw: Json.Value, field: string, name: string) {
    match Json.Get(raw, field)
    case Object(fields) => exists i | 0 <= i < |fields| :: fields[i].key == name
    case Array(items) => IsDecimal(name) && 0 <= DecimalValue(name) < |items|
    case _ => false
  }

  predicate DeclaresAtRuntime(raw: Json.Value, name: string) {
    Declares(raw, "dependencies", name) || Declares(raw, "optionalDependencies", name)
      || Declares(raw, "peerDependencies", name)
  }

  lemma KeysExactly(raw: Json.Value, field: string, name: string)
    ensures name in KeysOf(Json.Get(raw, field)) <==> Declares(raw, field, name)
  {
    var v, keys := Json.Get(raw, field), KeysOf(Json.Get(raw, field));
    if v.Object? && Declares(raw, field, name) {
      var i :| 0 <= i < |v.fields| && v.fields[i].key == name;
      assert keys[i] == name;
    }
    if v.Array? {
      if Declares(raw, field, name) {
        DecimalExactly(name, DecimalValue(name));
        assert keys[DecimalValue(name)] == name;
      }
      if name in keys {
        var i :| 0 <= i < |keys| && keys[i] == name;
        DecimalExactly(name, i);
      }
    }
  }

  /** Runtime names are those of the plain, optional and peer dependencies; development names count for the
      root only. */
  lemma EntryReads(location: string, raw: Json.Value, name: string)
    ensures name in EntryOf(location, raw).dependencies <==> DeclaresAtRuntime(raw, name)
    ensures name in EntryOf(location, raw).devDependencies <==> location == "" && Declares(raw, "devDependencies", name)
  {
    KeysExactly(raw, "dependencies", name);
    KeysExactly(raw, "optionalDependencies", name);
    KeysExactly(raw, "peerDependencies", name);
    KeysExactly(raw, "devDependencies", name);
  }

  lemma NameAfterBoundary(before: string, last: string)
    requires Plain(last)
    ensures NameFromLocation(before + "node_modules/" + last) == last
  {
    LastBoundary(before, last);
    MarkerCharacters();
    assert (before + MARKER + last)[|before| + 13..] == last;
  }

  lemma NameWithoutBoundary(location: string)
    requires Plain(location)
    ensures NameFromLocation(location) == if |location| >= 12 then location[12..] else ""
  {
    assert !OccursAt(location, MARKER, LastIndexOf(location, MARKER));
  }

  /** The name of an entry is its own, if that is a text; otherwise what follows the last boundary of the location, or
      the first twelve characters where there is none. The root has no name. */
  lemma EntryNames(location: string, raw: Json.Value, before: string, last: string)
    ensures location == "" ==> EntryOf(location, raw).name == ""
    ensures location != "" && Json.Get(raw, "name").String? ==> EntryOf(location, raw).name == Json.Get(raw, "name").s
    ensures location == before + "node_modules/" + last && !Json.Get(raw, "name").String? && Plain(last)
            ==> EntryOf(location, raw).name == last
    ensures location != "" && !Json.Get(raw, "name").String? && Plain(location)
            ==> EntryOf(location, raw).name == if |location| >= 12 then location[12..] else ""
  {
    if Plain(last) {
      NameAfterBoundary(before, last);
    }
    if Plain(location) {
      NameWithoutBoundary(location);
    }
  }

  lemma EntryFlags(location: string, raw: Json.Value)
    ensures EntryOf(location, raw).version
            == if Json.Get(raw, "version").String? then Json.Get(raw, "version").s else ""
    ensures EntryOf(location, raw).dev <==> Json.Get(raw, "dev") == Json.Bool(true)
  {
  }

  /** The lockfile is of version 2 or 3 and its packages hold a root entry that is not falsy. */
  lemma LockShapeExactly(payload: Json.Value)
    ensures HasLockShape(payload) <==>
            && (Json.Get(payload, "lockfileVersion") == Json.Number(2.0)
                || Json.Get(payload, "lockfileVersion") == Json.Number(3.0))
            && Json.Get(payload, "packages").Object?
            && exists i :: 0 <= i < |Json.Get(payload, "packages").fields|
                 && Json.Get(payload, "packages").fields[i].key == ""
                 && Json.Get(payload, "packages").fields[i].value !in
                    [Json.Undefined, Json.Null, Json.Bool(false), Json.Number(0.0), Json.String("")]
  {
    var packages := Json.Get(payload, "packages");
    if packages.Object? {
      var root := Json.Get(packages, "");
      if i :| 0 <= i < |packages.fields| && packages.fields[i].key == "" {
        Json.FieldIsRead(packages.fields, i, "", packages.fields[i].value);
      }
    }
  }

  lemma EntriesHold(fields: Json.Fields<Json.Value>, i: nat)
    requires i < |fields|
    ensures fields[i].key in EntriesOf(fields)
    ensures EntriesOf(fields)[fields[i].key] == EntryOf(fields[i].key, fields[i].value)
    ensures |EntriesOf(fields)| == |fields|
  {
    EntryAt(EntryOf, fields, i);
    EntriesOfExact(fields);
    DistinctByCardinality(Locations(fields));
    assert |EntriesOf(fields)| == |EntriesOf(fields).Keys|;
  }

  /** The graph holds every package under its location, and nothing else. */
  lemma LoadedEntries(payload: Json.Value, i: nat)
    requires Load(payload).Graph? && i < |PackageFields(payload)|
    ensures var field, entries := PackageFields(payload)[i], Load(payload).graph.entries;
            && field.key in entries && entries[field.key] == EntryOf(field.key, field.value)
            && |entries| == |PackageFields(payload)|
  {
    EntriesHold(PackageFields(payload), i);
  }

  function RootPackage(payload: Json.Value): Json.Value {
    Json.Get(Json.Get(payload, "packages"), "")
  }

  lemma RootFindsTopLevel(installed: set<string>, name: string)
    ensures LookupIn(installed)("", name) == if MARKER + name in installed then Some(MARKER + name) else None
  {
    assert Child("", name) == MARKER + name;
  }

  lemma RuntimeEdgeFromRoot(entries: Entries, to: string)
    requires "" in entries
    ensures DependsOn(entries, "", to, false) <==>
            to in entries && exists name :: name in entries[""].dependencies && to == MARKER + name
  {
    if DependsOn(entries, "", to, false) {
      var name :| name in entries[""].dependencies + entries[""].devDependencies
                  && LookupIn(entries.Keys)("", name) == Some(to) && IsRuntime(entries[""], name);
      RootFindsTopLevel(entries.Keys, name);
    }
    if to in entries {
      if name :| name in entries[""].dependencies && to == MARKER + name {
        RootFindsTopLevel(entries.Keys, name);
        assert name in entries[""].dependencies + entries[""].devDependencies;
      }
    }
  }

  /** A runtime edge from the root is a name among the root's plain, optional or peer dependencies, installed
      at the top level. */
  lemma RootRuntimeEdge(payload: Json.Value, to: string)
    requires Load(payload).Graph?
    ensures DependsOn(Load(payload).graph.entries, "", to, false) <==>
            && to in Load(payload).graph.entries
            && exists name :: DeclaresAtRuntime(RootPackage(payload), name) && to == MARKER + name
  {
    RootEntry(payload);
    RuntimeEdgeFromRoot(Load(payload).graph.entries, to);
    forall name
      ensures name in Load(payload).graph.entries[""].dependencies <==> DeclaresAtRuntime(RootPackage(payload), name)
    {
      EntryReads("", RootPackage(payload), name);
    }
  }

  lemma RootEntry(payload: Json.Value)
    requires Load(payload).Graph?
    ensures "" in Load(payload).graph.entries
    ensures Load(payload).graph.entries[""] == EntryOf("", RootPackage(payload))
  {
    var fields := PackageFields(payload);
    var i :| 0 <= i < |fields| && fields[i] == Json.Field("", RootPackage(payload));
    LoadedEntries(payload, i);
  }

  /** Every edge of a loaded lockfile: a runtime name, or for the root also a development name, that resolves there; it
      is a development edge exactly when it comes from the root and the name is no runtime name. */
  lemma LoadedEdgesExactly(payload: Json.Value, i: nat, to: string, viaDev: bool)
    requires Load(payload).Graph? && i < |PackageFields(payload)|
    ensures var from, raw, entries := PackageFields(payload)[i].key, PackageFields(payload)[i].value,
                                      Load(payload).graph.entries;
            DependsOn(entries, from, to, viaDev) <==>
            exists name ::
              && (DeclaresAtRuntime(raw, name) || (from == "" && Declares(raw, "devDependencies", name)))
              && ResolveFrom(entries.Keys, from, name) == Some(to)
              && viaDev == (from == "" && !DeclaresAtRuntime(raw, name))
  {
    var from, raw := PackageFields(payload)[i].key, PackageFields(payload)[i].value;
    LoadedEntries(payload, i);
    EdgesOfEntry(Load(payload).graph.entries, from, raw, to, viaDev);
  }

  lemma EdgesOfEntry(entries: Entries, from: string, raw: Json.Value, to: string, viaDev: bool)
    requires from in entries && entries[from] == EntryOf(from, raw)
    ensures DependsOn(entries, from, to, viaDev) <==>
            exists name ::
              && (DeclaresAtRuntime(raw, name) || (from == "" && Declares(raw, "devDependencies", name)))
              && ResolveFrom(entries.Keys, from, name) == Some(to)
              && viaDev == (from == "" && !DeclaresAtRuntime(raw, name))
  {
    forall name
      ensures name in entries[from].dependencies <==> DeclaresAtRuntime(raw, name)
      ensures name in entries[from].devDependencies <==> from == "" && Declares(raw, "devDependencies", name)
    {
      EntryReads(from, raw, name);
    }
    DependsByName(entries, from, to, viaDev);
  }

  lemma DependsByName(entries: Entries, from: string, to: string, viaDev: bool)
    requires from in entries
    ensures DependsOn(entries, from, to, viaDev) <==>
            exists name ::
              && (name in entries[from].dependencies || name in entries[from].devDependencies)
              && ResolveFrom(entries.Keys, from, name) == Some(to)
              && viaDev == (from == "" && name !in entries[from].dependencies)
  {
    if name :| (name in entries[from].dependencies || name in entries[from].devDependencies)
               && ResolveFrom(entries.Keys, from, name) == Some(to)
               && viaDev == (from == "" && name !in entries[from].dependencies)
    {
      assert name in entries[from].dependencies + entries[from].devDependencies;
      assert LookupIn(entries.Keys)(from, name) == Some(to);
    }
  }

  /** A package without a name of its own is named after the last directory of its location. */
  lemma UnnamedPackageIsNamedByLocation(base: string, name: string, raw: Json.Value)
    requires Plain(name) && !Json.Get(raw, "name").String?
    ensures EntryOf(Child(base, name), raw).name == name
  {
    ChildNameIsLast(base, name);
  }

  // ---------------------------------------------------------------- paths listed once

  lemma LoadedGraphIsBuilt(payload: Json.Value)
    requires Load(payload).Graph?
    ensures var entries, order := EntriesOf(PackageFields(payload)), Locations(PackageFields(payload));
            Distinct(order) && Elements(order) == entries.Keys && Load(payload).graph == GraphOf(entries, order)
  {
    EntriesOfExact(PackageFields(payload));
  }

  /** The search lists every root path of a lockfile exactly once, unless some package that can be reached
      without passing another declares that other under two names. */
  lemma LoadedPathsListedOnceExactly(payload: Json.Value)
    requires Load(payload).Graph?
    ensures ListsEachPathOnce(Load(payload).graph) <==> !Ambiguous(Load(payload).graph.entries)
  {
    LoadedGraphIsBuilt(payload);
    ListsEachPathOnceExactly(EntriesOf(PackageFields(payload)), Locations(PackageFields(payload)));
  }

  /** With the names npm allows that is always so. */
  lemma LoadedPathsAreListedOnce(payload: Json.Value)
    requires Load(payload).Graph? && PlainNames(Load(payload).graph.entries)
    ensures ListsEachPathOnce(Load(payload).graph)
  {
    LoadedPathsListedOnceExactly(payload);
    PlainNamesAreNotAmbiguous(Load(payload).graph.entries);
  }

  // ---------------------------------------------------------------- Node's lookup

  /** `DependsOn` with Node's own lookup. */
  ghost predicate NodeDependsOn(entries: Entries, from: string, to: string, viaDev: bool) {
    && from in entries
    && exists name ::
         && name in entries[from].dependencies + entries[from].devDependencies
         && LookupByNode(entries.Keys, from, name) == Some(to)
         && viaDev == (from == "" && !IsRuntime(entries[from], name))
  }

  ghost predicate IsDeclared(entries: Entries, from: string, name: string) {
    from in entries && name in entries[from].dependencies + entries[from].devDependencies
  }

  /** Every declared dependency of a lockfile leads where Node would find it, unless some declaration strays. */
  lemma LookupsAreNodesExactly(entries: Entries)
    ensures (forall from, name :: IsDeclared(entries, from, name) ==> FoundWhereNodeDoes(entries.Keys, from, name)) <==>
            (forall from, name :: IsDeclared(entries, from, name) ==> !Strays(entries.Keys, from, name))
  {
    forall from, name
      ensures FoundWhereNodeDoes(entries.Keys, from, name) <==> !Strays(entries.Keys, from, name)
    {
      AgreesWithNodeExactly(entries.Keys, from, name);
    }
  }

  /** The lockfile lists what npm installs, and its packages declare no name that holds a directory boundary. */
  ghost predicate IsNpmLockfile(entries: Entries) {
    IsNpmLayout(entries.Keys) && PlainNames(entries)
  }

  /** In such a lockfile the dependency relation is that of Node's lookup. */
  lemma DependsAsInNode(entries: Entries, from: string, to: string, viaDev: bool)
    requires IsNpmLockfile(entries)
    ensures DependsOn(entries, from, to, viaDev) <==> NodeDependsOn(entries, from, to, viaDev)
  {
    if from in entries {
      forall name | name in entries[from].dependencies + entries[from].devDependencies
        ensures LookupIn(entries.Keys)(from, name) == LookupByNode(entries.Keys, from, name)
      {
        var packages :| AreNpmNames(packages) && from == Nested("", packages);
        NpmLayoutAgrees(entries.Keys, packages, name);
      }
    }
  }

  /** So the graph of a lockfile that loads records exactly the edges Node's lookup gives. */
  lemma NpmLockfileRecordsNodesEdges(payload: Json.Value, to: string, e: ParentEdge)
    requires Load(payload).Graph? && to in Load(payload).graph.entries && IsNpmLockfile(Load(payload).graph.entries)
    ensures e in Load(payload).graph.incoming[to] <==>
            NodeDependsOn(Load(payload).graph.entries, e.location, to, e.viaDevEdge)
  {
    LoadedGraphInverts(payload);
    DependsAsInNode(Load(payload).graph.entries, e.location, to, e.viaDevEdge);
  }

  ghost predicate NodeRequires(entries: Entries, from: string, to: string) {
    exists viaDev :: NodeDependsOn(entries, from, to, viaDev)
  }

  ghost function NodeRequiresIn(entries: Entries): Relation {
    (from: string, to: string) => NodeRequires(entries, from, to)
  }

  /** Some walk along Node's lookup, starting with a runtime dependency of the root, reaches `node`. */
  ghost predicate NodeRuntimeReachable(entries: Entries, node: string) {
    exists walk :: walk != [] && walk[|walk| - 1] == node && Linked(NodeRequiresIn(entries), walk)
                   && NodeDependsOn(entries, "", walk[0], false)
  }

  lemma NodeRequiresAsRequires(entries: Entries, from: string, to: string)
    requires IsNpmLockfile(entries) && NodeRequires(entries, from, to)
    ensures Requires(entries, from, to)
  {
    var viaDev :| NodeDependsOn(entries, from, to, viaDev);
    DependsAsInNode(entries, from, to, viaDev);
  }

  lemma NodeWalkIsWalk(entries: Entries, walk: seq<string>)
    requires IsNpmLockfile(entries) && Linked(NodeRequiresIn(entries), walk)
    ensures IsWalk(entries, walk)
  {
    forall i {:trigger walk[i]} | 0 <= i < |walk| - 1 ensures RequiresIn(entries)(walk[i], walk[i + 1]) {
      assert NodeRequiresIn(entries)(walk[i], walk[i + 1]);
      NodeRequiresAsRequires(entries, walk[i], walk[i + 1]);
    }
  }

  lemma NodeReachableIsReachable(entries: Entries, node: string)
    requires IsNpmLockfile(entries) && NodeRuntimeReachable(entries, node)
    ensures RuntimeReachable(entries, node)
  {
    var walk :| walk != [] && walk[|walk| - 1] == node && Linked(NodeRequiresIn(entries), walk)
                && NodeDependsOn(entries, "", walk[0], false);
    NodeWalkIsWalk(entries, walk);
    DependsAsInNode(entries, "", walk[0], false);
  }
}
