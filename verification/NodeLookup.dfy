/**
  Node's own `node_modules` lookup, and exactly when the lookup of the lockfile graph agrees with it.
  Node tries every directory from the requiring one up, except those named `node_modules`; the graph's
  lookup jumps from package to package. Directories above the project are not in a lockfile.
 */
module NodeLookup {
  import opened Prelude
  import opened Location
  import opened LocationLaws

  const NODE_MODULES := "node_modules"

  function Parent(path: string): (r: string)
    requires path != ""
    ensures |r| < |path|
  {
    var slash := LastIndexOf(path, "/");
    if slash < 0 then "" else path[..slash]
  }

  function LastSegment(path: string): string {
    SliceFrom(path, LastIndexOf(path, "/") + 1)
  }

  /** The directories whose `node_modules` Node tries, in order. */
  function NodeDirectories(base: string): seq<string>
    decreases |base|
  {
    if base == "" then [""]
    else (if LastSegment(base) == NODE_MODULES then [] else [base]) + NodeDirectories(Parent(base))
  }

  function LookupByNode(installed: set<string>, base: string, dependency: string): Option<string> {
    FirstInstalled(installed, NodeDirectories(base), dependency)
  }

  /** `directory` is `base`, or holds it. */
  predicate Holds(directory: string, base: string) {
    directory == "" || directory == base
    || (|directory| < |base| && base[..|directory|] == directory && base[|directory|] == '/')
  }

  lemma HoldsExactly(directory: string, base: string)
    requires base != ""
    ensures Holds(directory, base) <==> directory == base || Holds(directory, Parent(base))
  {
    LastSlash(base);
    var slash := LastIndexOf(base, "/");
    if Holds(directory, base) && directory != "" && directory != base {
      assert |directory| <= slash;
      assert base[..slash][..|directory|] == directory;
    }
    if slash >= 0 && Holds(directory, Parent(base)) && directory != "" && directory != Parent(base) {
      assert base[..|directory|] == base[..slash][..|directory|];
    }
  }

  lemma LastSlash(path: string)
    ensures var slash := LastIndexOf(path, "/");
            (slash >= 0 ==> path[slash] == '/') && forall i :: slash < i < |path| ==> path[i] != '/'
  {
    var slash := LastIndexOf(path, "/");
    if slash >= 0 {
      assert path[slash..slash + 1][0] == '/';
    }
    forall i | slash < i < |path| ensures path[i] != '/' {
      assert !OccursAt(path, "/", i);
      assert path[i..i + 1] == [path[i]];
    }
  }

  /** Node tries exactly the directories that hold `base` and are not themselves named `node_modules`. */
  lemma {:induction false} NodeDirectoriesExact(base: string, directory: string)
    ensures directory in NodeDirectories(base) <==>
            directory == "" || (Holds(directory, base) && LastSegment(directory) != NODE_MODULES)
    decreases |base|
  {
    if base != "" {
      HoldsExactly(directory, base);
      NodeDirectoriesExact(Parent(base), directory);
    }
  }

  lemma {:induction false} NodeDirectoriesShrink(base: string)
    ensures Shrinking(NodeDirectories(base)) && NodeDirectories(base) != [] && |NodeDirectories(base)[0]| <= |base|
    decreases |base|
  {
    if base != "" {
      NodeDirectoriesShrink(Parent(base));
      ShrinkingFrom(base, NodeDirectories(Parent(base)));
    }
  }

  // ---------------------------------------------------------------- agreement

  lemma ChildDeterminesDirectory(a: string, b: string, dependency: string)
    ensures Child(a, dependency) == Child(b, dependency) ==> a == b
  {
    if |a| > |b| {
      LongerChild(a, b, dependency);
    } else if |b| > |a| {
      LongerChild(b, a, dependency);
    } else if a != "" {
      assert Child(a, dependency)[..|a|] == a && Child(b, dependency)[..|b|] == b;
    }
  }

  /** `d` is in one of the lists only, has the dependency, and no longer directory of both lists has it. */
  ghost predicate Decides(installed: set<string>, a: seq<string>, b: seq<string>, dependency: string, d: string) {
    && (d in a) != (d in b) && Child(d, dependency) in installed
    && forall c :: c in a && c in b && |c| > |d| ==> Child(c, dependency) !in installed
  }

  lemma FirstIsLongest(installed: set<string>, directories: seq<string>, dependency: string, k: nat, d: string)
    requires Shrinking(directories) && d in directories && Child(d, dependency) in installed && k <= |directories|
    requires forall j :: 0 <= j < k ==> Child(directories[j], dependency) !in installed
    ensures k < |directories| && (directories[k] == d || |directories[k]| > |d|)
  {
    var i :| 0 <= i < |directories| && directories[i] == d;
  }

  lemma DecidedDiffers(installed: set<string>, a: seq<string>, b: seq<string>, dependency: string, d: string)
    requires Shrinking(a) && d in a && d !in b && Decides(installed, a, b, dependency, d)
    ensures FirstInstalled(installed, a, dependency) != FirstInstalled(installed, b, dependency)
  {
    var i := FirstInstalledExact(installed, a, dependency);
    var j := FirstInstalledExact(installed, b, dependency);
    FirstIsLongest(installed, a, dependency, i, d);
    assert a[i] in a;
    assert a[i] !in b;
    if j < |b| {
      assert b[j] in b;
      ChildDeterminesDirectory(a[i], b[j], dependency);
    }
  }

  /** The longer of two different finds decides. */
  lemma LongerDecides(installed: set<string>, a: seq<string>, b: seq<string>, dependency: string, i: nat, j: nat)
    requires Shrinking(a) && Shrinking(b) && i < |a| && j <= |b| && Child(a[i], dependency) in installed
    requires forall k :: 0 <= k < i ==> Child(a[k], dependency) !in installed
    requires forall k :: 0 <= k < j ==> Child(b[k], dependency) !in installed
    requires j < |b| ==> |a[i]| >= |b[j]| && a[i] != b[j]
    ensures Decides(installed, a, b, dependency, a[i])
  {
    if a[i] in b {
      FirstIsLongest(installed, b, dependency, j, a[i]);
    }
    forall c | c in a && c in b && |c| > |a[i]| ensures Child(c, dependency) !in installed {
      if Child(c, dependency) in installed {
        FirstIsLongest(installed, a, dependency, i, c);
      }
    }
  }

  lemma FirstInstalledAgree(installed: set<string>, a: seq<string>, b: seq<string>, dependency: string)
    requires Shrinking(a) && Shrinking(b)
    ensures FirstInstalled(installed, a, dependency) == FirstInstalled(installed, b, dependency)
            <==> !exists d :: Decides(installed, a, b, dependency, d)
  {
    if d :| Decides(installed, a, b, dependency, d) {
      if d in a {
        DecidedDiffers(installed, a, b, dependency, d);
      } else {
        assert Decides(installed, b, a, dependency, d);
        DecidedDiffers(installed, b, a, dependency, d);
      }
    }
    if FirstInstalled(installed, a, dependency) != FirstInstalled(installed, b, dependency) {
      var i := FirstInstalledExact(installed, a, dependency);
      var j := FirstInstalledExact(installed, b, dependency);
      if i < |a| && (j == |b| || |a[i]| >= |b[j]|) {
        LongerDecides(installed, a, b, dependency, i, j);
      } else {
        LongerDecides(installed, b, a, dependency, j, i);
        assert Decides(installed, a, b, dependency, b[j]);
      }
    }
  }

  ghost predicate FoundWhereNodeDoes(installed: set<string>, base: string, dependency: string) {
    ResolveFrom(installed, base, dependency) == LookupByNode(installed, base, dependency)
  }

  /** A directory that only one of the two lookups tries decides between them. */
  ghost predicate Strays(installed: set<string>, base: string, dependency: string) {
    exists d :: Decides(installed, Tried(base), NodeDirectories(base), dependency, d)
  }

  /** For every text, the lookup gives Node's answer unless a directory that only one of them tries has the
      dependency and no longer directory that both try has it. */
  lemma AgreesWithNodeExactly(installed: set<string>, base: string, dependency: string)
    ensures FoundWhereNodeDoes(installed, base, dependency) <==> !Strays(installed, base, dependency)
  {
    var tried, node := Tried(base), NodeDirectories(base);
    TriesInOrder(installed, base, dependency);
    TriedShrinks(base);
    NodeDirectoriesShrink(base);
    FirstInstalledAgree(installed, tried, node, dependency);
    if Strays(installed, base, dependency) {
      var d :| Decides(installed, Tried(base), NodeDirectories(base), dependency, d);
      assert Decides(installed, tried, node, dependency, d);
    }
  }

  // ---------------------------------------------------------------- nested packages

  /** No directory of the location is itself named `node_modules`. */
  ghost predicate AreDirectories(root: string, packages: seq<string>) {
    && ArePlain(root, packages) && LastSegment(root) != NODE_MODULES
    && forall i :: 0 <= i < |packages| ==> LastSegment(packages[i]) != NODE_MODULES
  }

  lemma ParentOf(directory: string, segment: string)
    requires '/' !in segment
    ensures directory + "/" + segment != "" && Parent(directory + "/" + segment) == directory
    ensures LastSegment(directory + "/" + segment) == segment
  {
    var text := directory + "/" + segment;
    LastSlash(text);
    assert text[|directory|] == '/';
    assert text[..|directory|] == directory && text[|directory| + 1..] == segment;
  }

  lemma ParentOfSegment(segment: string)
    requires '/' !in segment
    ensures LastSegment(segment) == segment && (segment != "" ==> Parent(segment) == "")
  {
    LastSlash(segment);
  }

  lemma LastSegmentOf(before: string, name: string)
    ensures LastSegment(before + "/" + name) == LastSegment(name)
  {
    var slash := LastIndexOf(name, "/");
    LastSlash(name);
    if slash < 0 {
      ParentOf(before, name);
      ParentOfSegment(name);
    } else {
      var outer, segment := name[..slash], name[slash + 1..];
      assert name == outer + "/" + segment;
      ParentOf(outer, segment);
      ParentOf(before + "/" + outer, segment);
      assert before + "/" + name == before + "/" + outer + "/" + segment;
    }
  }

  lemma LastSegmentOfChild(base: string, name: string)
    ensures LastSegment(Child(base, name)) == LastSegment(name)
  {
    var before := (if base == "" then "" else base + "/") + NODE_MODULES;
    assert MARKER == NODE_MODULES + "/";
    assert Child(base, name) == before + "/" + name;
    LastSegmentOf(before, name);
  }

  lemma {:induction false} LastSegmentOfNested(root: string, packages: seq<string>)
    requires AreDirectories(root, packages)
    ensures LastSegment(Nested(root, packages)) != NODE_MODULES
  {
    if packages != [] {
      LastSegmentOfChild(Nested(root, packages[..|packages| - 1]), packages[|packages| - 1]);
    }
  }

  lemma HoldsIsTransitive(a: string, b: string, c: string)
    requires Holds(a, b) && Holds(b, c)
    ensures Holds(a, c)
  {
    if a != "" && a != b && b != c {
      assert c[..|a|] == c[..|b|][..|a|];
    }
  }

  lemma {:induction false} NestedIsHeld(root: string, packages: seq<string>, n: nat)
    requires n <= |packages|
    ensures Holds(Nested(root, packages[..n]), Nested(root, packages))
    decreases |packages|
  {
    if n == |packages| {
      assert packages[..n] == packages;
    } else {
      var outer, base := packages[..|packages| - 1], Nested(root, packages[..|packages| - 1]);
      NestedIsHeld(root, outer, n);
      assert outer[..n] == packages[..n];
      ChildIsHeld(base, packages[|packages| - 1]);
      HoldsIsTransitive(Nested(root, packages[..n]), base, Nested(root, packages));
    }
  }

  lemma ChildIsHeld(base: string, name: string)
    ensures Holds(base, Child(base, name))
  {
    if base != "" {
      assert Child(base, name)[..|base|] == base;
    }
  }

  /** Node tries every directory that the lookup tries. */
  lemma TriedAreNodeDirectories(root: string, packages: seq<string>, directory: string)
    requires AreDirectories(root, packages) && directory in Tried(Nested(root, packages))
    ensures directory in NodeDirectories(Nested(root, packages))
  {
    EnclosuresAreTried(root, packages);
    var n := EnclosureIsNested(root, packages, directory);
    NodeDirectoriesExact(Nested(root, packages), directory);
    NestedIsHeld(root, packages, n);
    LastSegmentOfNested(root, packages[..n]);
  }

  /** Node tries `d`, the lookup does not, the dependency is there, and no longer directory that the lookup
      tries has it. */
  ghost predicate Misses(installed: set<string>, tried: seq<string>, node: seq<string>, dependency: string, d: string) {
    && d in node && d !in tried && Child(d, dependency) in installed
    && forall c :: c in tried && |c| > |d| ==> Child(c, dependency) !in installed
  }

  lemma DecidesWhenMissed(installed: set<string>, tried: seq<string>, node: seq<string>, dependency: string)
    requires forall c :: c in tried ==> c in node
    ensures (exists d :: Decides(installed, tried, node, dependency, d)) <==>
            (exists d :: Misses(installed, tried, node, dependency, d))
  {
    if d :| Decides(installed, tried, node, dependency, d) {
      assert Misses(installed, tried, node, dependency, d);
    }
    if d :| Misses(installed, tried, node, dependency, d) {
      assert Decides(installed, tried, node, dependency, d);
    }
  }

  /** The lookup skips a directory in which Node would find the dependency first. */
  ghost predicate SkipsNearest(installed: set<string>, base: string, dependency: string) {
    exists d :: Misses(installed, Tried(base), NodeDirectories(base), dependency, d)
  }

  lemma StraysWhenSkipping(installed: set<string>, base: string, dependency: string)
    requires forall d :: d in Tried(base) ==> d in NodeDirectories(base)
    ensures Strays(installed, base, dependency) <==> SkipsNearest(installed, base, dependency)
  {
    DecidesWhenMissed(installed, Tried(base), NodeDirectories(base), dependency);
  }

  /** From any directory of a project or workspace, the lookup gives Node's answer exactly when it does not skip
      a directory in which Node would find the dependency first. */
  lemma AgreesUnlessSkipping(installed: set<string>, root: string, packages: seq<string>, dependency: string)
    requires AreDirectories(root, packages)
    ensures FoundWhereNodeDoes(installed, Nested(root, packages), dependency)
            <==> !SkipsNearest(installed, Nested(root, packages), dependency)
  {
    AgreesWithNodeExactly(installed, Nested(root, packages), dependency);
    forall d | d in Tried(Nested(root, packages)) ensures d in NodeDirectories(Nested(root, packages)) {
      TriedAreNodeDirectories(root, packages, d);
    }
    StraysWhenSkipping(installed, Nested(root, packages), dependency);
  }

  // ---------------------------------------------------------------- names npm installs

  predicate IsSegment(s: string) {
    s != "" && s != NODE_MODULES && '/' !in s
  }

  /** A name without a scope. */
  predicate IsUnscoped(name: string) {
    IsSegment(name) && name[0] != '@'
  }

  /** `name` is `scope` and a name within it. */
  predicate IsScoped(name: string, scope: string, bare: string) {
    name == scope + "/" + bare && IsSegment(scope) && scope[0] == '@' && IsSegment(bare)
  }

  /** The names npm installs packages under. */
  ghost predicate IsNpmName(name: string) {
    Plain(name) && (IsUnscoped(name) || exists scope, bare :: IsScoped(name, scope, bare))
  }

  ghost predicate AreNpmNames(packages: seq<string>) {
    forall i :: 0 <= i < |packages| ==> IsNpmName(packages[i])
  }

  /** Every location is the project or a package nested in it. */
  ghost predicate IsNpmLayout(installed: set<string>) {
    forall l :: l in installed ==> exists packages :: AreNpmNames(packages) && l == Nested("", packages)
  }

  lemma DirectoriesFrom(path: string)
    requires path != "" && LastSegment(path) != NODE_MODULES
    ensures NodeDirectories(path) == [path] + NodeDirectories(Parent(path))
  {
  }

  /** Above a package or a scope directory, Node goes on from the directory that holds its `node_modules`. */
  lemma DirectoriesAbove(base: string, segment: string)
    requires IsSegment(segment)
    ensures NodeDirectories(Child(base, segment)) == [Child(base, segment)] + NodeDirectories(base)
  {
    var modules := if base == "" then NODE_MODULES else base + "/" + NODE_MODULES;
    assert MARKER == NODE_MODULES + "/";
    assert Child(base, segment) == modules + "/" + segment;
    ParentOf(modules, segment);
    if base == "" {
      ParentOfSegment(NODE_MODULES);
    } else {
      ParentOf(base, NODE_MODULES);
    }
    assert NodeDirectories(modules) == NodeDirectories(base);
    DirectoriesFrom(Child(base, segment));
  }

  lemma ScopedChild(base: string, name: string, scope: string, bare: string)
    requires name == scope + "/" + bare
    ensures Child(base, name) == Child(base, scope) + "/" + bare
  {
    var before := (if base == "" then "" else base + "/") + MARKER;
    assert before + (scope + "/" + bare) == before + scope + "/" + bare;
  }

  /** Above a scoped package Node also tries its scope directory. */
  lemma DirectoriesAboveScoped(base: string, name: string, scope: string, bare: string)
    requires IsScoped(name, scope, bare)
    ensures NodeDirectories(Child(base, name)) == [Child(base, name), Child(base, scope)] + NodeDirectories(base)
  {
    ScopedChild(base, name, scope, bare);
    DirectoriesAbove(base, scope);
    DirectoryWithin(Child(base, scope), bare);
  }

  lemma DirectoryWithin(directory: string, segment: string)
    requires IsSegment(segment)
    ensures NodeDirectories(directory + "/" + segment) == [directory + "/" + segment] + NodeDirectories(directory)
  {
    ParentOf(directory, segment);
    DirectoriesFrom(directory + "/" + segment);
  }

  lemma ScopeIsNoName(scope: string)
    requires IsSegment(scope) && scope[0] == '@'
    ensures !IsNpmName(scope)
  {
    forall outer, bare ensures !IsScoped(scope, outer, bare) {
      assert (outer + "/" + bare)[|outer|] == '/';
      assert '/' in outer + "/" + bare;
    }
  }

  /** npm installs nothing in a scope directory itself. */
  lemma NothingInScopeDirectory(installed: set<string>, base: string, scope: string, dependency: string)
    requires IsNpmLayout(installed) && IsSegment(scope) && scope[0] == '@' && Plain(dependency)
    ensures Child(Child(base, scope), dependency) !in installed
  {
    if Child(Child(base, scope), dependency) in installed {
      var packages :| AreNpmNames(packages) && Child(Child(base, scope), dependency) == Nested("", packages);
      var outer, name := packages[..|packages| - 1], packages[|packages| - 1];
      SegmentIsPlain(scope);
      EnclosingOfChild(Nested("", outer), name);
      EnclosingOfChild(Child(base, scope), dependency);
      assert Nested("", outer) == Child(base, scope);
      var last := outer[|outer| - 1];
      assert IsNpmName(last);
      ScopeIsNoName(scope);
      ChildDeterminesName(Nested("", outer[..|outer| - 1]), last, base, scope);
    }
  }

  lemma SegmentIsPlain(s: string)
    requires '/' !in s
    ensures Plain(s)
  {
    MarkerCharacters();
    forall i ensures !OccursAt(s, MARKER, i) {
      if 0 <= i && i + 13 <= |s| {
        assert s[i..i + 13][12] == s[i + 12] && s[i + 12] in s;
      }
    }
  }

  /** In a tree laid out as npm does, the lookup is Node's, from every package and for every plain name. */
  lemma {:induction false} NpmLayoutAgrees(installed: set<string>, packages: seq<string>, dependency: string)
    requires IsNpmLayout(installed) && AreNpmNames(packages) && Plain(dependency)
    ensures FoundWhereNodeDoes(installed, Nested("", packages), dependency)
    decreases |packages|
  {
    if packages != [] {
      var outer, name := packages[..|packages| - 1], packages[|packages| - 1];
      var base := Nested("", outer);
      NpmLayoutAgrees(installed, outer, dependency);
      EnclosingOfChild(base, name);
      StepAgrees(installed, base, name, dependency);
    } else {
      TriesInOrder(installed, "", dependency);
    }
  }

  lemma StepAgrees(installed: set<string>, base: string, name: string, dependency: string)
    requires IsNpmLayout(installed) && IsNpmName(name) && Plain(dependency)
    ensures LookupByNode(installed, Child(base, name), dependency)
            == if Child(Child(base, name), dependency) in installed then Some(Child(Child(base, name), dependency))
               else LookupByNode(installed, base, dependency)
  {
    if IsUnscoped(name) {
      DirectoriesAbove(base, name);
      FirstOfMore(installed, Child(base, name), NodeDirectories(base), dependency);
    } else {
      var scope, bare :| IsScoped(name, scope, bare);
      DirectoriesAboveScoped(base, name, scope, bare);
      NothingInScopeDirectory(installed, base, scope, dependency);
      FirstPastEmpty(installed, Child(base, name), Child(base, scope), NodeDirectories(base), dependency);
    }
  }

  lemma FirstPastEmpty(installed: set<string>, first: string, empty: string, rest: seq<string>, dependency: string)
    requires Child(empty, dependency) !in installed
    ensures FirstInstalled(installed, [first, empty] + rest, dependency)
            == if Child(first, dependency) in installed then Some(Child(first, dependency))
               else FirstInstalled(installed, rest, dependency)
  {
    assert [first, empty] + rest == [first] + ([empty] + rest);
    FirstOfMore(installed, first, [empty] + rest, dependency);
    FirstOfMore(installed, empty, rest, dependency);
  }
}
