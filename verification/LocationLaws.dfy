/**
  The lookup over location strings refines the lookup over nested directories: on a location that
  names packages p1/.../pn, the dependency found is the one in the nearest enclosing package.
 */
module LocationLaws {
  import opened Prelude
  import opened Location

  /** A name that can sit in a location without being mistaken for a directory boundary. */
  ghost predicate Plain(name: string) {
    forall i :: !OccursAt(name, MARKER, i)
  }

  /** Where a dependency of a directory is installed. */
  lemma ChildExactly(base: string, dependency: string)
    ensures Child("", dependency) == "node_modules/" + dependency
    ensures base != "" ==> Child(base, dependency) == base + "/node_modules/" + dependency
  {
    assert "/" + MARKER == "/node_modules/";
    assert base + "/" + MARKER == base + "/node_modules/";
  }

  lemma MarkerCharacters()
    ensures |MARKER| == 13 && MARKER[12] == '/'
    ensures forall i :: 0 <= i < 12 ==> MARKER[i] != '/'
  {
  }

  /** The boundary before a plain name is the last one in the text. */
  lemma LastBoundary(before: string, name: string)
    requires Plain(name)
    ensures LastIndexOf(before + MARKER + name, MARKER) == |before|
  {
    MarkerCharacters();
    LastBoundaryOf(before, MARKER, name);
  }

  lemma LastBoundaryOf(before: string, marker: string, name: string)
    requires |marker| == 13 && marker[12] == '/' && forall i :: 0 <= i < 12 ==> marker[i] != '/'
    requires forall i :: !OccursAt(name, marker, i)
    ensures LastIndexOf(before + marker + name, marker) == |before|
  {
    var text := before + marker + name;
    var n := |before|;
    assert text[n..n + 13] == marker;
    forall i | n < i ensures !OccursAt(text, marker, i) {
      if i >= n + 13 {
        if i + 13 <= |text| {
          assert text[i..i + 13] == name[i - n - 13..i - n];
          assert !OccursAt(name, marker, i - n - 13);
        }
      } else if i + 13 <= |text| {
        assert text[i..i + 13][n + 12 - i] == text[n + 12] == '/' != marker[n + 12 - i];
      }
    }
    var r := LastIndexOf(text, marker);
    assert OccursAt(text, marker, n);
  }

  /** A location is read back as the package name it was made from. */
  lemma ChildNameIsLast(base: string, name: string)
    requires Plain(name)
    ensures var location := Child(base, name); SliceFrom(location, LastIndexOf(location, MARKER) + 13) == name
  {
    MarkerCharacters();
    var before := if base == "" then "" else base + "/";
    LastBoundary(before, name);
    assert Child(base, name) == before + MARKER + name;
    assert (before + MARKER + name)[|before| + 13..] == name;
  }

  /** Two plain names never share a location. */
  lemma ChildDeterminesName(base1: string, name1: string, base2: string, name2: string)
    requires Plain(name1) && Plain(name2)
    requires Child(base1, name1) == Child(base2, name2)
    ensures name1 == name2
  {
    ChildNameIsLast(base1, name1);
    ChildNameIsLast(base2, name2);
  }

  lemma EnclosingOfText(before: string, name: string)
    requires Plain(name)
    ensures before + MARKER + name != ""
    ensures Enclosing(before + MARKER + name) == if before == "" then "" else before[..|before| - 1]
  {
    MarkerCharacters();
    LastBoundary(before, name);
    if before != "" {
      assert (before + MARKER + name)[..|before| - 1] == before[..|before| - 1];
    }
  }

  /** One step of the lookup leaves the innermost package. */
  lemma EnclosingOfChild(base: string, name: string)
    requires Plain(name)
    ensures Child(base, name) != "" && Enclosing(Child(base, name)) == base
  {
    EnclosingOfText(if base == "" then "" else base + "/", name);
    if base != "" {
      assert (base + "/")[..|base|] == base;
    }
  }

  // ---------------------------------------------------------------- the directories tried

  /** The directories whose `node_modules` the lookup tries, in order. */
  function Tried(base: string): (directories: seq<string>)
    ensures directories != [] && directories[0] == base
    decreases |base|
  {
    if base == "" then [""] else [base] + Tried(Enclosing(base))
  }

  /** Every directory is longer than the ones after it. */
  predicate Shrinking(directories: seq<string>) {
    forall i, j :: 0 <= i < j < |directories| ==> |directories[i]| > |directories[j]|
  }

  /** Putting a longer directory in front keeps a list shrinking. */
  lemma ShrinkingFrom(first: string, rest: seq<string>)
    requires Shrinking(rest) && (rest != [] ==> |first| > |rest[0]|)
    ensures Shrinking([first] + rest)
  {
  }

  lemma {:induction false} TriedShrinks(base: string)
    ensures Shrinking(Tried(base)) && "" in Tried(base)
    decreases |base|
  {
    if base != "" {
      TriedShrinks(Enclosing(base));
      ShrinkingFrom(base, Tried(Enclosing(base)));
    }
  }

  /** The installation in the first of `directories` that has one. */
  function FirstInstalled(installed: set<string>, directories: seq<string>, dependency: string): Option<string> {
    if directories == [] then None
    else if Child(directories[0], dependency) in installed then Some(Child(directories[0], dependency))
    else FirstInstalled(installed, directories[1..], dependency)
  }

  lemma FirstOfMore(installed: set<string>, first: string, rest: seq<string>, dependency: string)
    ensures FirstInstalled(installed, [first] + rest, dependency)
            == if Child(first, dependency) in installed then Some(Child(first, dependency))
               else FirstInstalled(installed, rest, dependency)
  {
    assert ([first] + rest)[1..] == rest;
  }

  /** For every text, the lookup takes the first directory tried that has the dependency. */
  lemma {:induction false} TriesInOrder(installed: set<string>, base: string, dependency: string)
    ensures ResolveFrom(installed, base, dependency) == FirstInstalled(installed, Tried(base), dependency)
    decreases |base|
  {
    if base != "" {
      TriesInOrder(installed, Enclosing(base), dependency);
      assert Tried(base)[1..] == Tried(Enclosing(base));
    } else {
      assert Tried("")[1..] == [];
    }
  }

  lemma LongerChild(longer: string, shorter: string, dependency: string)
    requires |longer| > |shorter|
    ensures |Child(longer, dependency)| > |Child(shorter, dependency)|
  {
  }

  /** The number of leading directories that have no installation of `dependency`. */
  lemma {:induction false} FirstInstalledExact(installed: set<string>, directories: seq<string>, dependency: string)
    returns (k: nat)
    ensures k <= |directories|
    ensures forall j :: 0 <= j < k ==> Child(directories[j], dependency) !in installed
    ensures k < |directories| ==> Child(directories[k], dependency) in installed
    ensures FirstInstalled(installed, directories, dependency)
            == if k < |directories| then Some(Child(directories[k], dependency)) else None
  {
    if directories == [] || Child(directories[0], dependency) in installed {
      return 0;
    }
    var rest := FirstInstalledExact(installed, directories[1..], dependency);
    k := rest + 1;
    assert forall j :: 0 <= j < |directories[1..]| ==> directories[1..][j] == directories[j + 1];
    forall j | 0 <= j < k ensures Child(directories[j], dependency) !in installed {
      if j > 0 {
        assert directories[1..][j - 1] == directories[j];
      }
    }
  }

  /** Directory number `k` is where the dependency is found exactly when it is the first to have it. */
  lemma FirstInstalledAt(installed: set<string>, directories: seq<string>, dependency: string, k: nat)
    requires Shrinking(directories) && k < |directories|
    ensures FirstInstalled(installed, directories, dependency) == Some(Child(directories[k], dependency)) <==>
            && Child(directories[k], dependency) in installed
            && forall j :: 0 <= j < k ==> Child(directories[j], dependency) !in installed
  {
    var found := FirstInstalledExact(installed, directories, dependency);
    if found < k {
      LongerChild(directories[found], directories[k], dependency);
    } else if k < found < |directories| {
      LongerChild(directories[k], directories[found], dependency);
    }
  }

  /** `found` is in the first of `directories` to have the dependency, and absent when none has. */
  ghost predicate IsNearest(installed: set<string>, directories: seq<string>, dependency: string,
                            found: Option<string>)
  {
    && (forall k {:trigger directories[k]} :: 0 <= k < |directories| ==>
          (found == Some(Child(directories[k], dependency)) <==>
           && Child(directories[k], dependency) in installed
           && forall j :: 0 <= j < k ==> Child(directories[j], dependency) !in installed))
    && (found.None? <==> forall k :: 0 <= k < |directories| ==> Child(directories[k], dependency) !in installed)
  }

  lemma FirstIsNearest(installed: set<string>, directories: seq<string>, dependency: string)
    requires Shrinking(directories)
    ensures IsNearest(installed, directories, dependency, FirstInstalled(installed, directories, dependency))
  {
    forall k {:trigger directories[k]} | 0 <= k < |directories|
      ensures FirstInstalled(installed, directories, dependency) == Some(Child(directories[k], dependency)) <==>
              && Child(directories[k], dependency) in installed
              && forall j :: 0 <= j < k ==> Child(directories[j], dependency) !in installed
    {
      FirstInstalledAt(installed, directories, dependency, k);
    }
    var found := FirstInstalledExact(installed, directories, dependency);
  }

  // ---------------------------------------------------------------- nested packages

  /** The location of a package nested under `packages` inside the directory `root`: "" for the project
      itself, or a workspace directory. */
  function Nested(root: string, packages: seq<string>): string {
    if packages == [] then root
    else Child(Nested(root, packages[..|packages| - 1]), packages[|packages| - 1])
  }

  /** The packages enclosing such a location, innermost first, then the root. */
  function EnclosingPackages(root: string, packages: seq<string>): seq<string> {
    seq(|packages| + 1, k requires 0 <= k <= |packages| => Nested(root, packages[..|packages| - k]))
  }

  /** The enclosing packages, then the workspace if there is one, then the project. */
  function Enclosures(root: string, packages: seq<string>): seq<string> {
    EnclosingPackages(root, packages) + if root == "" then [] else [""]
  }

  ghost predicate ArePlain(root: string, packages: seq<string>) {
    Plain(root) && forall i :: 0 <= i < |packages| ==> Plain(packages[i])
  }

  /** A directory that mentions no `node_modules` encloses nothing but the project. */
  lemma EnclosingOfRoot(root: string)
    requires Plain(root) && root != ""
    ensures Enclosing(root) == ""
  {
    assert !OccursAt(root, MARKER, LastIndexOf(root, MARKER));
  }

  lemma EnclosureIsNested(root: string, packages: seq<string>, directory: string) returns (n: nat)
    requires directory in Enclosures(root, packages)
    ensures n <= |packages| && (directory == "" || directory == Nested(root, packages[..n]))
  {
    if directory in EnclosingPackages(root, packages) {
      var k :| 0 <= k <= |packages| && EnclosingPackages(root, packages)[k] == directory;
      return |packages| - k;
    }
    return 0;
  }

  lemma EnclosuresOfInner(root: string, outer: seq<string>, name: string)
    ensures Enclosures(root, outer + [name]) == [Nested(root, outer + [name])] + Enclosures(root, outer)
  {
    var inner, all := EnclosingPackages(root, outer), EnclosingPackages(root, outer + [name]);
    assert (outer + [name])[..|outer| + 1] == outer + [name];
    forall k | 0 <= k < |inner| ensures all[k + 1] == inner[k] {
      PrefixOfLonger(outer, name, |outer| - k);
    }
    assert all == [all[0]] + inner;
  }

  lemma PrefixOfLonger(s: seq<string>, last: string, n: nat)
    requires n <= |s|
    ensures (s + [last])[..n] == s[..n]
  {
  }

  /** The lookup tries the enclosures and nothing else. */
  lemma {:induction false} EnclosuresAreTried(root: string, packages: seq<string>)
    requires ArePlain(root, packages)
    ensures Tried(Nested(root, packages)) == Enclosures(root, packages)
    decreases |packages|
  {
    if packages != [] {
      var outer, name := packages[..|packages| - 1], packages[|packages| - 1];
      assert packages == outer + [name];
      EnclosingOfChild(Nested(root, outer), name);
      EnclosuresAreTried(root, outer);
      EnclosuresOfInner(root, outer, name);
    } else {
      assert packages[..0] == [];
      if root != "" {
        EnclosingOfRoot(root);
      }
    }
  }

  /** The dependency is found in an enclosure exactly when that is the nearest one to have it installed, and not
      found exactly when none has. */
  lemma LookupFindsNearest(installed: set<string>, root: string, packages: seq<string>, dependency: string)
    requires ArePlain(root, packages)
    ensures IsNearest(installed, Enclosures(root, packages), dependency,
                      ResolveFrom(installed, Nested(root, packages), dependency))
  {
    var base := Nested(root, packages);
    TriesInOrder(installed, base, dependency);
    TriedShrinks(base);
    FirstIsNearest(installed, Tried(base), dependency);
    EnclosuresAreTried(root, packages);
  }

  /** The boundaries in a location are whole path segments. */
  predicate IsLocation(base: string)
    decreases |base|
  {
    var index := LastIndexOf(base, MARKER);
    index <= 0 || (index >= 2 && base[index - 1] == '/' && IsLocation(base[..index - 1]))
  }

  /** Every location, whatever names it was made from, is that of plain packages nested in a plain directory. */
  lemma {:induction false} EveryLocationIsNested(base: string) returns (root: string, packages: seq<string>)
    requires IsLocation(base)
    ensures ArePlain(root, packages) && base == Nested(root, packages)
    decreases |base|
  {
    var index := LastIndexOf(base, MARKER);
    if index < 0 {
      return base, [];
    }
    LastNameIsPlain(base, index);
    var name := base[index + 13..];
    var outer := if index == 0 then "" else base[..index - 1];
    var packagesOfOuter: seq<string>;
    if index == 0 {
      root, packagesOfOuter := "", [];
    } else {
      root, packagesOfOuter := EveryLocationIsNested(outer);
    }
    packages := packagesOfOuter + [name];
    assert packages[..|packages| - 1] == packagesOfOuter;
  }

  /** What follows the last boundary holds no other. */
  lemma LastNameIsPlain(base: string, index: nat)
    requires index as int == LastIndexOf(base, MARKER)
    ensures index + 13 <= |base| && Plain(base[index + 13..])
    ensures index == 0 ==> base == Child("", base[13..])
    ensures index >= 2 && base[index - 1] == '/' ==> base == Child(base[..index - 1], base[index + 13..])
  {
    MarkerCharacters();
    var name := base[index + 13..];
    forall i ensures !OccursAt(name, MARKER, i) {
      if OccursAt(name, MARKER, i) {
        assert base[index + 13 + i..index + 13 + i + 13] == name[i..i + 13];
        assert OccursAt(base, MARKER, index + 13 + i);
      }
    }
    assert base == base[..index] + base[index..index + 13] + name;
    if index >= 2 && base[index - 1] == '/' {
      assert base[..index] == base[..index - 1] + "/";
    }
  }

  /** Whatever is found is an installation of the name looked up. */
  lemma {:induction false} FoundIsChild(installed: set<string>, base: string, dependency: string) returns (at: string)
    requires ResolveFrom(installed, base, dependency).Some?
    ensures ResolveFrom(installed, base, dependency).value == Child(at, dependency)
    ensures base == "" ==> at == ""
    decreases |base|
  {
    if Child(base, dependency) in installed {
      return base;
    }
    at := FoundIsChild(installed, Enclosing(base), dependency);
  }
}
