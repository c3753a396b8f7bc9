/**
  Installed locations, written as in package-lock.json ("node_modules/a/node_modules/b", the root
  being ""), and the nearest-`node_modules` lookup that resolves a dependency name from one of them.
 */
module Location {
  import opened Prelude

  const MARKER := "node_modules/"

  /** How a package at a version is written in paths. */
  function AtVersion(name: string, version: string): string {
    name + "@" + version
  }

  predicate OccursAt(s: string, pattern: string, i: int) {
    0 <= i && i + |pattern| <= |s| && s[i..i + |pattern|] == pattern
  }

  function LastOccurrenceUpTo(s: string, pattern: string, i: int): (r: int)
    requires i <= |s|
    ensures -1 <= r && (r >= 0 ==> r <= i && OccursAt(s, pattern, r))
    ensures forall j :: r < j <= i ==> !OccursAt(s, pattern, j)
    decreases i + 1
  {
    if i < 0 then -1 else if OccursAt(s, pattern, i) then i else LastOccurrenceUpTo(s, pattern, i - 1)
  }

  /** `String.prototype.lastIndexOf`. */
  function LastIndexOf(s: string, pattern: string): (r: int)
    ensures -1 <= r <= |s| && (r >= 0 ==> OccursAt(s, pattern, r))
    ensures forall j :: r < j ==> !OccursAt(s, pattern, j)
  {
    LastOccurrenceUpTo(s, pattern, |s|)
  }

  /** `String.prototype.slice` with a non-negative start. */
  function SliceFrom(s: string, start: nat): string {
    if start <= |s| then s[start..] else ""
  }

  /** Where `dependency` is installed when it is installed directly under `base`. */
  function Child(base: string, dependency: string): string {
    (if base == "" then "" else base + "/") + MARKER + dependency
  }

  /** The directory whose `node_modules` holds `base`. */
  function Enclosing(base: string): (r: string)
    requires base != ""
    ensures |r| < |base|
  {
    var index := LastIndexOf(base, MARKER);
    if index <= 0 then "" else base[..index - 1]
  }

  /** The nearest-`node_modules` lookup from a location. */
  function ResolveFrom(installed: set<string>, base: string, dependency: string): (r: Option<string>)
    ensures r.Some? ==> r.value in installed && r.value != ""
    decreases |base|
  {
    if Child(base, dependency) in installed then Some(Child(base, dependency))
    else if base == "" then None
    else ResolveFrom(installed, Enclosing(base), dependency)
  }
}
