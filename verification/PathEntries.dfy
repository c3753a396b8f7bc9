/**
  Approved path entries, "package@version": how one splits into a package name and an exact version, and
  which installed package it can stand for.
 */
module PathEntries {
  import opened Location
  import opened Policy
  import opened PolicySchema

  predicate HasNoAt(s: string) {
    forall i | 0 <= i < |s| :: s[i] != '@'
  }

  lemma DigitsHaveNoAt(s: string)
    requires Digits(s)
    ensures HasNoAt(s)
  {
  }

  lemma TagHasNoAt(s: string, mark: char)
    requires IsTag(s, mark) && mark != '@'
    ensures HasNoAt(s)
  {
  }

  lemma JoinedHaveNoAt(s: string, m: nat)
    requires m <= |s| && HasNoAt(s[..m]) && HasNoAt(s[m..])
    ensures HasNoAt(s)
  {
    forall i | 0 <= i < |s| ensures s[i] != '@' {
      assert s[i] == if i < m then s[..m][i] else s[m..][i - m];
    }
  }

  lemma DottedHasNoAt(s: string, i: nat)
    requires i < |s| && s[i] == '.' && Digits(s[..i]) && HasNoAt(s[i + 1..])
    ensures HasNoAt(s)
  {
    DigitsHaveNoAt(s[..i]);
    assert s[i..][1..] == s[i + 1..] && s[i..][..1] == ['.'];
    JoinedHaveNoAt(s[i..], 1);
    JoinedHaveNoAt(s, i);
  }

  /** A patch number and the tags after it. */
  lemma PatchHasNoAt(s: string, k: nat, l: nat)
    requires k <= l <= |s| && Digits(s[..k]) && IsTag(s[k..l], '-') && IsTag(s[l..], '+')
    ensures HasNoAt(s)
  {
    DigitsHaveNoAt(s[..k]);
    TagHasNoAt(s[k..l], '-');
    TagHasNoAt(s[l..], '+');
    assert s[..l][..k] == s[..k] && s[..l][k..] == s[k..l];
    JoinedHaveNoAt(s[..l], k);
    JoinedHaveNoAt(s, l);
  }

  lemma SliceOfRest(s: string, m: nat, a: nat, b: nat)
    requires m <= a <= b <= |s|
    ensures s[m..][a - m..b - m] == s[a..b] && s[m..][b - m..] == s[b..]
  {
  }

  lemma FromPatchHasNoAt(s: string, j: nat, k: nat, l: nat)
    requires j <= k <= l <= |s| && Digits(s[j..k]) && IsTag(s[k..l], '-') && IsTag(s[l..], '+')
    ensures HasNoAt(s[j..])
  {
    SliceOfRest(s, j, j, k);
    SliceOfRest(s, j, k, l);
    PatchHasNoAt(s[j..], k - j, l - j);
  }

  lemma FromMinorHasNoAt(s: string, i: nat, j: nat)
    requires i <= j < |s| && s[j] == '.' && Digits(s[i..j]) && HasNoAt(s[j + 1..])
    ensures HasNoAt(s[i..])
  {
    SliceOfRest(s, i, i, j);
    SliceOfRest(s, i, j, j + 1);
    DottedHasNoAt(s[i..], j - i);
  }

  lemma SplitVersionHasNoAt(s: string, i: nat, j: nat, k: nat, l: nat)
    requires i < j < k <= l <= |s| && SplitsVersion(s, i, j, k, l)
    ensures HasNoAt(s)
  {
    FromPatchHasNoAt(s, j + 1, k, l);
    FromMinorHasNoAt(s, i + 1, j);
    DottedHasNoAt(s, i);
  }

  lemma VersionHasNoAt(s: string)
    requires IsExactVersion(s)
    ensures '@' !in s
  {
    var i: nat, j: nat, k: nat, l: nat :| i < j < k <= l <= |s| && SplitsVersion(s, i, j, k, l);
    SplitVersionHasNoAt(s, i, j, k, l);
  }

  lemma SplitAtSign(s: string, i: nat)
    requires i < |s| && s[i] == '@'
    ensures s == AtVersion(s[..i], s[i + 1..])
  {
  }

  /** A scope mark can only come first. */
  lemma NameHasNoInnerAt(s: string, i: nat)
    requires IsPackageName(s) && 0 < i < |s|
    ensures s[i] != '@'
  {
    if !IsBareName(s) {
      var j :| 1 < j < |s| && s[0] == '@' && s[j] == '/' && IsBareName(s[1..j]) && IsBareName(s[j + 1..]);
      if i < j {
        assert s[i] == s[1..j][i - 1];
      } else if i > j {
        assert s[i] == s[j + 1..][i - j - 1];
      }
    }
  }

  lemma MarkOfEntry(s: string) returns (i: nat)
    requires IsPathEntry(s)
    ensures 0 < i < |s| && s[i] == '@' && IsPackageName(s[..i]) && IsExactVersion(s[i + 1..]) && '@' !in s[i + 1..]
  {
    i :| 0 < i < |s| && s[i] == '@' && IsPackageName(s[..i]) && IsExactVersion(s[i + 1..]);
    VersionHasNoAt(s[i + 1..]);
  }

  lemma OnlyMark(s: string, i: nat, n: nat)
    requires 0 < i < |s| && IsPackageName(s[..i]) && '@' !in s[i + 1..]
    requires 0 < n < |s| && s[n] == '@'
    ensures n == i
  {
    forall m | 0 < m < i ensures s[m] != '@' {
      NameHasNoInnerAt(s[..i], m);
    }
    forall m | i < m < |s| ensures s[m] != '@' {
      assert s[m] == s[i + 1..][m - i - 1];
    }
  }

  lemma SplitText(name: string, version: string)
    ensures var s := AtVersion(name, version);
            |name| < |s| && s[|name|] == '@' && s[..|name|] == name && s[|name| + 1..] == version
  {
  }

  /** However a path entry is read as a non-empty name and a version, they are a package name and an exact
      version; the empty name is possible only before a scope mark. */
  lemma EntrySplits(s: string, name: string, version: string)
    requires IsPathEntry(s) && s == AtVersion(name, version)
    ensures name != "" ==> IsPackageName(name) && IsExactVersion(version) && '@' !in version
    ensures name == "" ==> s[0] == '@' && version == s[1..]
  {
    SplitText(name, version);
    if name != "" {
      var i := MarkOfEntry(s);
      OnlyMark(s, i, |name|);
    }
  }

  /** Before a scope mark the empty name is possible, so an installed package without a name is not pinned. */
  lemma EmptyNameEscapes(s: string)
    requires IsPathEntry(s)
    ensures s[0] == '@' <==> exists version :: s == AtVersion("", version)
  {
    if s[0] == '@' {
      assert s == AtVersion("", s[1..]);
    }
    if version :| s == AtVersion("", version) {
      SplitText("", version);
    }
  }

  lemma SplitAtSameMark(name1: string, version1: string, name2: string, version2: string)
    requires AtVersion(name1, version1) == AtVersion(name2, version2) && '@' !in version1 && '@' !in version2
    ensures name1 == name2 && version1 == version2
  {
    var text1, text2 := AtVersion(name1, version1), AtVersion(name2, version2);
    assert forall i :: |name1| < i < |text1| ==> text1[i] == version1[i - |name1| - 1];
    assert forall i :: |name2| < i < |text2| ==> text2[i] == version2[i - |name2| - 1];
    assert text1[|name1|] == '@' && text2[|name2|] == '@';
    assert |name1| == |name2|;
    assert name1 == text1[..|name1|] && name2 == text2[..|name2|];
    assert version1 == text1[|name1| + 1..] && version2 == text2[|name2| + 1..];
  }

  /** An approved path entry is a package name and an exact version, and splits in no other way with a name. */
  lemma PathEntrySplits(s: string) returns (name: string, version: string)
    requires IsPathEntry(s)
    ensures s == AtVersion(name, version) && IsPackageName(name) && IsExactVersion(version) && '@' !in version
    ensures forall n, v :: n != "" && s == AtVersion(n, v) ==> n == name && v == version
  {
    var i := MarkOfEntry(s);
    SplitAtSign(s, i);
    name, version := s[..i], s[i + 1..];
    forall n, v | n != "" && s == AtVersion(n, v) ensures n == name && v == version {
      EntrySplits(s, n, v);
      SplitAtSameMark(n, v, name, version);
    }
  }

  predicate HasPathEntries(e: Exception) {
    forall s | s in e.path :: IsPathEntry(s)
  }

  /** Every path entry of every exception has the schema's form. */
  predicate ApprovesPackages(exceptions: seq<Exception>) {
    forall e | e in exceptions :: HasPathEntries(e)
  }
}
