/**
  The recognisers of the policy schema and of advisory URLs decide the regular expressions of the source, and
  trimming removes white space.
 */
module PatternLaws {
  import opened Regex
  import opened Prelude
  import opened AuditReport
  import opened PolicySchema
  import opened PathEntries

  // ---------------------------------------------------------------- character classes

  const DIGITS := "0123456789"
  const LOWER := "abcdefghijklmnopqrstuvwxyz"
  const UPPER := "ABCDEFGHIJKLMNOPQRSTUVWXYZ"

  predicate Digit(c: char) {
    c in DIGITS
  }

  /** [a-z0-9] */
  predicate LowerOrDigit(c: char) {
    c in LOWER || c in DIGITS
  }

  /** [a-z0-9._-] */
  predicate NameChar(c: char) {
    c in LOWER || c in DIGITS || c in "._-"
  }

  /** [0-9A-Za-z.-] */
  predicate TagChar(c: char) {
    c in DIGITS || c in UPPER || c in LOWER || c in ".-"
  }

  lemma CodesInRow(row: string, from: char, c: char)
    requires |row| > 0 && from as int + |row| <= 0xD800
    requires forall i :: 0 <= i < |row| ==> row[i] as int == from as int + i
    ensures c in row <==> from <= c && c as int < from as int + |row|
  {
    if from <= c && c as int < from as int + |row| {
      assert row[c as int - from as int] == c;
    }
  }

  lemma DigitExactly(c: char)
    ensures Digit(c) <==> '0' <= c <= '9'
  {
    CodesInRow(DIGITS, '0', c);
  }

  lemma LowerExactly(c: char)
    ensures c in LOWER <==> 'a' <= c <= 'z'
  {
    CodesInRow(LOWER, 'a', c);
  }

  lemma UpperExactly(c: char)
    ensures c in UPPER <==> 'A' <= c <= 'Z'
  {
    CodesInRow(UPPER, 'A', c);
  }

  lemma ClassesExactly(c: char)
    ensures Digit(c) <==> IsDigit(c)
    ensures LowerOrDigit(c) <==> IsIdentifierChar(c)
    ensures NameChar(c) <==> IsIdentifierChar(c) || c in {'.', '_', '-'}
    ensures TagChar(c) <==> IsTagChar(c)
  {
    DigitExactly(c);
    LowerExactly(c);
    UpperExactly(c);
  }

  // ---------------------------------------------------------------- fixed shapes

  /** Runs of digits and fixed texts. */
  datatype Shape = End | Digits(n: nat, rest: Shape) | Literal(text: string, rest: Shape)

  function ShapeRegex(p: Shape): Regex {
    match p
    case End => Empty
    case Digits(n, rest) => Then(Times(Class(Digit), n), ShapeRegex(rest))
    case Literal(text, rest) => Then(Text(text), ShapeRegex(rest))
  }

  /** The same, with '#' for a digit. */
  function ShapeText(p: Shape): string {
    match p
    case End => ""
    case Digits(n, rest) => seq(n, i => '#') + ShapeText(rest)
    case Literal(text, rest) => text + ShapeText(rest)
  }

  predicate NoHash(p: Shape) {
    match p
    case End => true
    case Digits(_, rest) => NoHash(rest)
    case Literal(text, rest) => '#' !in text && NoHash(rest)
  }

  lemma ShapeOfParts(s: string, x: string, y: string)
    ensures HasShape(s, x + y) <==> |s| >= |x| && HasShape(s[..|x|], x) && HasShape(s[|x|..], y)
  {
    var shape, n := x + y, |x|;
    if |s| >= n && HasShape(s[..n], x) && HasShape(s[n..], y) {
      forall i | 0 <= i < |s| ensures if shape[i] == '#' then IsDigit(s[i]) else s[i] == shape[i] {
        assert i < n ==> s[i] == s[..n][i] && shape[i] == x[i];
        assert i >= n ==> s[i] == s[n..][i - n] && shape[i] == y[i - n];
      }
    }
    if HasShape(s, shape) {
      forall i | 0 <= i < n ensures if x[i] == '#' then IsDigit(s[..n][i]) else s[..n][i] == x[i] {
        assert shape[i] == x[i];
      }
      forall i | 0 <= i < |y| ensures if y[i] == '#' then IsDigit(s[n..][i]) else s[n..][i] == y[i] {
        assert shape[n + i] == y[i];
      }
    }
  }

  lemma DigitsExactly(n: nat, s: string)
    ensures Matches(Times(Class(Digit), n), s) <==> HasShape(s, seq(n, i => '#'))
  {
    TimesExactly(Digit, n, s);
    forall c ensures Digit(c) <==> IsDigit(c) {
      ClassesExactly(c);
    }
  }

  lemma LiteralExactly(text: string, s: string)
    requires '#' !in text
    ensures s == text <==> HasShape(s, text)
  {
  }

  /** A shape is recognised character by character. */
  lemma {:induction false} ShapeExactly(p: Shape, s: string)
    requires NoHash(p)
    ensures Matches(ShapeRegex(p), s) <==> HasShape(s, ShapeText(p))
    decreases p
  {
    match p {
      case End =>
      case Digits(n, rest) =>
        var hashes := seq(n, i => '#');
        forall u ensures Matches(Times(Class(Digit), n), u) ==> |u| == n {
          TimesExactly(Digit, n, u);
        }
        FixedThen(Times(Class(Digit), n), n, ShapeRegex(rest), s);
        ShapeOfParts(s, hashes, ShapeText(rest));
        if |s| >= n {
          DigitsExactly(n, s[..n]);
          ShapeExactly(rest, s[n..]);
        }
      case Literal(text, rest) =>
        TextThen(text, ShapeRegex(rest), s);
        ShapeOfParts(s, text, ShapeText(rest));
        if |s| >= |text| {
          LiteralExactly(text, s[..|text|]);
          ShapeExactly(rest, s[|text|..]);
        }
    }
  }

  // ---------------------------------------------------------------- the schema's fixed patterns

  /** A year, month and day, and a rest. */
  function DateThen(rest: Shape): Shape {
    Digits(4, Literal("-", Digits(2, Literal("-", Digits(2, rest)))))
  }

  /** A time of day in UTC. */
  const CLOCK := Literal("T", Digits(2, Literal(":", Digits(2, Literal(":", Digits(2, Literal("Z", End)))))))

  const DAY := DateThen(End)
  const TIMESTAMP := DateThen(CLOCK)
  const EXCEPTION_ID := Literal("npm-audit-", Digits(4, Literal("-", Digits(3, End))))

  lemma DayText(rest: Shape)
    ensures ShapeText(Literal("-", Digits(2, rest))) == "-##" + ShapeText(rest)
    ensures NoHash(Literal("-", Digits(2, rest))) == NoHash(rest)
  {
    assert ShapeText(Digits(2, rest)) == "##" + ShapeText(rest);
  }

  lemma DateText(rest: Shape)
    ensures ShapeText(DateThen(rest)) == "####-##-##" + ShapeText(rest) && NoHash(DateThen(rest)) == NoHash(rest)
  {
    var days := Literal("-", Digits(2, rest));
    DayText(rest);
    DayText(days);
    assert "####" + ("-##" + ("-##" + ShapeText(rest))) == "####-##-##" + ShapeText(rest);
  }

  lemma ClockText()
    ensures ShapeText(CLOCK) == "T##:##:##Z" && NoHash(CLOCK)
  {
    var seconds := Literal(":", Digits(2, Literal("Z", End)));
    assert ShapeText(Digits(2, Literal("Z", End))) == "##Z";
    assert ShapeText(seconds) == ":##Z";
    assert ShapeText(Digits(2, seconds)) == "##:##Z";
    assert ShapeText(Literal(":", Digits(2, seconds))) == ":##:##Z";
    assert ShapeText(Digits(2, Literal(":", Digits(2, seconds)))) == "##:##:##Z";
    assert NoHash(seconds) && NoHash(Literal(":", Digits(2, seconds)));
  }

  lemma DayExactly(s: string)
    ensures IsDay(s) <==> Matches(ShapeRegex(DAY), s)
  {
    DateText(End);
    assert "####-##-##" + ShapeText(End) == "####-##-##";
    ShapeExactly(DAY, s);
  }

  lemma TimestampExactly(s: string)
    ensures IsTimestamp(s) <==> Matches(ShapeRegex(TIMESTAMP), s)
  {
    ClockText();
    DateText(CLOCK);
    assert "####-##-##" + "T##:##:##Z" == "####-##-##T##:##:##Z";
    ShapeExactly(TIMESTAMP, s);
  }

  lemma ExceptionIdExactly(s: string)
    ensures IsExceptionId(s) <==> Matches(ShapeRegex(EXCEPTION_ID), s)
  {
    assert ShapeText(Literal("-", Digits(3, End))) == "-###";
    assert ShapeText(Digits(4, Literal("-", Digits(3, End)))) == "####-###";
    assert ShapeText(EXCEPTION_ID) == "npm-audit-####-###";
    assert NoHash(Digits(4, Literal("-", Digits(3, End))));
    ShapeExactly(EXCEPTION_ID, s);
  }

  // ---------------------------------------------------------------- identifiers and references

  const CVE_START := Literal("CVE-", Digits(4, Literal("-", End)))

  /** "CVE-", a year, and at least four digits. */
  function Cve(): Regex {
    Then(ShapeRegex(CVE_START), Then(Times(Class(Digit), 4), Star(Class(Digit))))
  }

  lemma CveStartExactly(s: string)
    ensures Matches(ShapeRegex(CVE_START), s) <==> HasShape(s, "CVE-####-")
  {
    assert ShapeText(Digits(4, Literal("-", End))) == "####-";
    assert ShapeText(CVE_START) == "CVE-####-";
    assert NoHash(Digits(4, Literal("-", End)));
    ShapeExactly(CVE_START, s);
  }

  lemma DigitsAreAll(s: string)
    ensures PolicySchema.Digits(s) <==> s != "" && All(Digit, s)
  {
    forall c ensures Digit(c) <==> IsDigit(c) {
      ClassesExactly(c);
    }
  }

  lemma AtLeastFourDigits(s: string)
    ensures Matches(Then(Times(Class(Digit), 4), Star(Class(Digit))), s) <==> |s| >= 4 && PolicySchema.Digits(s)
  {
    forall u ensures Matches(Times(Class(Digit), 4), u) ==> |u| == 4 {
      TimesExactly(Digit, 4, u);
    }
    FixedThen(Times(Class(Digit), 4), 4, Star(Class(Digit)), s);
    DigitsAreAll(s);
    if |s| >= 4 {
      TimesExactly(Digit, 4, s[..4]);
      StarExactly(Digit, s[4..]);
      AllOfParts(Digit, s, 4);
    }
  }

  lemma CveExactly(s: string)
    ensures IsCve(s) <==> Matches(Cve(), s)
  {
    forall u ensures Matches(ShapeRegex(CVE_START), u) ==> |u| == 9 {
      CveStartExactly(u);
    }
    FixedThen(ShapeRegex(CVE_START), 9, Then(Times(Class(Digit), 4), Star(Class(Digit))), s);
    if |s| >= 9 {
      CveStartExactly(s[..9]);
      AtLeastFourDigits(s[9..]);
    }
  }

  predicate NotSpace(c: char) {
    !IsSpace(c)
  }

  /** "https://" and at least one character, none of them white space. */
  function Reference(): Regex {
    Then(Text("https://"), Plus(Class(NotSpace)))
  }

  lemma ReferenceExactly(s: string)
    ensures IsReference(s) <==> Matches(Reference(), s)
  {
    TextThen("https://", Plus(Class(NotSpace)), s);
    if |s| >= 8 {
      PlusExactly(NotSpace, s[8..]);
      assert forall i :: 8 <= i < |s| ==> s[i] == s[8..][i - 8];
    }
  }

  /** "GHSA-" and three groups of four lower-case letters or digits. */
  function AdvisoryId(): Regex {
    var group := Times(Class(LowerOrDigit), 4);
    Then(Text("GHSA-"), Then(group, Then(Text("-"), Then(group, Then(Text("-"), group)))))
  }

  predicate IsGroup(s: string) {
    |s| == 4 && forall i | 0 <= i < 4 :: IsIdentifierChar(s[i])
  }

  lemma GroupExactly(s: string)
    ensures Matches(Times(Class(LowerOrDigit), 4), s) <==> IsGroup(s)
  {
    TimesExactly(LowerOrDigit, 4, s);
    forall c ensures LowerOrDigit(c) <==> IsIdentifierChar(c) {
      ClassesExactly(c);
    }
  }

  lemma GroupThen(rest: Regex, s: string)
    ensures Matches(Then(Times(Class(LowerOrDigit), 4), rest), s) <==>
            |s| >= 4 && IsGroup(s[..4]) && Matches(rest, s[4..])
  {
    forall u ensures Matches(Times(Class(LowerOrDigit), 4), u) ==> |u| == 4 {
      GroupExactly(u);
    }
    FixedThen(Times(Class(LowerOrDigit), 4), 4, rest, s);
    if |s| >= 4 {
      GroupExactly(s[..4]);
    }
  }

  lemma TwoGroups(s: string)
    ensures var group := Times(Class(LowerOrDigit), 4);
            Matches(Then(Text("-"), Then(group, Then(Text("-"), group))), s) <==>
            |s| == 10 && s[0] == '-' && IsGroup(s[1..5]) && s[5] == '-' && IsGroup(s[6..])
  {
    var group := Times(Class(LowerOrDigit), 4);
    TextThen("-", Then(group, Then(Text("-"), group)), s);
    if |s| >= 1 {
      var after := s[1..];
      GroupThen(Then(Text("-"), group), after);
      if |after| >= 4 {
        TextThen("-", group, after[4..]);
        if |after| >= 5 {
          GroupExactly(after[4..][1..]);
          assert after[4..][1..] == s[6..] && after[..4] == s[1..5] && after[4..][..1] == [s[5]];
        }
      }
      assert s[..1] == [s[0]];
    }
  }

  lemma AdvisoryIdInParts(s: string)
    ensures IsAdvisoryId(s) <==>
            |s| == 19 && s[..5] == "GHSA-" && IsGroup(s[5..9]) && s[9] == '-' && IsGroup(s[10..14]) && s[14] == '-'
            && IsGroup(s[15..])
  {
    if |s| == 19 {
      assert forall i :: 5 <= i < 9 ==> s[i] == s[5..9][i - 5];
      assert forall i :: 10 <= i < 14 ==> s[i] == s[10..14][i - 10];
      assert forall i :: 15 <= i < 19 ==> s[i] == s[15..][i - 15];
    }
  }

  lemma AdvisoryIdExactly(s: string)
    ensures IsAdvisoryId(s) <==> Matches(AdvisoryId(), s)
  {
    var group := Times(Class(LowerOrDigit), 4);
    var rest := Then(Text("-"), Then(group, Then(Text("-"), group)));
    AdvisoryIdInParts(s);
    TextThen("GHSA-", Then(group, rest), s);
    if |s| >= 5 {
      GroupThen(rest, s[5..]);
      if |s| >= 9 {
        TwoGroups(s[9..]);
        assert s[5..][..4] == s[5..9] && s[5..][4..] == s[9..];
        if |s| == 19 {
          assert s[9..][1..5] == s[10..14] && s[9..][6..] == s[15..] && s[9..][5] == s[14];
        }
      }
    }
  }

  /** The id of an advisory URL is what follows the fixed part, when the whole has the pattern's form. */
  lemma AdvisoryUrlExactly(url: string, id: string)
    ensures AdvisoryIdFromUrl(url) == Some(id) <==>
            url == "https://github.com/advisories/" + id && Matches(AdvisoryId(), id)
  {
    AdvisoryIdExactly(id);
  }

  // ---------------------------------------------------------------- package names

  /** A lower-case letter or digit, then any of those, dots, underscores and dashes. */
  function BareName(): Regex {
    Then(Class(LowerOrDigit), Star(Class(NameChar)))
  }

  /** "@", a name and "/". */
  function Scope(): Regex {
    Then(Text("@"), Then(BareName(), Text("/")))
  }

  function PackageName(): Regex {
    Then(Maybe(Scope()), BareName())
  }

  lemma BareNameExactly(s: string)
    ensures IsBareName(s) <==> Matches(BareName(), s)
  {
    ClassThen(LowerOrDigit, Star(Class(NameChar)), s);
    if s != "" {
      StarExactly(NameChar, s[1..]);
      assert forall i :: 0 < i < |s| ==> s[i] == s[1..][i - 1];
      assert forall i :: 0 <= i < |s[1..]| ==> s[1..][i] == s[i + 1];
      forall c
        ensures LowerOrDigit(c) <==> IsIdentifierChar(c)
        ensures NameChar(c) <==> IsIdentifierChar(c) || c in {'.', '_', '-'}
      {
        ClassesExactly(c);
      }
    }
  }

  /** "@", a bare name and "/". */
  predicate IsScope(s: string) {
    |s| >= 2 && s[0] == '@' && s[|s| - 1] == '/' && IsBareName(s[1..|s| - 1])
  }

  /** For any expression that decides bare names. */
  lemma ThenSlash(name: Regex, s: string)
    requires forall u :: Matches(name, u) <==> IsBareName(u)
    ensures Matches(Then(name, Text("/")), s) <==> s != "" && s[|s| - 1] == '/' && IsBareName(s[..|s| - 1])
  {
    ThenText(name, "/", s);
    if s != "" {
      assert s[|s| - 1..] == [s[|s| - 1]];
    }
  }

  lemma NameThenSlash(s: string)
    ensures Matches(Then(BareName(), Text("/")), s) <==> s != "" && s[|s| - 1] == '/' && IsBareName(s[..|s| - 1])
  {
    forall u ensures Matches(BareName(), u) <==> IsBareName(u) {
      BareNameExactly(u);
    }
    ThenSlash(BareName(), s);
  }

  lemma ScopeExactly(s: string)
    ensures Matches(Scope(), s) <==> IsScope(s)
  {
    TextThen("@", Then(BareName(), Text("/")), s);
    if |s| >= 1 {
      NameThenSlash(s[1..]);
      assert s[..1] == [s[0]];
      if |s| >= 2 {
        assert s[1..][..|s[1..]| - 1] == s[1..|s| - 1];
      }
    }
  }

  /** A scope and a bare name. */
  predicate SplitsScoped(s: string, i: nat) {
    i <= |s| && IsScope(s[..i]) && IsBareName(s[i..])
  }

  lemma ScopedExactly(s: string)
    ensures Matches(Then(Scope(), BareName()), s) <==> exists i: nat :: SplitsScoped(s, i)
  {
    if Matches(Then(Scope(), BareName()), s) {
      var i := SplitMatch(Scope(), BareName(), s);
      ScopeExactly(s[..i]);
      BareNameExactly(s[i..]);
      assert SplitsScoped(s, i);
    }
    if i: nat :| SplitsScoped(s, i) {
      ScopeExactly(s[..i]);
      BareNameExactly(s[i..]);
      JoinMatch(Scope(), BareName(), s, i);
    }
  }

  lemma SplitAfterSlash(s: string, i: nat)
    requires 0 < i <= |s|
    ensures SplitsScoped(s, i) <==>
            2 <= i < |s| && s[0] == '@' && s[i - 1] == '/' && IsBareName(s[1..i - 1]) && IsBareName(s[i..])
  {
    if i >= 2 {
      assert s[..i][1..i - 1] == s[1..i - 1];
    }
  }

  lemma PackageNameInParts(s: string)
    ensures IsPackageName(s) <==> IsBareName(s) || exists i: nat :: SplitsScoped(s, i)
  {
    if i: nat :| SplitsScoped(s, i) {
      assert |s[..i]| >= 2;
      SplitAfterSlash(s, i);
      var slash := i - 1;
      assert s[slash] == '/' && IsBareName(s[1..slash]) && IsBareName(s[slash + 1..]);
    }
    if !IsBareName(s) && IsPackageName(s) {
      var i :| 1 < i < |s| && s[0] == '@' && s[i] == '/' && IsBareName(s[1..i]) && IsBareName(s[i + 1..]);
      SplitAfterSlash(s, i + 1);
      assert SplitsScoped(s, i + 1);
    }
  }

  lemma PackageNameExactly(s: string)
    ensures IsPackageName(s) <==> Matches(PackageName(), s)
  {
    MaybeThen(Scope(), BareName(), s);
    BareNameExactly(s);
    ScopedExactly(s);
    PackageNameInParts(s);
  }

  // ---------------------------------------------------------------- versions and path entries

  function Number(): Regex {
    Plus(Class(Digit))
  }

  /** `mark` and a tag. */
  function Tag(mark: string): Regex {
    Then(Text(mark), Plus(Class(TagChar)))
  }

  function Tags(): Regex {
    Then(Maybe(Tag("-")), Maybe(Tag("+")))
  }

  /** major.minor.patch and the tags. */
  function Version(): Regex {
    Then(Number(), Then(Text("."), MinorPatch()))
  }

  function PathEntry(): Regex {
    Then(PackageName(), Then(Text("@"), Version()))
  }

  lemma NumberExactly(s: string)
    ensures Matches(Number(), s) <==> PolicySchema.Digits(s)
  {
    PlusExactly(Digit, s);
    DigitsAreAll(s);
  }

  lemma TagExactly(s: string, mark: char)
    ensures Matches(Maybe(Tag([mark])), s) <==> IsTag(s, mark)
  {
    TextThen([mark], Plus(Class(TagChar)), s);
    if s != "" {
      PlusExactly(TagChar, s[1..]);
      assert s[..1] == [s[0]];
      assert forall i :: 0 < i < |s| ==> s[i] == s[1..][i - 1];
      assert forall i :: 0 <= i < |s[1..]| ==> s[1..][i] == s[i + 1];
      forall c ensures TagChar(c) <==> IsTagChar(c) {
        ClassesExactly(c);
      }
    }
  }

  /** A patch number and the tags. */
  predicate IsPatch(s: string, k: nat, l: nat) {
    k <= l <= |s| && PolicySchema.Digits(s[..k]) && IsTag(s[k..l], '-') && IsTag(s[l..], '+')
  }

  lemma PatchMatches(s: string, k: nat, l: nat)
    requires IsPatch(s, k, l)
    ensures Matches(Then(Number(), Tags()), s)
  {
    NumberExactly(s[..k]);
    TagExactly(s[k..l], '-');
    TagExactly(s[l..], '+');
    assert s[k..][..l - k] == s[k..l] && s[k..][l - k..] == s[l..];
    JoinMatch(Maybe(Tag("-")), Maybe(Tag("+")), s[k..], l - k);
    JoinMatch(Number(), Tags(), s, k);
  }

  lemma MatchIsPatch(s: string) returns (k: nat, l: nat)
    requires Matches(Then(Number(), Tags()), s)
    ensures IsPatch(s, k, l)
  {
    k := SplitMatch(Number(), Tags(), s);
    var m := SplitMatch(Maybe(Tag("-")), Maybe(Tag("+")), s[k..]);
    l := k + m;
    assert s[k..][..m] == s[k..l] && s[k..][m..] == s[l..];
    NumberExactly(s[..k]);
    TagExactly(s[k..l], '-');
    TagExactly(s[l..], '+');
  }

  /** A number, a dot and a rest. */
  lemma NumberDot(rest: Regex, s: string, i: nat)
    requires i < |s| && s[i] == '.' && PolicySchema.Digits(s[..i]) && Matches(rest, s[i + 1..])
    ensures Matches(Then(Number(), Then(Text("."), rest)), s)
  {
    NumberExactly(s[..i]);
    TextThen(".", rest, s[i..]);
    assert s[i..][..1] == "." && s[i..][1..] == s[i + 1..];
    JoinMatch(Number(), Then(Text("."), rest), s, i);
  }

  lemma MatchNumberDot(rest: Regex, s: string) returns (i: nat)
    requires Matches(Then(Number(), Then(Text("."), rest)), s)
    ensures i < |s| && s[i] == '.' && PolicySchema.Digits(s[..i]) && Matches(rest, s[i + 1..])
  {
    i := SplitMatch(Number(), Then(Text("."), rest), s);
    NumberExactly(s[..i]);
    TextThen(".", rest, s[i..]);
    assert s[i..][..1] == [s[i]] && s[i..][1..] == s[i + 1..];
  }

  /** A minor number, a dot, a patch number and the tags. */
  function MinorPatch(): Regex {
    Then(Number(), Then(Text("."), Then(Number(), Tags())))
  }

  predicate IsMinorPatch(s: string, j: nat, k: nat, l: nat) {
    j < |s| && s[j] == '.' && PolicySchema.Digits(s[..j]) && IsPatch(s[j + 1..], k, l)
  }

  lemma MinorPatchMatches(s: string, j: nat, k: nat, l: nat)
    requires IsMinorPatch(s, j, k, l)
    ensures Matches(MinorPatch(), s)
  {
    PatchMatches(s[j + 1..], k, l);
    NumberDot(Then(Number(), Tags()), s, j);
  }

  lemma MatchIsMinorPatch(s: string) returns (j: nat, k: nat, l: nat)
    requires Matches(MinorPatch(), s)
    ensures IsMinorPatch(s, j, k, l)
  {
    j := MatchNumberDot(Then(Number(), Tags()), s);
    k, l := MatchIsPatch(s[j + 1..]);
  }

  lemma PatchOfRest(s: string, j: nat, k: nat, l: nat)
    requires j <= k <= l <= |s|
    ensures IsPatch(s[j..], k - j, l - j) <==>
            PolicySchema.Digits(s[j..k]) && IsTag(s[k..l], '-') && IsTag(s[l..], '+')
  {
    SliceOfRest(s, j, j, k);
    SliceOfRest(s, j, k, l);
  }

  lemma MinorPatchOfRest(s: string, i: nat, j: nat, k: nat, l: nat)
    requires i <= j < k <= l <= |s|
    ensures IsMinorPatch(s[i..], j - i, k - j - 1, l - j - 1) <==>
            && s[j] == '.' && PolicySchema.Digits(s[i..j])
            && PolicySchema.Digits(s[j + 1..k]) && IsTag(s[k..l], '-') && IsTag(s[l..], '+')
  {
    SliceOfRest(s, i, i, j);
    SliceOfRest(s, i, j, j + 1);
    PatchOfRest(s, j + 1, k, l);
  }

  lemma MinorOfVersion(s: string, i: nat, j: nat, k: nat, l: nat)
    requires i < j < k <= l <= |s| && SplitsVersion(s, i, j, k, l)
    ensures Matches(MinorPatch(), s[i + 1..])
  {
    MinorPatchOfRest(s, i + 1, j, k, l);
    MinorPatchMatches(s[i + 1..], j - i - 1, k - j - 1, l - j - 1);
  }

  lemma VersionMatches(s: string, i: nat, j: nat, k: nat, l: nat)
    requires i < j < k <= l <= |s| && SplitsVersion(s, i, j, k, l)
    ensures Matches(Version(), s)
  {
    MinorOfVersion(s, i, j, k, l);
    NumberDot(MinorPatch(), s, i);
  }

  lemma MatchIsVersion(s: string)
    requires Matches(Version(), s)
    ensures IsExactVersion(s)
  {
    var i := MatchNumberDot(MinorPatch(), s);
    var m, p, q := MatchIsMinorPatch(s[i + 1..]);
    var j := i + 1 + m;
    MinorPatchOfRest(s, i + 1, j, j + 1 + p, j + 1 + q);
    assert SplitsVersion(s, i, j, j + 1 + p, j + 1 + q);
  }

  lemma ExactVersionExactly(s: string)
    ensures IsExactVersion(s) <==> Matches(Version(), s)
  {
    if IsExactVersion(s) {
      var i: nat, j: nat, k: nat, l: nat :| i < j < k <= l <= |s| && SplitsVersion(s, i, j, k, l);
      VersionMatches(s, i, j, k, l);
    }
    if Matches(Version(), s) {
      MatchIsVersion(s);
    }
  }

  lemma PathEntryExactly(s: string)
    ensures IsPathEntry(s) <==> Matches(PathEntry(), s)
  {
    if IsPathEntry(s) {
      var i :| 0 < i < |s| && s[i] == '@' && IsPackageName(s[..i]) && IsExactVersion(s[i + 1..]);
      PackageNameExactly(s[..i]);
      ExactVersionExactly(s[i + 1..]);
      TextThen("@", Version(), s[i..]);
      assert s[i..][..1] == "@" && s[i..][1..] == s[i + 1..];
      JoinMatch(PackageName(), Then(Text("@"), Version()), s, i);
    }
    if Matches(PathEntry(), s) {
      var i := SplitMatch(PackageName(), Then(Text("@"), Version()), s);
      TextThen("@", Version(), s[i..]);
      PackageNameExactly(s[..i]);
      assert s[i..][..1] == [s[i]] && s[i..][1..] == s[i + 1..];
      ExactVersionExactly(s[i + 1..]);
    }
  }

  // ---------------------------------------------------------------- white space

  /** Tab to carriage return, and the space separators, line separators and byte-order mark of ECMAScript. */
  lemma SpaceExactly(c: char)
    ensures IsSpace(c) <==>
            || 9 <= c as int <= 13 || c as int in {32, 0xA0, 0x1680}
            || 0x2000 <= c as int <= 0x200A || c as int in {0x2028, 0x2029, 0x202F, 0x205F, 0x3000, 0xFEFF}
  {
  }

  /** Trimming removes the white space at both ends and nothing else. */
  lemma {:induction false} TrimExactly(s: string) returns (i: nat, j: nat)
    ensures IsTrimmed(s, i, j) && Trim(s) == s[i..j]
    decreases |s|
  {
    if s == "" {
      return 0, 0;
    } else if IsSpace(s[0]) {
      var m, n := TrimExactly(s[1..]);
      SpaceInFront(s, m, n);
      return m + 1, n + 1;
    } else if IsSpace(s[|s| - 1]) {
      i, j := TrimExactly(s[..|s| - 1]);
      SpaceBehind(s, i, j);
    } else {
      return 0, |s|;
    }
  }

  /** The part from `i` to `j` is what trimming leaves. */
  predicate IsTrimmed(s: string, i: nat, j: nat) {
    && i <= j <= |s|
    && (forall k | 0 <= k < |s| :: k < i || j <= k ==> IsSpace(s[k]))
    && (i < j ==> !IsSpace(s[i]) && !IsSpace(s[j - 1]))
  }

  lemma SpaceInFront(s: string, m: nat, n: nat)
    requires s != "" && IsSpace(s[0]) && IsTrimmed(s[1..], m, n)
    ensures IsTrimmed(s, m + 1, n + 1) && s[1..][m..n] == s[m + 1..n + 1]
  {
    assert forall k :: 0 < k < |s| ==> s[k] == s[1..][k - 1];
  }

  lemma SpaceBehind(s: string, i: nat, j: nat)
    requires s != "" && IsSpace(s[|s| - 1]) && IsTrimmed(s[..|s| - 1], i, j)
    ensures IsTrimmed(s, i, j) && s[..|s| - 1][i..j] == s[i..j]
  {
    assert forall k :: 0 <= k < |s| - 1 ==> s[k] == s[..|s| - 1][k];
  }

  /** Some character is no white space. */
  lemma NonBlankExactly(s: string)
    ensures IsNonBlank(s) <==> exists k :: 0 <= k < |s| && !IsSpace(s[k])
  {
    var i, j := TrimExactly(s);
  }

  /** From the first to the last character that is no white space there are at least twenty. */
  lemma ProseExactly(s: string)
    ensures IsProse(s) <==>
            exists m, n :: 0 <= m && m + 19 <= n < |s| && !IsSpace(s[m]) && !IsSpace(s[n])
  {
    var i, j := TrimExactly(s);
    if IsProse(s) {
      assert !IsSpace(s[i]) && !IsSpace(s[j - 1]);
    }
  }
}
