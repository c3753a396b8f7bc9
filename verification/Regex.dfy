/**
  Regular expressions, anchored at both ends, and what they match: the reference against which the recognisers of
  the policy schema and of advisory URLs are measured.
 */
module Regex {

  datatype Regex =
    | Empty
    | Class(accepts: char -> bool)
    | Then(first: Regex, second: Regex)
    | Either(left: Regex, right: Regex)
    | Star(body: Regex)

  ghost predicate Matches(r: Regex, s: string)
    decreases r, |s|
  {
    match r
    case Empty => s == ""
    case Class(accepts) => |s| == 1 && accepts(s[0])
    case Then(first, second) => exists i | 0 <= i <= |s| :: Matches(first, s[..i]) && Matches(second, s[i..])
    case Either(left, right) => Matches(left, s) || Matches(right, s)
    case Star(body) => s == "" || exists i | 0 < i <= |s| :: Matches(body, s[..i]) && Matches(r, s[i..])
  }

  function Plus(r: Regex): Regex {
    Then(r, Star(r))
  }

  function Maybe(r: Regex): Regex {
    Either(Empty, r)
  }

  function Char(c: char): Regex {
    Class(x => x == c)
  }

  /** Exactly the text `s`. */
  function Text(s: string): Regex {
    if s == "" then Empty else Then(Char(s[0]), Text(s[1..]))
  }

  function Times(r: Regex, n: nat): Regex {
    if n == 0 then Empty else Then(r, Times(r, n - 1))
  }

  predicate All(accepts: char -> bool, s: string) {
    forall i | 0 <= i < |s| :: accepts(s[i])
  }

  /** A match of one character and then a rest. */
  lemma ClassThen(accepts: char -> bool, rest: Regex, s: string)
    ensures Matches(Then(Class(accepts), rest), s) <==> s != "" && accepts(s[0]) && Matches(rest, s[1..])
  {
    if s != "" && accepts(s[0]) && Matches(rest, s[1..]) {
      assert Matches(Class(accepts), s[..1]);
    }
  }

  lemma {:induction false} TextExactly(t: string, s: string)
    ensures Matches(Text(t), s) <==> s == t
    decreases |t|
  {
    if t != "" {
      ClassThen(x => x == t[0], Text(t[1..]), s);
      if s != "" {
        TextExactly(t[1..], s[1..]);
        assert s == [s[0]] + s[1..] && t == [t[0]] + t[1..];
      }
    }
  }

  lemma {:induction false} TimesExactly(accepts: char -> bool, n: nat, s: string)
    ensures Matches(Times(Class(accepts), n), s) <==> |s| == n && All(accepts, s)
    decreases n
  {
    if n > 0 {
      ClassThen(accepts, Times(Class(accepts), n - 1), s);
      if s != "" {
        TimesExactly(accepts, n - 1, s[1..]);
        AllFromFirst(accepts, s);
      }
    }
  }

  lemma AllFromFirst(accepts: char -> bool, s: string)
    requires s != ""
    ensures All(accepts, s) <==> accepts(s[0]) && All(accepts, s[1..])
  {
    assert forall i :: 0 < i < |s| ==> s[i] == s[1..][i - 1];
  }

  lemma AllOfParts(accepts: char -> bool, s: string, n: nat)
    requires n <= |s|
    ensures All(accepts, s) <==> All(accepts, s[..n]) && All(accepts, s[n..])
  {
    assert forall i :: 0 <= i < |s| ==> s[i] == if i < n then s[..n][i] else s[n..][i - n];
    assert forall i :: 0 <= i < n ==> s[..n][i] == s[i];
    assert forall i :: 0 <= i < |s| - n ==> s[n..][i] == s[n + i];
  }

  lemma {:induction false} StarExactly(accepts: char -> bool, s: string)
    ensures Matches(Star(Class(accepts)), s) <==> All(accepts, s)
    decreases |s|
  {
    if s != "" {
      StarExactly(accepts, s[1..]);
      AllFromFirst(accepts, s);
      if All(accepts, s) {
        assert Matches(Class(accepts), s[..1]);
      }
    }
  }

  lemma PlusExactly(accepts: char -> bool, s: string)
    ensures Matches(Plus(Class(accepts)), s) <==> s != "" && All(accepts, s)
  {
    ClassThen(accepts, Star(Class(accepts)), s);
    if s != "" {
      StarExactly(accepts, s[1..]);
      AllFromFirst(accepts, s);
    }
  }

  /** The expression matches texts of length `n` only. */
  ghost predicate HasLength(r: Regex, n: nat) {
    forall s :: Matches(r, s) ==> |s| == n
  }

  lemma FixedThen(first: Regex, n: nat, second: Regex, s: string)
    requires HasLength(first, n)
    ensures Matches(Then(first, second), s) <==> |s| >= n && Matches(first, s[..n]) && Matches(second, s[n..])
  {
  }

  /** A fixed text and then a rest. */
  lemma TextThen(t: string, rest: Regex, s: string)
    ensures Matches(Then(Text(t), rest), s) <==> |s| >= |t| && s[..|t|] == t && Matches(rest, s[|t|..])
  {
    forall u ensures Matches(Text(t), u) ==> |u| == |t| {
      TextExactly(t, u);
    }
    FixedThen(Text(t), |t|, rest, s);
    if |s| >= |t| {
      TextExactly(t, s[..|t|]);
    }
  }

  /** A match of a sequence splits somewhere. */
  lemma SplitMatch(first: Regex, second: Regex, s: string) returns (i: nat)
    requires Matches(Then(first, second), s)
    ensures i <= |s| && Matches(first, s[..i]) && Matches(second, s[i..])
  {
    i :| 0 <= i <= |s| && Matches(first, s[..i]) && Matches(second, s[i..]);
  }

  lemma JoinMatch(first: Regex, second: Regex, s: string, i: nat)
    requires i <= |s| && Matches(first, s[..i]) && Matches(second, s[i..])
    ensures Matches(Then(first, second), s)
  {
  }

  /** A rest and then a fixed text. */
  lemma ThenText(first: Regex, t: string, s: string)
    ensures Matches(Then(first, Text(t)), s) <==>
            |s| >= |t| && s[|s| - |t|..] == t && Matches(first, s[..|s| - |t|])
  {
    if Matches(Then(first, Text(t)), s) {
      var i := SplitMatch(first, Text(t), s);
      TextExactly(t, s[i..]);
    }
    if |s| >= |t| && s[|s| - |t|..] == t && Matches(first, s[..|s| - |t|]) {
      TextExactly(t, s[|s| - |t|..]);
      JoinMatch(first, Text(t), s, |s| - |t|);
    }
  }

  /** An optional start. */
  lemma MaybeThen(first: Regex, second: Regex, s: string)
    ensures Matches(Then(Maybe(first), second), s) <==> Matches(second, s) || Matches(Then(first, second), s)
  {
    assert s[..0] == "" && s[0..] == s;
    if Matches(Then(Maybe(first), second), s) {
      var i := SplitMatch(Maybe(first), second, s);
      assert i == 0 || !Matches(Empty, s[..i]);
    }
    if Matches(second, s) {
      JoinMatch(Maybe(first), second, s, 0);
    }
    if Matches(Then(first, second), s) {
      var i := SplitMatch(first, second, s);
      JoinMatch(Maybe(first), second, s, i);
    }
  }
}
