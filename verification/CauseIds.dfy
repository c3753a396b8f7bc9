/**
  Which exception ids a covered finding reports: exactly those that some advisory reached through its
  causes relies on, and always at least one.
 */
module CauseIds {
  import opened AuditReport
  import opened Causes
  import opened CauseLaws

  /** Some finding reached from `name` by inherited causes has an advisory covered under `id`. */
  ghost predicate ReliesOn(c: CauseGraph, name: string, id: string) {
    exists chain, a ::
      && IsChain(c, chain) && chain[0] == name && chain[|chain| - 1] in c.byName
      && Advisory(a) in c.byName[chain[|chain| - 1]].via
      && id in c.judge(c.byName[chain[|chain| - 1]], a).exceptionIds
  }

  lemma {:induction false} DerivedIds(c: CauseGraph, height: nat, f: Finding, via: seq<Cause>, id: string)
    requires height > 0 && DeriveCauses(c, height, f, via).Some?
    ensures id in DeriveCauses(c, height, f, via).value <==>
            exists cause :: cause in via && DeriveCause(c, height, f, cause).Some?
              && id in DeriveCause(c, height, f, cause).value
  {
    if via != [] {
      var front, last := via[..|via| - 1], via[|via| - 1];
      assert via == front + [last];
      DerivedIds(c, height, f, front, id);
      if id in DeriveCause(c, height, f, last).value {
        assert last in via;
      }
    }
  }

  lemma ReliesThroughCause(c: CauseGraph, from: string, cause: string, id: string)
    requires Inherits(c, from, cause) && ReliesOn(c, cause, id)
    ensures ReliesOn(c, from, id)
  {
    var chain, a :|
      && IsChain(c, chain) && chain[0] == cause && chain[|chain| - 1] in c.byName
      && Advisory(a) in c.byName[chain[|chain| - 1]].via
      && id in c.judge(c.byName[chain[|chain| - 1]], a).exceptionIds;
    var longer := [from] + chain;
    forall i {:trigger longer[i]} | 0 <= i < |longer| - 1 ensures Inherits(c, longer[i], longer[i + 1]) {
      if i > 0 {
        assert Inherits(c, chain[i - 1], chain[i]);
      }
    }
    assert IsChain(c, longer) && longer[|longer| - 1] == chain[|chain| - 1];
  }

  lemma {:induction false} DerivedIdHasSource(c: CauseGraph, height: nat, name: string, id: string)
    requires Derive(c, height, name).Some? && id in Derive(c, height, name).value
    ensures ReliesOn(c, name, id)
    decreases height
  {
    var f := c.byName[name];
    DerivedIds(c, height, f, f.via, id);
    var via :| via in f.via && DeriveCause(c, height, f, via).Some? && id in DeriveCause(c, height, f, via).value;
    match via
    case Inherited(cause) =>
      DerivedIdHasSource(c, height - 1, cause, id);
      ReliesThroughCause(c, name, cause, id);
    case Advisory(a) =>
      var chain := [name];
      assert IsChain(c, chain) && chain[|chain| - 1] == name;
  }

  lemma {:induction false} SourceIsDerived(c: CauseGraph, height: nat, chain: seq<string>, a: AdvisoryCause, id: string)
    requires IsChain(c, chain) && Derive(c, height, chain[0]).Some?
    requires chain[|chain| - 1] in c.byName && Advisory(a) in c.byName[chain[|chain| - 1]].via
    requires id in c.judge(c.byName[chain[|chain| - 1]], a).exceptionIds
    ensures id in Derive(c, height, chain[0]).value
    decreases |chain|
  {
    var f := c.byName[chain[0]];
    DerivedIds(c, height, f, f.via, id);
    DeriveCausesExact(c, height, f, f.via);
    if |chain| == 1 {
      assert DeriveCause(c, height, f, Advisory(a)).Some?;
    } else {
      assert Inherits(c, chain[0], chain[1]);
      assert DeriveCause(c, height, f, Inherited(chain[1])).Some?;
      SubChain(c, chain, 1, |chain|);
      assert chain[1..|chain|][|chain| - 2] == chain[|chain| - 1];
      SourceIsDerived(c, height - 1, chain[1..|chain|], a, id);
    }
  }

  lemma SourceOf(c: CauseGraph, name: string, id: string) returns (f: Finding, a: AdvisoryCause)
    requires ReliesOn(c, name, id)
    ensures id in c.judge(f, a).exceptionIds
  {
    var chain, advisory :|
      && IsChain(c, chain) && chain[0] == name && chain[|chain| - 1] in c.byName
      && Advisory(advisory) in c.byName[chain[|chain| - 1]].via
      && id in c.judge(c.byName[chain[|chain| - 1]], advisory).exceptionIds;
    return c.byName[chain[|chain| - 1]], advisory;
  }

  /** A covered finding reports exactly the ids relied on somewhere below it. */
  lemma CoveringIdsExact(c: CauseGraph, name: string, id: string)
    requires Covered(c, name)
    ensures id in Covering(c, name).value <==> ReliesOn(c, name, id)
  {
    if id in Covering(c, name).value {
      DerivedIdHasSource(c, |c.byName|, name, id);
    }
    if ReliesOn(c, name, id) {
      var chain, a :|
        && IsChain(c, chain) && chain[0] == name && chain[|chain| - 1] in c.byName
        && Advisory(a) in c.byName[chain[|chain| - 1]].via
        && id in c.judge(c.byName[chain[|chain| - 1]], a).exceptionIds;
      SourceIsDerived(c, |c.byName|, chain, a, id);
    }
  }

  /** The report lists a cause for every finding, as the parser guarantees. */
  ghost predicate EveryFindingHasCause(c: CauseGraph) {
    forall n :: n in c.byName ==> c.byName[n].via != []
  }

  lemma {:induction false} DerivationReliesOnSomething(c: CauseGraph, height: nat, name: string)
    requires SoundJudge(c) && EveryFindingHasCause(c) && Derive(c, height, name).Some?
    ensures Derive(c, height, name).value != []
    decreases height
  {
    var f := c.byName[name];
    var first := f.via[0];
    DeriveCausesExact(c, height, f, f.via);
    assert DeriveCause(c, height, f, first).Some?;
    match first {
      case Inherited(cause) => DerivationReliesOnSomething(c, height - 1, cause);
      case Advisory(a) => assert SoundVerdict(c.judge(f, a));
    }
    var ids := DeriveCause(c, height, f, first).value;
    DerivedIds(c, height, f, f.via, ids[0]);
  }
}
