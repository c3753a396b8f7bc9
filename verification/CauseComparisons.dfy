/**
  How coverage responds to the judge of advisories: a more permissive judge covers more findings, and
  judges that agree on every advisory give the same coverage.
 */
module CauseComparisons {
  import opened Prelude
  import opened AuditReport
  import opened Causes
  import opened CauseLaws

  /** `more` covers every advisory that `less` covers. */
  ghost predicate AllowsMore(less: CauseGraph, more: CauseGraph) {
    && less.byName == more.byName
    && forall f, a :: less.judge(f, a).covered ==> more.judge(f, a).covered
  }

  lemma CoverageIsMonotone(less: CauseGraph, more: CauseGraph, name: string)
    requires AllowsMore(less, more) && Covered(less, name)
    ensures Covered(more, name)
  {
    CoveredExactlyWhenSoundlyCaused(less, name);
    forall chain | IsChain(more, chain) && chain[0] == name
      ensures Distinct(chain) && Grounded(more, chain[|chain| - 1])
    {
      assert IsChain(less, chain) by {
        forall i {:trigger chain[i]} | 0 <= i < |chain| - 1 ensures Inherits(less, chain[i], chain[i + 1]) {
          assert Inherits(more, chain[i], chain[i + 1]);
        }
      }
      assert Grounded(less, chain[|chain| - 1]);
    }
    CoveredExactlyWhenSoundlyCaused(more, name);
  }

  /** The two judges give the same verdict on every advisory. */
  ghost predicate SameVerdicts(a: CauseGraph, b: CauseGraph) {
    && a.byName == b.byName
    && forall f, cause :: a.judge(f, cause) == b.judge(f, cause)
  }

  lemma {:induction false} SameDerivations(a: CauseGraph, b: CauseGraph, height: nat, name: string)
    requires SameVerdicts(a, b)
    ensures Derive(a, height, name) == Derive(b, height, name)
    decreases height, 0
  {
    if height > 0 && name in a.byName {
      SameCauseDerivations(a, b, height, a.byName[name], a.byName[name].via);
    }
  }

  lemma {:induction false} SameCauseDerivations(a: CauseGraph, b: CauseGraph, height: nat, f: Finding, via: seq<Cause>)
    requires SameVerdicts(a, b) && height > 0
    ensures DeriveCauses(a, height, f, via) == DeriveCauses(b, height, f, via)
    decreases height - 1, |via| + 1
  {
    if via != [] {
      SameCauseDerivations(a, b, height, f, via[..|via| - 1]);
      var last := via[|via| - 1];
      match last
      case Inherited(name) => SameDerivations(a, b, height - 1, name);
      case Advisory(cause) => assert a.judge(f, cause) == b.judge(f, cause);
    }
  }

  lemma {:induction false} SameWeights(a: CauseGraph, b: CauseGraph, f: Finding, via: seq<Cause>)
    requires SameVerdicts(a, b)
    ensures WeighCauses(a, f, via) == WeighCauses(b, f, via)
  {
    if via != [] {
      SameWeights(a, b, f, via[..|via| - 1]);
      var last := via[|via| - 1];
      match last
      case Inherited(name) => SameDerivations(a, b, |a.byName|, name);
      case Advisory(cause) => assert a.judge(f, cause) == b.judge(f, cause);
    }
  }
}
