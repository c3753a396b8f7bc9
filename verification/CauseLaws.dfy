/**
  Coverage as a property of the cause graph. A finding is covered exactly when every chain of causes
  that starts at it repeats no finding, stays inside the report and meets only covered advisories.
 */
module CauseLaws {
  import opened Prelude
  import opened AuditReport
  import opened Causes

  ghost predicate Inherits(c: CauseGraph, from: string, cause: string) {
    from in c.byName && Inherited(cause) in c.byName[from].via
  }

  /** Each name inherits from the next. */
  ghost predicate IsChain(c: CauseGraph, chain: seq<string>) {
    && chain != []
    && forall i {:trigger chain[i]} :: 0 <= i < |chain| - 1 ==> Inherits(c, chain[i], chain[i + 1])
  }

  /** The finding is in the report and its own advisories are covered. */
  ghost predicate Grounded(c: CauseGraph, name: string) {
    && name in c.byName
    && forall a :: Advisory(a) in c.byName[name].via ==> c.judge(c.byName[name], a).covered
  }

  /** No cycle, no missing cause and no uncovered advisory can be reached from `name`. */
  ghost predicate SoundlyCaused(c: CauseGraph, name: string) {
    forall chain :: IsChain(c, chain) && chain[0] == name ==> Distinct(chain) && Grounded(c, chain[|chain| - 1])
  }

  // ---------------------------------------------------------------- derivations

  lemma {:induction false} DeriveCausesExact(c: CauseGraph, height: nat, f: Finding, via: seq<Cause>)
    requires height > 0
    ensures DeriveCauses(c, height, f, via).Some?
            <==> forall cause :: cause in via ==> DeriveCause(c, height, f, cause).Some?
  {
    if via != [] {
      var front, last := via[..|via| - 1], via[|via| - 1];
      assert via == front + [last];
      DeriveCausesExact(c, height, f, front);
      assert (forall cause :: cause in via ==> DeriveCause(c, height, f, cause).Some?) <==>
             (forall cause :: cause in front ==> DeriveCause(c, height, f, cause).Some?)
               && DeriveCause(c, height, f, last).Some?;
    }
  }

  lemma {:induction false} DeriveIsMonotone(c: CauseGraph, low: nat, high: nat, name: string)
    requires low <= high && Derive(c, low, name).Some?
    ensures Derive(c, high, name) == Derive(c, low, name)
    decreases low, 0
  {
    DeriveCausesMonotone(c, low, high, c.byName[name], c.byName[name].via);
  }

  lemma {:induction false} DeriveCausesMonotone(c: CauseGraph, low: nat, high: nat, f: Finding, via: seq<Cause>)
    requires 0 < low <= high && DeriveCauses(c, low, f, via).Some?
    ensures DeriveCauses(c, high, f, via) == DeriveCauses(c, low, f, via)
    decreases low - 1, |via| + 1
  {
    if via != [] {
      DeriveCausesMonotone(c, low, high, f, via[..|via| - 1]);
      var last := via[|via| - 1];
      if last.Inherited? {
        DeriveIsMonotone(c, low - 1, high - 1, last.name);
      }
    }
  }

  lemma DescendOneCause(c: CauseGraph, height: nat, from: string, cause: string)
    requires Derive(c, height, from).Some? && Inherits(c, from, cause)
    ensures height > 0 && Derive(c, height - 1, cause).Some?
  {
    var f := c.byName[from];
    DeriveCausesExact(c, height, f, f.via);
    assert DeriveCause(c, height, f, Inherited(cause)).Some?;
  }

  lemma {:induction false} DescendChain(c: CauseGraph, height: nat, chain: seq<string>)
    requires IsChain(c, chain) && Derive(c, height, chain[0]).Some?
    ensures |chain| <= height && Derive(c, height - (|chain| - 1), chain[|chain| - 1]).Some?
  {
    if |chain| > 1 {
      DescendOneCause(c, height, chain[0], chain[1]);
      assert IsChain(c, chain[1..]) by {
        forall i | 0 <= i < |chain[1..]| - 1 ensures Inherits(c, chain[1..][i], chain[1..][i + 1]) {
          assert Inherits(c, chain[i + 1], chain[i + 2]);
        }
      }
      DescendChain(c, height - 1, chain[1..]);
    }
  }

  /** A finding that causes itself has no derivation: each turn of the cycle would need a lower one. */
  lemma {:induction false} CycleHasNoDerivation(c: CauseGraph, height: nat, cycle: seq<string>)
    requires IsChain(c, cycle) && |cycle| > 1 && cycle[0] == cycle[|cycle| - 1]
    ensures Derive(c, height, cycle[0]).None?
    decreases height
  {
    if Derive(c, height, cycle[0]).Some? {
      DescendChain(c, height, cycle);
      CycleHasNoDerivation(c, height - (|cycle| - 1), cycle);
    }
  }

  lemma SubChain(c: CauseGraph, chain: seq<string>, i: nat, j: nat)
    requires IsChain(c, chain) && i < j <= |chain|
    ensures IsChain(c, chain[i..j])
  {
    forall k | 0 <= k < j - i - 1 ensures Inherits(c, chain[i..j][k], chain[i..j][k + 1]) {
      assert Inherits(c, chain[i + k], chain[i + k + 1]);
    }
  }

  lemma DerivationIsGrounded(c: CauseGraph, height: nat, name: string)
    requires Derive(c, height, name).Some?
    ensures Grounded(c, name)
  {
    var f := c.byName[name];
    DeriveCausesExact(c, height, f, f.via);
    forall a | Advisory(a) in f.via ensures c.judge(f, a).covered {
      assert DeriveCause(c, height, f, Advisory(a)).Some?;
    }
  }

  lemma DerivableChainNeverReturns(c: CauseGraph, height: nat, chain: seq<string>, i: nat, j: nat)
    requires IsChain(c, chain) && Derive(c, height, chain[0]).Some? && i < j < |chain|
    ensures chain[i] != chain[j]
  {
    var before, between := chain[0..i + 1], chain[i..j + 1];
    SubChain(c, chain, 0, i + 1);
    SubChain(c, chain, i, j + 1);
    assert before[0] == chain[0] && before[|before| - 1] == chain[i] == between[0];
    DescendChain(c, height, before);
    if between[0] == between[|between| - 1] {
      CycleHasNoDerivation(c, height - i, between);
    }
  }

  lemma DerivableChainIsDistinct(c: CauseGraph, height: nat, chain: seq<string>)
    requires IsChain(c, chain) && Derive(c, height, chain[0]).Some?
    ensures Distinct(chain)
  {
    forall i, j | 0 <= i < j < |chain| ensures chain[i] != chain[j] {
      DerivableChainNeverReturns(c, height, chain, i, j);
    }
  }

  lemma DerivableIsSound(c: CauseGraph, height: nat, name: string)
    requires Derive(c, height, name).Some?
    ensures SoundlyCaused(c, name)
  {
    forall chain | IsChain(c, chain) && chain[0] == name
      ensures Distinct(chain) && Grounded(c, chain[|chain| - 1])
    {
      DescendChain(c, height, chain);
      DerivationIsGrounded(c, height - (|chain| - 1), chain[|chain| - 1]);
      DerivableChainIsDistinct(c, height, chain);
    }
  }

  lemma ChainFits(c: CauseGraph, chain: seq<string>)
    requires Distinct(chain) && forall n :: n in chain ==> n in c.byName
    ensures |chain| <= |c.byName|
  {
    DistinctByCardinality(chain);
    assert Elements(chain) <= c.byName.Keys;
    SubsetIsNoLarger(Elements(chain), c.byName.Keys);
  }

  lemma {:induction false} SubsetIsNoLarger<T>(a: set<T>, b: set<T>)
    requires a <= b
    ensures |a| <= |b|
  {
    assert b == a + (b - a);
  }

  /** Everything on a chain of a soundly caused finding is in the report. */
  lemma ChainStaysInside(c: CauseGraph, chain: seq<string>)
    requires IsChain(c, chain) && SoundlyCaused(c, chain[0])
    ensures Distinct(chain) && forall n :: n in chain ==> n in c.byName
  {
    forall i | 0 <= i < |chain| ensures chain[i] in c.byName {
      SubChain(c, chain, 0, i + 1);
      assert chain[0..i + 1][0] == chain[0];
    }
  }

  lemma LongerChain(c: CauseGraph, chain: seq<string>, cause: string)
    requires IsChain(c, chain) && Inherits(c, chain[|chain| - 1], cause)
    ensures IsChain(c, chain + [cause]) && (chain + [cause])[0] == chain[0]
  {
    var longer := chain + [cause];
    forall i {:trigger longer[i]} | 0 <= i < |longer| - 1 ensures Inherits(c, longer[i], longer[i + 1]) {
      if i < |chain| - 1 {
        assert Inherits(c, chain[i], chain[i + 1]);
      }
    }
  }

  lemma SoundChainFits(c: CauseGraph, chain: seq<string>)
    requires IsChain(c, chain) && SoundlyCaused(c, chain[0])
    ensures |chain| <= |c.byName| && Grounded(c, chain[|chain| - 1])
  {
    ChainStaysInside(c, chain);
    ChainFits(c, chain);
  }

  lemma {:induction false} SoundCauseIsDerivable(c: CauseGraph, chain: seq<string>, cause: Cause)
    requires IsChain(c, chain) && SoundlyCaused(c, chain[0]) && |chain| <= |c.byName|
    requires Grounded(c, chain[|chain| - 1]) && cause in c.byName[chain[|chain| - 1]].via
    ensures DeriveCause(c, |c.byName| - |chain| + 1, c.byName[chain[|chain| - 1]], cause).Some?
    decreases |c.byName| - |chain|, 0
  {
    if cause.Inherited? {
      LongerChain(c, chain, cause.name);
      SoundChainFits(c, chain + [cause.name]);
      SoundIsDerivable(c, chain + [cause.name]);
    }
  }

  lemma {:induction false} SoundIsDerivable(c: CauseGraph, chain: seq<string>)
    requires IsChain(c, chain) && SoundlyCaused(c, chain[0])
    ensures |chain| <= |c.byName| && Derive(c, |c.byName| - |chain| + 1, chain[|chain| - 1]).Some?
    decreases |c.byName| - |chain|, 1
  {
    SoundChainFits(c, chain);
    var f, height := c.byName[chain[|chain| - 1]], |c.byName| - |chain| + 1;
    forall cause | cause in f.via ensures DeriveCause(c, height, f, cause).Some? {
      SoundCauseIsDerivable(c, chain, cause);
    }
    DeriveCausesExact(c, height, f, f.via);
  }

  /** Coverage in terms of the cause graph alone. */
  lemma CoveredExactlyWhenSoundlyCaused(c: CauseGraph, name: string)
    ensures Covered(c, name) <==> SoundlyCaused(c, name)
  {
    if Covered(c, name) {
      DerivableIsSound(c, |c.byName|, name);
    }
    if SoundlyCaused(c, name) {
      SoundIsDerivable(c, [name]);
    }
  }

  /** No derivation of any height gives more than the bounded one. */
  lemma BoundedDerivationSuffices(c: CauseGraph, height: nat, name: string)
    requires Derive(c, height, name).Some?
    ensures Covering(c, name) == Derive(c, height, name)
  {
    DerivableIsSound(c, height, name);
    SoundIsDerivable(c, [name]);
    if height <= |c.byName| {
      DeriveIsMonotone(c, height, |c.byName|, name);
    } else {
      DeriveIsMonotone(c, |c.byName|, height, name);
    }
  }

  // ---------------------------------------------------------------- the fixed-point equation

  /** A covered verdict relies on some id and raises no objection; an uncovered one is the opposite. */
  predicate SoundVerdict(v: CauseCoverage) {
    if v.covered then v.exceptionIds != [] && v.reasons == [] else v.exceptionIds == [] && v.reasons != []
  }

  ghost predicate SoundJudge(c: CauseGraph) {
    forall f, a :: SoundVerdict(c.judge(f, a))
  }

  lemma {:induction false} DerivedCausesWeighNothing(c: CauseGraph, height: nat, f: Finding, via: seq<Cause>)
    requires SoundJudge(c) && height > 0 && DeriveCauses(c, height, f, via).Some?
    ensures WeighCauses(c, f, via).reasons == [] && WeighCauses(c, f, via).ids == DeriveCauses(c, height, f, via).value
  {
    if via != [] {
      var last := via[|via| - 1];
      DerivedCausesWeighNothing(c, height, f, via[..|via| - 1]);
      if last.Inherited? {
        BoundedDerivationSuffices(c, height - 1, last.name);
      } else {
        assert SoundVerdict(c.judge(f, last.advisory));
      }
    }
  }

  lemma {:induction false} UnobjectedCausesDerive(c: CauseGraph, f: Finding, via: seq<Cause>)
    requires SoundJudge(c) && WeighCauses(c, f, via).reasons == []
    ensures DeriveCauses(c, |c.byName| + 1, f, via) == Some(WeighCauses(c, f, via).ids)
  {
    if via != [] {
      var last := via[|via| - 1];
      UnobjectedCausesDerive(c, f, via[..|via| - 1]);
      if last.Advisory? {
        assert SoundVerdict(c.judge(f, last.advisory));
      }
    }
  }

  /** A finding is covered exactly when weighing its causes raises no objection; the ids agree. */
  lemma CoverageIsFixedPoint(c: CauseGraph, name: string)
    requires SoundJudge(c) && name in c.byName
    ensures FindingCoverage(c, c.byName[name]).covered == Covered(c, name)
    ensures Covered(c, name) ==> FindingCoverage(c, c.byName[name]).exceptionIds == Covering(c, name).value
  {
    var f := c.byName[name];
    if Covered(c, name) {
      DerivedCausesWeighNothing(c, |c.byName|, f, f.via);
    }
    if WeighCauses(c, f, f.via).reasons == [] {
      UnobjectedCausesDerive(c, f, f.via);
      BoundedDerivationSuffices(c, |c.byName| + 1, name);
    }
  }
}
