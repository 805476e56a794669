/** The reconciliation of one dataset: its result is a fixed point, and no rewrite undoes a change. */
module RegistryTheory {
  import opened Results
  import opened JsonValues
  import opened ConfigMerge
  import opened Registry

  // ----- The rewrites keep settled configurations settled -----

  lemma TaifexKeepsSettled(seed: Mapping, config: Mapping)
    requires SeedOk(seed) && HasSections(seed[DeliveryExpectation].m) && TaifexRefusal(seed, config).None?
    requires Settled(TwFuturesEod, seed, config)
    ensures Settled(TwFuturesEod, seed, TaifexConfig(seed, config))
  {
    if TaifexMarked(config) {
      var governance := Obj(config[FullMarket].m[Required := Bool(true)]);
      SeedSettles(TwFuturesEod, seed);
      UpdateKeepsSettled(TwFuturesEod, seed, config, DeliveryExpectation, seed[DeliveryExpectation]);
      var neutral := config[DeliveryExpectation := seed[DeliveryExpectation]];
      UpdateKeepsSettled(TwFuturesEod, seed, neutral, FullMarket, governance);
      RemovalKeepsSettled(TwFuturesEod, seed, neutral[FullMarket := governance], StagingPilot);
    }
  }

  lemma TaifexIsIdempotent(seed: Mapping, config: Mapping)
    requires SeedOk(seed) && HasSections(seed[DeliveryExpectation].m) && TaifexRefusal(seed, config).None?
    ensures TaifexRefusal(seed, TaifexConfig(seed, config)).None?
    ensures TaifexConfig(seed, TaifexConfig(seed, config)) == TaifexConfig(seed, config)
  {
    NullIsNoPilot();
    if TaifexMarked(config) {
      var rewritten := TaifexConfig(seed, config);
      assert Get(rewritten, StagingPilot) == Null;
      assert FullMarketTyped(Get(rewritten, FullMarket));
    }
  }

  /** A marked pilot configuration becomes the neutral declaration: no marker, the seed's expectation, the full market
      required but not enabled. */
  lemma TaifexRestoresTheNeutralPolicy(seed: Mapping, config: Mapping)
    requires SeedOk(seed) && HasSections(seed[DeliveryExpectation].m)
    requires TaifexMarked(config) && TaifexRefusal(seed, config).None?
    ensures var result := TaifexConfig(seed, config);
            && !TaifexMarked(result) && StagingPilot !in result && result[DeliveryExpectation] == seed[DeliveryExpectation]
            && Get(result[FullMarket].m, Required) == Bool(true) && Same(Get(result[FullMarket].m, Enabled), Bool(false))
  {
    NullIsNoPilot();
    assert Get(TaifexConfig(seed, config), StagingPilot) == Null;
  }

  /** Every other leaf of the configuration is kept and none is added. */
  lemma TaifexTouchesNothingElse(seed: Mapping, config: Mapping, path: seq<Key>, leaf: Json)
    requires SeedOk(seed) && HasSections(seed[DeliveryExpectation].m) && TaifexRefusal(seed, config).None?
    requires path != [] && path[0] != StagingPilot && path[0] != DeliveryExpectation
    requires !([FullMarket, Required] <= path) && !leaf.Obj?
    ensures Leads(Obj(config), path, leaf) <==> Leads(Obj(TaifexConfig(seed, config)), path, leaf)
  {
    if TaifexMarked(config) {
      var governance := config[FullMarket].m;
      if path[0] == FullMarket {
        RequiredLeaf(governance, path[1..], leaf);
      }
      RewriteDecides(config, seed[DeliveryExpectation], governance[Required := Bool(true)], path, leaf);
    }
  }

  lemma RewriteDecides(config: Mapping, expectation: Json, governance: Mapping, path: seq<Key>, leaf: Json)
    requires FullMarket in config && path != [] && path[0] != StagingPilot && path[0] != DeliveryExpectation
    requires path[0] == FullMarket ==>
      (Leads(config[FullMarket], path[1..], leaf) <==> Leads(Obj(governance), path[1..], leaf))
    ensures Leads(Obj(config), path, leaf) <==>
              Leads(Obj(config[DeliveryExpectation := expectation][FullMarket := Obj(governance)] - {StagingPilot}), path, leaf)
  {
    HeadDecides(config, config[DeliveryExpectation := expectation][FullMarket := Obj(governance)] - {StagingPilot}, path, leaf);
  }

  lemma HeadDecides(a: Mapping, b: Mapping, path: seq<Key>, leaf: Json)
    requires path != [] && (path[0] in a <==> path[0] in b)
    requires path[0] in a ==> (Leads(a[path[0]], path[1..], leaf) <==> Leads(b[path[0]], path[1..], leaf))
    ensures Leads(Obj(a), path, leaf) <==> Leads(Obj(b), path, leaf)
  {
  }

  lemma RequiredLeaf(governance: Mapping, path: seq<Key>, leaf: Json)
    requires !([Required] <= path) && !leaf.Obj?
    ensures Leads(Obj(governance), path, leaf) <==> Leads(Obj(governance[Required := Bool(true)]), path, leaf)
  {
    if path != [] {
      assert path[0] != Required;
    }
  }

  /** An expectation that differs from a settled one only in the source overrides is settled too: the seed has none. */
  lemma OverridesAreTheOperators(seed: Mapping, value: Mapping, changed: Mapping)
    requires SeedOk(seed) && MergedExpectation(TwEquityEod, seed, Obj(value)) == Obj(value)
    requires changed - {SourceOverrides} == value - {SourceOverrides}
    ensures MergedExpectation(TwEquityEod, seed, Obj(changed)) == Obj(changed)
  {
    var defaults := seed[DeliveryExpectation];
    var before := MergedExpectation(TwEquityEod, seed, Obj(value)).m;
    var after := MergedExpectation(TwEquityEod, seed, Obj(changed)).m;
    MergedKeys(seed, value);
    MergedKeys(seed, changed);
    forall key | key in changed ensures after[key] == changed[key] {
      if key != SourceOverrides {
        assert key in changed - {SourceOverrides} && changed[key] == value[key];
        assert after[key] == before[key];
      }
    }
    assert after.Keys == changed.Keys by {
      assert value.Keys == (value - {SourceOverrides}).Keys + value.Keys * {SourceOverrides};
    }
  }

  lemma MergedKeys(seed: Mapping, value: Mapping)
    requires SeedOk(seed)
    ensures MergedExpectation(TwEquityEod, seed, Obj(value)).Obj?
    ensures MergedExpectation(TwEquityEod, seed, Obj(value)).m.Keys == seed[DeliveryExpectation].m.Keys + value.Keys
  {
  }

  lemma FinlabKeepsSettled(seed: Mapping, config: Mapping)
    requires SeedOk(seed) && FinlabRefusal(config).None? && Settled(TwEquityEod, seed, config)
    requires Get(config, DeliveryExpectation) != Null
    ensures Settled(TwEquityEod, seed, FinlabConfig(config))
  {
    NullIsNoPilot();
    SettledIff(TwEquityEod, seed, config);
    if IsPilot(config) {
      var value := config[DeliveryExpectation].m;
      assert KeySettled(TwEquityEod, seed, DeliveryExpectation, config[DeliveryExpectation]);
      OverridesAreTheOperators(seed, value, WithoutOverride(value));
      UpdateKeepsSettled(TwEquityEod, seed, config, DeliveryExpectation, Obj(WithoutOverride(value)));
    }
  }

  /** The pilot override is gone from the result, which is not rewritten again. */
  lemma FinlabRemovesThePilot(config: Mapping)
    requires FinlabRefusal(config).None?
    ensures !IsPilot(FinlabConfig(config))
    ensures FinlabRefusal(FinlabConfig(config)).None?
    ensures FinlabConfig(FinlabConfig(config)) == FinlabConfig(config)
    ensures FinlabReport(config).resulting != ExactPilot
  {
    NullIsNoPilot();
    if IsPilot(config) {
      assert OverrideOf(FinlabConfig(config)) == Null;
    }
  }

  /** Removing the override keeps every other leaf of the configuration and adds none. */
  lemma FinlabTouchesOnlyTheOverride(config: Mapping, path: seq<Key>, leaf: Json)
    requires FinlabRefusal(config).None? && Get(config, DeliveryExpectation).Obj? && !leaf.Obj?
    requires !([DeliveryExpectation, SourceOverrides, Finlab] <= path)
    ensures Leads(Obj(config), path, leaf) <==> Leads(Obj(FinlabConfig(config)), path, leaf)
  {
    NullIsNoPilot();
    if IsPilot(config) && path != [] && path[0] == DeliveryExpectation {
      var expectation := config[DeliveryExpectation].m;
      assert FinlabConfig(config)[DeliveryExpectation] == Obj(WithoutOverride(expectation));
      ExpectationLeaves(expectation, path[1..], leaf);
    }
  }

  lemma ExpectationLeaves(expectation: Mapping, path: seq<Key>, leaf: Json)
    requires SourceOverrides in expectation && expectation[SourceOverrides].Obj? && !leaf.Obj?
    requires !([SourceOverrides, Finlab] <= path)
    ensures Leads(Obj(expectation), path, leaf) <==> Leads(Obj(WithoutOverride(expectation)), path, leaf)
  {
    if path != [] && path[0] == SourceOverrides {
      var overrides := expectation[SourceOverrides].m;
      var rest := overrides - {Finlab};
      assert Leads(Obj(overrides), path[1..], leaf) <==> Leads(Obj(rest), path[1..], leaf) by {
        if path[1..] != [] {
          assert path[1..][0] == path[1];
        }
      }
      if rest == map[] {
        assert !Leads(Obj(rest), path[1..], leaf);
      }
    }
  }

  // ----- The whole dataset -----

  /** The one stored value that is not left alone: an explicit null for the expectation of the rewritten dataset. */
  predicate NullExpectation(dataset: Dataset, stored: Json) {
    dataset.TwEquityEod? && stored.Obj? && DeliveryExpectation in stored.m && stored.m[DeliveryExpectation] == Null
  }

  lemma MergedIsSettled(seed: Mapping, dataset: Dataset, stored: Json)
    requires SeedOk(seed)
    ensures Settled(dataset, seed, Merged(seed, dataset, stored))
    ensures NullExpectation(dataset, stored) ==> Get(Merged(seed, dataset, stored), DeliveryExpectation) == Null
    ensures dataset.TwEquityEod? && Get(Merged(seed, dataset, stored), DeliveryExpectation) == Null ==>
      NullExpectation(dataset, stored)
  {
    if stored.Obj? {
      MergeSettles(dataset, seed, stored.m);
    } else {
      SeedSettles(dataset, seed);
    }
  }

  /** The result of a reconciliation merges to itself. */
  lemma FinalIsSettled(seeds: Seeds, policy: Policy, dataset: Dataset, stored: Json)
    requires SeedUsable(seeds, dataset) && Reconciles(seeds, policy, dataset, stored)
    requires !NullExpectation(dataset, stored)
    ensures Settled(dataset, seeds(dataset), Final(seeds, policy, dataset, stored))
  {
    var seed := seeds(dataset);
    var merged := Merged(seed, dataset, stored);
    MergedIsSettled(seed, dataset, stored);
    if dataset.TwFuturesEod? {
      TaifexKeepsSettled(seed, merged);
    } else if dataset.TwEquityEod? {
      FinlabKeepsSettled(seed, merged);
    }
  }

  lemma RewriteIsIdempotent(seeds: Seeds, dataset: Dataset, config: Mapping)
    requires SeedUsable(seeds, dataset) && Refusal(seeds, dataset, config).None?
    ensures Refusal(seeds, dataset, Rewritten(seeds, dataset, config)).None?
    ensures Rewritten(seeds, dataset, Rewritten(seeds, dataset, config)) == Rewritten(seeds, dataset, config)
  {
    if dataset.TwFuturesEod? {
      TaifexIsIdempotent(seeds(dataset), config);
    } else if dataset.TwEquityEod? {
      FinlabRemovesThePilot(config);
    }
  }

  /** Reconciling a result again, where the policy accepts it, gives it back unchanged, unless the stored expectation
      was an explicit null. */
  lemma FinalIsAFixedPointIff(seeds: Seeds, policy: Policy, dataset: Dataset, stored: Json)
    requires SeedUsable(seeds, dataset) && Reconciles(seeds, policy, dataset, stored)
    ensures var final := Final(seeds, policy, dataset, stored);
            !NullExpectation(dataset, stored) ==>
              (Reconciles(seeds, policy, dataset, Obj(final)) <==> PolicyOk(policy, final))
              && (PolicyOk(policy, final) ==> Final(seeds, policy, dataset, Obj(final)) == final)
    ensures var final := Final(seeds, policy, dataset, stored);
            NullExpectation(dataset, stored) && Reconciles(seeds, policy, dataset, Obj(final)) ==>
              !Same(Obj(Final(seeds, policy, dataset, Obj(final))), Obj(final))
  {
    var seed := seeds(dataset);
    var final := Final(seeds, policy, dataset, stored);
    if NullExpectation(dataset, stored) {
      NullIsReplacedTwice(seeds, policy, dataset, stored);
    } else {
      FinalIsSettled(seeds, policy, dataset, stored);
      RewriteIsIdempotent(seeds, dataset, Merged(seed, dataset, stored));
      assert Merged(seed, dataset, Obj(final)) == final;
    }
  }

  /** Where the policy refuses null, reconciling a result again gives it back exactly if the policy accepts it. */
  lemma FinalIsAFixedPoint(seeds: Seeds, policy: Policy, dataset: Dataset, stored: Json)
    requires SeedUsable(seeds, dataset) && Reconciles(seeds, policy, dataset, stored) && RefusesNull(policy)
    ensures var final := Final(seeds, policy, dataset, stored);
            (Reconciles(seeds, policy, dataset, Obj(final)) <==> PolicyOk(policy, final))
            && (PolicyOk(policy, final) ==> Final(seeds, policy, dataset, Obj(final)) == final)
  {
    MergedIsSettled(seeds(dataset), dataset, stored);
    FinalIsAFixedPointIff(seeds, policy, dataset, stored);
  }

  /** A null expectation becomes the empty one, which the next run fills with the seed's. */
  lemma NullIsReplacedTwice(seeds: Seeds, policy: Policy, dataset: Dataset, stored: Json)
    requires SeedUsable(seeds, dataset) && Reconciles(seeds, policy, dataset, stored) && NullExpectation(dataset, stored)
    ensures var final := Final(seeds, policy, dataset, stored);
            Reconciles(seeds, policy, dataset, Obj(final)) ==>
              !Same(Obj(Final(seeds, policy, dataset, Obj(final))), Obj(final))
  {
    var seed := seeds(dataset);
    MergedIsSettled(seed, dataset, stored);
    var final := Final(seeds, policy, dataset, stored);
    assert final[DeliveryExpectation] == Obj(map[]);
    if Reconciles(seeds, policy, dataset, Obj(final)) {
      var again := Final(seeds, policy, dataset, Obj(final));
      EmptyExpectationIsFilled(seed, final);
      FieldDiffers(again[DeliveryExpectation].m, map[], MissingDelivery);
      FieldDiffers(again, final, DeliveryExpectation);
    }
  }

  lemma EmptyExpectationIsFilled(seed: Mapping, config: Mapping)
    requires SeedOk(seed) && DeliveryExpectation in config && config[DeliveryExpectation] == Obj(map[])
    ensures var merged := MergedConfig(TwEquityEod, seed, config);
            FinlabRefusal(merged).None? && DeliveryExpectation in FinlabConfig(merged)
            && FinlabConfig(merged)[DeliveryExpectation].Obj?
            && MissingDelivery in FinlabConfig(merged)[DeliveryExpectation].m
  {
    NullIsNoPilot();
    var merged := MergedConfig(TwEquityEod, seed, config);
    assert merged[DeliveryExpectation].m == seed[DeliveryExpectation].m;
    assert OverrideOf(merged) == Null;
  }

  // ----- No rewrite undoes a change -----

  /** A rewritten configuration differs from the stored one: what the source notes as changed before the rewrites is
      still changed after them. */
  lemma RewritesNeverRestore(seeds: Seeds, policy: Policy, dataset: Dataset, stored: Json)
    requires SeedUsable(seeds, dataset) && Reconciles(seeds, policy, dataset, stored)
    ensures Final(seeds, policy, dataset, stored) != Merged(seeds(dataset), dataset, stored) ==>
      !Same(Obj(Final(seeds, policy, dataset, stored)), stored)
  {
    NullIsNoPilot();
    if stored.Obj? && dataset.TwFuturesEod? {
      TaifexNeverRestores(seeds(dataset), stored.m);
    } else if stored.Obj? && dataset.TwEquityEod? {
      FinlabNeverRestores(seeds(dataset), stored.m);
    }
  }

  lemma TaifexNeverRestores(seed: Mapping, stored: Mapping)
    requires SeedOk(seed) && HasSections(seed[DeliveryExpectation].m)
    requires TaifexRefusal(seed, MergedConfig(TwFuturesEod, seed, stored)).None?
    ensures var merged := MergedConfig(TwFuturesEod, seed, stored);
            TaifexConfig(seed, merged) != merged ==> !Same(Obj(TaifexConfig(seed, merged)), Obj(stored))
  {
    NullIsNoPilot();
    var merged := MergedConfig(TwFuturesEod, seed, stored);
    if TaifexMarked(merged) {
      assert StagingPilot in merged;
      FieldDiffers(stored, TaifexConfig(seed, merged), StagingPilot);
    }
  }

  lemma FinlabNeverRestores(seed: Mapping, stored: Mapping)
    requires SeedOk(seed) && FinlabRefusal(MergedConfig(TwEquityEod, seed, stored)).None?
    ensures var merged := MergedConfig(TwEquityEod, seed, stored);
            FinlabConfig(merged) != merged ==> !Same(Obj(FinlabConfig(merged)), Obj(stored))
  {
    NullIsNoPilot();
    var merged := MergedConfig(TwEquityEod, seed, stored);
    var final := FinlabConfig(merged);
    if final != merged {
      if DeliveryExpectation in stored {
        MergedOverrides(seed, stored);
        if stored[DeliveryExpectation].Obj? {
          PilotStaysRemoved(merged[DeliveryExpectation].m, stored[DeliveryExpectation].m);
        }
      } else {
        assert merged[DeliveryExpectation] == seed[DeliveryExpectation];
      }
      FieldDiffers(final, stored, DeliveryExpectation);
    }
  }

  /** The overrides of a merge are the operator's. */
  lemma MergedOverrides(seed: Mapping, stored: Mapping)
    requires SeedOk(seed) && DeliveryExpectation in stored
    ensures DeliveryExpectation in MergedConfig(TwEquityEod, seed, stored)
    ensures MergedConfig(TwEquityEod, seed, stored)[DeliveryExpectation].Obj? <==> stored[DeliveryExpectation].Obj?
    ensures !stored[DeliveryExpectation].Obj? ==>
      MergedConfig(TwEquityEod, seed, stored)[DeliveryExpectation] == stored[DeliveryExpectation]
    ensures stored[DeliveryExpectation].Obj? ==>
      Get(MergedConfig(TwEquityEod, seed, stored)[DeliveryExpectation].m, SourceOverrides)
        == Get(stored[DeliveryExpectation].m, SourceOverrides)
  {
  }

  /** The override that the rewrite sees in the merge is the stored one. */
  lemma OverrideIsTheStoredOne(seed: Mapping, stored: Json)
    requires SeedOk(seed)
    ensures OverrideOf(Merged(seed, TwEquityEod, stored)) == OverrideOf(StoredMapping(stored))
  {
    if stored.Obj? && DeliveryExpectation in stored.m {
      MergedOverrides(seed, stored.m);
    }
  }

  lemma PilotStaysRemoved(merged: Mapping, stored: Mapping)
    requires Get(merged, SourceOverrides) == Get(stored, SourceOverrides)
    requires SourceOverrides in merged && merged[SourceOverrides].Obj? && Finlab in merged[SourceOverrides].m
    ensures !Same(Obj(WithoutOverride(merged)), Obj(stored))
  {
    var rest := WithoutOverride(merged);
    if SourceOverrides in rest {
      FieldDiffers(stored[SourceOverrides].m, rest[SourceOverrides].m, Finlab);
    }
    FieldDiffers(stored, rest, SourceOverrides);
  }
}
