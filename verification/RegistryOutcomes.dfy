/** What a provisioning run does to each dataset, said of the stored value, the merge and the result alone. */
module RegistryOutcomes {
  import opened Results
  import opened JsonValues
  import opened ConfigMerge
  import opened Registry
  import opened RegistryTheory
  import opened RegistryRun

  // ----- Equality -----

  /** The number that a value is in arithmetic, if it is one. */
  function Number(j: Json): Option<real> {
    match j
    case Bool(b) => Some(if b then 1.0 else 0.0)
    case Int(n) => Some(n as real)
    case Float(r) => Some(r)
    case _ => None
  }

  /** Python's equality: numbers and truth values by their number, lists item by item, objects key by key, and nothing
      else across kinds. */
  lemma SameIs(a: Json, b: Json)
    ensures Same(a, b) <==>
      || (a == Null && b == Null)
      || (Number(a).Some? && Number(a) == Number(b))
      || (a.Str? && b.Str? && a.s == b.s)
      || (a.Arr? && b.Arr? && |a.items| == |b.items| && forall i :: 0 <= i < |a.items| ==> Same(a.items[i], b.items[i]))
      || (a.Obj? && b.Obj? && a.m.Keys == b.m.Keys && forall key :: key in a.m ==> Same(a.m[key], b.m[key]))
  {
    if a.Arr? && b.Arr? {
      SameItems(a.items, b.items);
    }
    if a.Obj? && b.Obj? {
      SameFields(a.m, b.m);
    }
  }

  lemma SameItems(a: seq<Json>, b: seq<Json>)
    ensures Same(Arr(a), Arr(b)) <==> |a| == |b| && forall i :: 0 <= i < |a| ==> Same(a[i], b[i])
  {
    var x, y := Canonical(Arr(a)).items, Canonical(Arr(b)).items;
    assert forall i :: 0 <= i < |a| ==> x[i] == Canonical(a[i]);
    assert forall i :: 0 <= i < |b| ==> y[i] == Canonical(b[i]);
  }

  lemma SameFields(a: Mapping, b: Mapping)
    ensures Same(Obj(a), Obj(b)) <==> a.Keys == b.Keys && forall key :: key in a ==> Same(a[key], b[key])
  {
    var x, y := Canonical(Obj(a)).m, Canonical(Obj(b)).m;
    assert x.Keys == a.Keys && y.Keys == b.Keys;
    assert forall key :: key in a ==> x[key] == Canonical(a[key]);
    assert forall key :: key in b ==> y[key] == Canonical(b[key]);
    if a.Keys == b.Keys && forall key :: key in a ==> Same(a[key], b[key]) {
      assert x == y;
    }
  }

  // ----- The futures dataset -----

  /** The marker that the TAIFEX pilot left. */
  ghost predicate PilotMarker(j: Json) {
    Same(j, Obj(map[Version := Int(1), Provider := Str("taifex"), Instruments := Arr([Str("TX"), Str("MTX")])]))
  }

  /** The expectation that the pilot installed: the seed's but for these leaves, and its own missing-delivery policy. */
  ghost predicate StageOf(neutral: Mapping, stage: Mapping) {
    && stage.Keys == neutral.Keys + {DeliveryMode, Baseline, RecordCount, Schedule, MissingDelivery}
    && (forall key :: key in neutral && key !in {DeliveryMode, Baseline, RecordCount, Schedule, MissingDelivery} ==>
         stage[key] == neutral[key])
    && stage[DeliveryMode] == Str("incremental")
    && Leads(Obj(stage), [Baseline, Enabled], Bool(false))
    && Leads(Obj(stage), [RecordCount, MinimumRecordCount], Int(4))
    && Leads(Obj(stage), [RecordCount, Action], Str("reject"))
    && Leads(Obj(stage), [Schedule, Enabled], Bool(true))
    && Leads(Obj(stage), [Schedule, LocalTime], Str("18:00:00"))
    && SameBut(Get(neutral, Baseline), stage[Baseline], {Enabled})
    && SameBut(Get(neutral, RecordCount), stage[RecordCount], {MinimumRecordCount, Action})
    && SameBut(Get(neutral, Schedule), stage[Schedule], {Enabled, LocalTime})
    && stage[MissingDelivery] == Obj(map[
         Action := Str("warn"), ExpectedSources := Arr([Str("taifex")]), DeadlineLocalTime := Str("18:30:00")])
  }

  /** Two objects that agree outside the keys. */
  ghost predicate SameBut(a: Json, b: Json, keys: set<Key>) {
    && a.Obj? && b.Obj? && b.m.Keys == a.m.Keys + keys
    && forall key :: key in a.m && key !in keys ==> b.m[key] == a.m[key]
  }

  lemma StageExpectationIs(neutral: Mapping)
    requires HasSections(neutral)
    ensures StageOf(neutral, StageExpectation(neutral))
  {
    var stage := StageExpectation(neutral);
    TwoSteps(Obj(stage), Baseline, Enabled, Bool(false));
    TwoSteps(Obj(stage), RecordCount, MinimumRecordCount, Int(4));
    TwoSteps(Obj(stage), RecordCount, Action, Str("reject"));
    TwoSteps(Obj(stage), Schedule, Enabled, Bool(true));
    TwoSteps(Obj(stage), Schedule, LocalTime, Str("18:00:00"));
  }

  // ----- Short paths -----

  lemma OneStep(j: Json, a: Key, value: Json)
    ensures Leads(j, [a], value) <==> j.Obj? && a in j.m && j.m[a] == value
  {
    assert [a][1..] == [];
    if j.Obj? && a in j.m {
      assert Leads(j.m[a], [], value) <==> j.m[a] == value;
    }
  }

  lemma TwoSteps(j: Json, a: Key, b: Key, value: Json)
    ensures Leads(j, [a, b], value) <==> j.Obj? && a in j.m && j.m[a].Obj? && b in j.m[a].m && j.m[a].m[b] == value
  {
    assert [a, b][1..] == [b];
    if j.Obj? && a in j.m {
      OneStep(j.m[a], b, value);
    }
  }

  lemma ThreeSteps(j: Json, a: Key, b: Key, c: Key, value: Json)
    ensures Leads(j, [a, b, c], value) <==>
      && j.Obj? && a in j.m && j.m[a].Obj? && b in j.m[a].m && j.m[a].m[b].Obj? && c in j.m[a].m[b].m
      && j.m[a].m[b].m[c] == value
  {
    assert [a, b, c][1..] == [b, c];
    if j.Obj? && a in j.m {
      TwoSteps(j.m[a], b, c, value);
    }
  }

  ghost predicate FlagIs(governance: Json, key: Key, value: bool) {
    governance.Obj? && key in governance.m && governance.m[key] == Bool(value)
  }

  ghost predicate Unmarked(config: Mapping) {
    StagingPilot !in config || config[StagingPilot] == Null
  }

  /** What a pilot row has to be for the rewrite: as the pilot left it. */
  ghost predicate UntouchedPilot(neutral: Mapping, config: Mapping) {
    && StagingPilot in config && PilotMarker(config[StagingPilot])
    && (exists stage :: StageOf(neutral, stage) && Same(Get(config, DeliveryExpectation), Obj(stage)))
    && FullMarket in config && FlagIs(config[FullMarket], Enabled, false) && FlagIs(config[FullMarket], Required, false)
    && CalendarMarket in config[FullMarket].m && config[FullMarket].m[CalendarMarket] == Str("TAIFEX")
  }

  ghost predicate BothFlags(config: Mapping) {
    && FullMarket in config
    && (FlagIs(config[FullMarket], Required, true) || FlagIs(config[FullMarket], Required, false))
    && (FlagIs(config[FullMarket], Enabled, true) || FlagIs(config[FullMarket], Enabled, false))
  }

  lemma FieldAgrees(a: Json, b: Json, c: Json, keys: set<Key>)
    requires SameBut(a, b, keys) && SameBut(a, c, keys) && forall key :: key in keys ==> b.m[key] == c.m[key]
    ensures b == c
  {
    assert b.m == c.m;
  }

  lemma StageIsUnique(neutral: Mapping, stage: Mapping)
    requires HasSections(neutral) && StageOf(neutral, stage)
    ensures stage == StageExpectation(neutral)
  {
    var other := StageExpectation(neutral);
    StageExpectationIs(neutral);
    TwoSteps(Obj(stage), Baseline, Enabled, Bool(false));
    TwoSteps(Obj(stage), RecordCount, MinimumRecordCount, Int(4));
    TwoSteps(Obj(stage), RecordCount, Action, Str("reject"));
    TwoSteps(Obj(stage), Schedule, Enabled, Bool(true));
    TwoSteps(Obj(stage), Schedule, LocalTime, Str("18:00:00"));
    FieldAgrees(neutral[Baseline], stage[Baseline], other[Baseline], {Enabled});
    FieldAgrees(neutral[RecordCount], stage[RecordCount], other[RecordCount], {MinimumRecordCount, Action});
    FieldAgrees(neutral[Schedule], stage[Schedule], other[Schedule], {Enabled, LocalTime});
    assert forall key :: key in stage ==> stage[key] == other[key];
  }

  /** When the rewrite of the futures dataset goes through: both flags are there, and the row carries no marker or is
      exactly what the pilot left. */
  lemma TaifexAcceptsIff(seed: Mapping, config: Mapping)
    requires SeedOk(seed) && HasSections(seed[DeliveryExpectation].m)
    ensures TaifexRefusal(seed, config).None? <==>
      BothFlags(config) && (Unmarked(config) || UntouchedPilot(seed[DeliveryExpectation].m, config))
  {
    var neutral := seed[DeliveryExpectation].m;
    FlagsAre(config);
    MarkerIs(config);
    if BothFlags(config) {
      PilotAcceptedIff(neutral, config);
    }
  }

  lemma PilotAcceptedIff(neutral: Mapping, config: Mapping)
    requires HasSections(neutral) && BothFlags(config)
    ensures UntouchedPilot(neutral, config) <==>
      TaifexMarked(config) && Same(Get(config, DeliveryExpectation), Obj(StageExpectation(neutral)))
      && PilotGovernance(config[FullMarket].m)
  {
    MarkerIs(config);
    StageMatches(neutral, Get(config, DeliveryExpectation));
    GovernanceIs(config[FullMarket].m);
  }

  lemma StageMatches(neutral: Mapping, value: Json)
    requires HasSections(neutral)
    ensures (exists stage :: StageOf(neutral, stage) && Same(value, Obj(stage))) <==>
      Same(value, Obj(StageExpectation(neutral)))
  {
    StageExpectationIs(neutral);
    if stage :| StageOf(neutral, stage) && Same(value, Obj(stage)) {
      StageIsUnique(neutral, stage);
    }
  }

  lemma MarkerIs(config: Mapping)
    ensures TaifexMarked(config) <==> StagingPilot in config && PilotMarker(config[StagingPilot])
    ensures TaifexMarked(config) ==> !Unmarked(config)
  {
    NullIsNoPilot();
  }

  lemma FlagsAre(config: Mapping)
    ensures FullMarketTyped(Get(config, FullMarket)) <==> BothFlags(config)
  {
  }

  lemma GovernanceIs(governance: Mapping)
    ensures Same(Get(governance, CalendarMarket), Str("TAIFEX")) <==>
      CalendarMarket in governance && governance[CalendarMarket] == Str("TAIFEX")
    ensures Enabled in governance && governance[Enabled].Bool? ==>
      (Same(Get(governance, Enabled), Bool(false)) <==> governance[Enabled] == Bool(false))
    ensures Required in governance && governance[Required].Bool? ==>
      (Same(Get(governance, Required), Bool(false)) <==> governance[Required] == Bool(false))
  {
  }

  /** The pilot's row after the rewrite: no marker, the seed's expectation, the full market required and still not
      enabled, everything else as it was. */
  ghost predicate PilotReplaced(seed: Mapping, before: Mapping, after: Mapping) {
    && after.Keys == before.Keys - {StagingPilot}
    && FullMarket in before && FullMarket in after && DeliveryExpectation in after && DeliveryExpectation in seed
    && after[DeliveryExpectation] == seed[DeliveryExpectation]
    && FlagIs(after[FullMarket], Required, true) && FlagIs(after[FullMarket], Enabled, false)
    && SameBut(before[FullMarket], after[FullMarket], {Required})
    && forall key :: key in after && key != DeliveryExpectation && key != FullMarket ==> after[key] == before[key]
  }

  /** What a run leaves for the futures dataset. */
  lemma FuturesOutcome(seeds: Seeds, policy: Policy, rows: Rows)
    requires SeedsOk(seeds) && AllReconcile(seeds, policy, rows)
    ensures IsSupported(TwFuturesEod) && TwFuturesEod in FinalConfigs(seeds, policy, rows)
    ensures var merge := Merged(seeds(TwFuturesEod), TwFuturesEod, rows[TwFuturesEod]);
            var final := FinalConfigs(seeds, policy, rows)[TwFuturesEod];
            && Unmarked(final)
            && (Unmarked(merge) ==> final == merge)
            && (!Unmarked(merge) ==> PilotReplaced(seeds(TwFuturesEod), merge, final))
  {
    assert IsSupported(TwFuturesEod);
    var seed := seeds(TwFuturesEod);
    var merge := Merged(seed, TwFuturesEod, rows[TwFuturesEod]);
    assert Reconciles(seeds, policy, TwFuturesEod, rows[TwFuturesEod]);
    TaifexOutcome(seed, merge);
  }

  lemma TaifexOutcome(seed: Mapping, config: Mapping)
    requires SeedOk(seed) && HasSections(seed[DeliveryExpectation].m) && TaifexRefusal(seed, config).None?
    ensures var after := TaifexConfig(seed, config);
            && Unmarked(after) && (Unmarked(config) ==> after == config)
            && (!Unmarked(config) ==> PilotReplaced(seed, config, after))
  {
    TaifexAcceptsIff(seed, config);
    MarkerIs(config);
    if TaifexMarked(config) {
      PilotIsReplaced(seed, config);
    }
  }

  lemma PilotIsReplaced(seed: Mapping, config: Mapping)
    requires SeedOk(seed) && HasSections(seed[DeliveryExpectation].m) && TaifexRefusal(seed, config).None?
    requires TaifexMarked(config) && StagingPilot in config
    ensures Unmarked(TaifexConfig(seed, config)) && PilotReplaced(seed, config, TaifexConfig(seed, config))
  {
    FlagsAre(config);
    GovernanceIs(config[FullMarket].m);
    Rewriting(config, seed[DeliveryExpectation], config[FullMarket].m);
    assert DeliveryExpectation in seed;
  }

  /** The three assignments of the rewrite, key by key. */
  lemma Rewriting(config: Mapping, expectation: Json, governance: Mapping)
    requires FullMarket in config && StagingPilot in config && DeliveryExpectation in config
    ensures var after := config[DeliveryExpectation := expectation]
                               [FullMarket := Obj(governance[Required := Bool(true)])] - {StagingPilot};
            && after.Keys == config.Keys - {StagingPilot} && FullMarket in after && DeliveryExpectation in after
            && after[DeliveryExpectation] == expectation
            && after[FullMarket] == Obj(governance[Required := Bool(true)])
            && forall key :: key in after && key != DeliveryExpectation && key != FullMarket ==> after[key] == config[key]
  {
  }

  // ----- The equity dataset -----

  /** The override that the FinLab pilot left. */
  ghost predicate FinlabPilot(j: Json) {
    Same(j, Obj(map[Baseline := Obj(map[Enabled := Bool(false)]), RecordCount := Obj(map[MinimumRecordCount := Int(2)])]))
  }

  /** The value under the FinLab source override. */
  ghost predicate HasOverride(config: Mapping, value: Json) {
    Leads(Obj(config), [DeliveryExpectation, SourceOverrides, Finlab], value)
  }

  ghost predicate HasPilot(config: Mapping) {
    exists value :: HasOverride(config, value) && FinlabPilot(value)
  }

  lemma OverrideIs(config: Mapping, value: Json)
    ensures HasOverride(config, value) && value != Null ==> OverrideOf(config) == value
    ensures OverrideOf(config) != Null ==> HasOverride(config, OverrideOf(config))
  {
    ThreeSteps(Obj(config), DeliveryExpectation, SourceOverrides, Finlab, value);
    ThreeSteps(Obj(config), DeliveryExpectation, SourceOverrides, Finlab, OverrideOf(config));
  }

  lemma PilotIs(config: Mapping)
    ensures IsPilot(config) <==> HasPilot(config)
  {
    NullIsNoPilot();
    OverrideIs(config, OverrideOf(config));
    if value :| HasOverride(config, value) && FinlabPilot(value) {
      OverrideIs(config, value);
    }
  }

  /** The override is gone, with its section if that held nothing else; everything else is as it was. */
  ghost predicate OverrideRemoved(before: Mapping, after: Mapping) {
    && DeliveryExpectation in before && DeliveryExpectation in after && after.Keys == before.Keys
    && (forall key :: key in after && key != DeliveryExpectation ==> after[key] == before[key])
    && before[DeliveryExpectation].Obj? && after[DeliveryExpectation].Obj?
    && SectionShrunk(before[DeliveryExpectation].m, after[DeliveryExpectation].m)
  }

  ghost predicate SectionShrunk(before: Mapping, after: Mapping) {
    && (forall key :: key in before && key != SourceOverrides ==> key in after && after[key] == before[key])
    && (forall key :: key in after ==> key in before)
    && SourceOverrides in before && before[SourceOverrides].Obj?
    && var overrides := before[SourceOverrides].m;
       && Finlab in overrides
       && (SourceOverrides in after <==> exists key :: key in overrides && key != Finlab)
       && (SourceOverrides in after ==> after[SourceOverrides] == Obj(overrides - {Finlab}))
  }

  /** What a run leaves for the equity dataset. */
  lemma EquityOutcome(seeds: Seeds, policy: Policy, rows: Rows)
    requires SeedsOk(seeds) && AllReconcile(seeds, policy, rows)
    ensures IsSupported(TwEquityEod) && TwEquityEod in FinalConfigs(seeds, policy, rows)
    ensures var merge := Merged(seeds(TwEquityEod), TwEquityEod, rows[TwEquityEod]);
            var final := FinalConfigs(seeds, policy, rows)[TwEquityEod];
            && !HasPilot(final)
            && (HasPilot(merge) ==> OverrideRemoved(merge, final))
            && (!HasPilot(merge) && RefusesNull(policy) ==> final == merge)
  {
    assert IsSupported(TwEquityEod);
    var merge := Merged(seeds(TwEquityEod), TwEquityEod, rows[TwEquityEod]);
    assert Reconciles(seeds, policy, TwEquityEod, rows[TwEquityEod]);
    FinlabOutcome(merge);
  }

  lemma FinlabOutcome(config: Mapping)
    requires FinlabRefusal(config).None?
    ensures var after := FinlabConfig(config);
            && !HasPilot(after)
            && (HasPilot(config) ==> OverrideRemoved(config, after))
            && (!HasPilot(config) && Get(config, DeliveryExpectation) != Null ==> after == config)
  {
    FinlabRemovesThePilot(config);
    PilotIs(config);
    PilotIs(FinlabConfig(config));
    if IsPilot(config) {
      NullIsNoPilot();
      RestOfOverrides(config[DeliveryExpectation].m);
      OverrideIsRemoved(config);
    }
  }

  lemma OverrideIsRemoved(config: Mapping)
    requires FinlabRefusal(config).None? && IsPilot(config) && Get(config, DeliveryExpectation).Obj?
    requires SourceOverrides in config[DeliveryExpectation].m && config[DeliveryExpectation].m[SourceOverrides].Obj?
    requires SectionShrunk(config[DeliveryExpectation].m, WithoutOverride(config[DeliveryExpectation].m))
    ensures OverrideRemoved(config, FinlabConfig(config))
  {
    assert FinlabConfig(config)[DeliveryExpectation] == Obj(WithoutOverride(config[DeliveryExpectation].m));
  }

  lemma RestOfOverrides(expectation: Mapping)
    requires SourceOverrides in expectation && expectation[SourceOverrides].Obj? && Finlab in expectation[SourceOverrides].m
    ensures SectionShrunk(expectation, WithoutOverride(expectation))
  {
    var overrides := expectation[SourceOverrides].m;
    var rest := overrides - {Finlab};
    if rest == map[] {
      assert forall key :: key in overrides && key != Finlab ==> key in rest;
    } else {
      var key :| key in rest;
      assert key in overrides && key != Finlab;
    }
  }

  /** Every other dataset gets its merge. */
  lemma OtherOutcome(seeds: Seeds, policy: Policy, rows: Rows, dataset: Dataset)
    requires SeedsOk(seeds) && AllReconcile(seeds, policy, rows)
    requires IsSupported(dataset) && dataset != TwFuturesEod && dataset != TwEquityEod
    ensures dataset in FinalConfigs(seeds, policy, rows)
    ensures FinalConfigs(seeds, policy, rows)[dataset] == Merged(seeds(dataset), dataset, rows[dataset])
  {
    assert Reconciles(seeds, policy, dataset, rows[dataset]);
  }

  // ----- When a run succeeds -----

  ghost predicate DatedSource(policy: Policy, config: Mapping, item: Json) {
    exists source :: item == Str(source) && policy.hasLatestDate(Get(config, DeliveryExpectation), source)
  }

  /** A list of texts, each a source for which the expectation has a latest-date rule. */
  ghost predicate SourcesHaveDates(policy: Policy, config: Mapping) {
    && AllowedSources in config && config[AllowedSources].Arr?
    && forall i :: 0 <= i < |config[AllowedSources].items| ==> DatedSource(policy, config, config[AllowedSources].items[i])
  }

  /** The delivery expectation and its overrides are objects where they are given. */
  ghost predicate OverridesReadable(config: Mapping) {
    && (Get(config, DeliveryExpectation) == Null || Get(config, DeliveryExpectation).Obj?)
    && forall value :: Leads(Obj(config), [DeliveryExpectation, SourceOverrides], value) ==> value == Null || value.Obj?
  }

  /** A stored value reconciles if and only if it is an object or null, its merge meets the delivery policy, and the merge
      is one that the dataset's own rewrite understands. */
  lemma ReconcilesIff(seeds: Seeds, policy: Policy, dataset: Dataset, stored: Json)
    requires SeedUsable(seeds, dataset)
    ensures Reconciles(seeds, policy, dataset, stored) <==>
      var merge := Merged(seeds(dataset), dataset, stored);
      && (stored == Null || stored.Obj?)
      && policy.accepts(Get(merge, DeliveryExpectation)) && SourcesHaveDates(policy, merge)
      && (dataset == TwFuturesEod ==>
           BothFlags(merge) && (Unmarked(merge) || UntouchedPilot(seeds(dataset)[DeliveryExpectation].m, merge)))
      && (dataset == TwEquityEod ==> OverridesReadable(merge))
  {
    var merge := Merged(seeds(dataset), dataset, stored);
    SourcesAre(policy, merge);
    if dataset == TwFuturesEod {
      TaifexAcceptsIff(seeds(dataset), merge);
    }
    OverridesAre(merge);
  }

  lemma SourcesAre(policy: Policy, config: Mapping)
    ensures SourcesOk(policy, config) <==> SourcesHaveDates(policy, config)
  {
    var sources := Get(config, AllowedSources);
    if sources.Arr? {
      forall i | 0 <= i < |sources.items|
        ensures DatedSource(policy, config, sources.items[i]) <==>
          sources.items[i].Str? && policy.hasLatestDate(Get(config, DeliveryExpectation), sources.items[i].s)
      {
        if sources.items[i].Str? {
          assert sources.items[i] == Str(sources.items[i].s);
        }
      }
    }
  }

  lemma OverridesAre(config: Mapping)
    ensures FinlabRefusal(config).None? <==> OverridesReadable(config)
  {
    forall value ensures Leads(Obj(config), [DeliveryExpectation, SourceOverrides], value) <==>
      && DeliveryExpectation in config && config[DeliveryExpectation].Obj?
      && SourceOverrides in config[DeliveryExpectation].m && config[DeliveryExpectation].m[SourceOverrides] == value
    {
      TwoSteps(Obj(config), DeliveryExpectation, SourceOverrides, value);
    }
    OverridesRefused(config);
  }

  lemma OverridesRefused(config: Mapping)
    ensures FinlabRefusal(config).None? <==>
      && (Get(config, DeliveryExpectation) == Null || Get(config, DeliveryExpectation).Obj?)
      && (Get(config, DeliveryExpectation).Obj? ==>
           Get(config[DeliveryExpectation].m, SourceOverrides) == Null
           || Get(config[DeliveryExpectation].m, SourceOverrides).Obj?)
  {
  }

  // ----- The report -----

  ghost predicate NoOverride(config: Mapping) {
    forall value :: HasOverride(config, value) ==> value == Null
  }

  lemma StateIs(config: Mapping)
    ensures StateOf(OverrideOf(config)) == Absent <==> NoOverride(config)
    ensures StateOf(OverrideOf(config)) == ExactPilot <==> HasPilot(config)
  {
    PilotIs(config);
    OverrideIs(config, OverrideOf(config));
    forall value | HasOverride(config, value) && value != Null ensures OverrideOf(config) == value {
      OverrideIs(config, value);
    }
  }

  ghost predicate HasThreshold(config: Mapping, value: Json) {
    Leads(Obj(config), [DeliveryExpectation, RecordCount, MinimumRecordCount], value)
  }

  lemma ThresholdIs(config: Mapping)
    ensures ThresholdOf(config) == NoThreshold <==> forall value :: HasThreshold(config, value) ==> value == Null
    ensures forall n :: ThresholdOf(config) == Threshold(n) <==> HasThreshold(config, Int(n)) && 0 <= n <= 10_000_000
  {
    forall value ensures HasThreshold(config, value) <==>
      && DeliveryExpectation in config && config[DeliveryExpectation].Obj?
      && RecordCount in config[DeliveryExpectation].m && config[DeliveryExpectation].m[RecordCount].Obj?
      && MinimumRecordCount in config[DeliveryExpectation].m[RecordCount].m
      && config[DeliveryExpectation].m[RecordCount].m[MinimumRecordCount] == value
    {
      ThreeSteps(Obj(config), DeliveryExpectation, RecordCount, MinimumRecordCount, value);
    }
    if ThresholdOf(config) != NoThreshold {
      assert HasThreshold(config, config[DeliveryExpectation].m[RecordCount].m[MinimumRecordCount]);
    }
  }

  /** What the rewrite of the equity dataset reports by itself. */
  lemma FinlabReportIs(config: Mapping)
    requires FinlabRefusal(config).None?
    ensures var report, after := FinlabReport(config), FinlabConfig(config);
            && report.action == (if HasPilot(config) then LegacyPilotRemoved else PolicyPreserved)
            && (report.changed <==> HasPilot(config)) && report.changedKeys == []
            && (report.previous == ExactPilot <==> HasPilot(config)) && (report.previous == Absent <==> NoOverride(config))
            && report.resulting == (if NoOverride(after) then Absent else Custom)
            && forall n :: report.threshold == Threshold(n) <==> HasThreshold(after, Int(n)) && 0 <= n <= 10_000_000
  {
    PilotIs(config);
    StateIs(config);
    StateIs(FinlabConfig(config));
    FinlabRemovesThePilot(config);
    PilotIs(FinlabConfig(config));
    ThresholdIs(FinlabConfig(config));
  }

  /** What a report says, read off the stored value and the result: the datasets that changed, the override before and
      after, and the threshold that is in force. */
  lemma ReportInPlainTerms(existing: Rows, target: Target, final: map<Dataset, Mapping>, report: Report)
    requires final.Keys <= existing.Keys && ReportExact(existing, target, final, report)
    ensures forall dataset :: dataset in report.changedKeys <==>
      dataset in final && !Same(Obj(final[dataset]), existing[dataset])
    ensures forall i, j :: 0 <= i < j < |report.changedKeys| ==> report.changedKeys[i] != report.changedKeys[j]
    ensures report.changed <==> report.changedKeys != []
    ensures report.action == if report.changedKeys != [] then Reconciled(target) else PolicyPreserved
    ensures TwEquityEod in existing && TwEquityEod in final
    ensures var stored := if existing[TwEquityEod].Obj? then existing[TwEquityEod].m else map[];
            && (report.previous == ExactPilot <==> HasPilot(stored))
            && (report.previous == Absent <==> NoOverride(stored))
    ensures report.resulting == (if NoOverride(final[TwEquityEod]) then Absent else Custom)
    ensures forall n :: report.threshold == Threshold(n) <==>
      HasThreshold(final[TwEquityEod], Int(n)) && 0 <= n <= 10_000_000
    ensures report.threshold == NoThreshold <==> forall value :: HasThreshold(final[TwEquityEod], value) ==> value == Null
  {
    var stored: Mapping := if existing[TwEquityEod].Obj? then existing[TwEquityEod].m else map[];
    StateIs(stored);
    StateIs(final[TwEquityEod]);
    ThresholdIs(final[TwEquityEod]);
    assert StoredMapping(existing[TwEquityEod]) == stored;
  }

  /** The table after a run: a supported row that differed holds its new configuration, every other row is untouched. */
  lemma StoredAfterRun(seeds: Seeds, policy: Policy, rows: Rows)
    requires SeedsOk(seeds) && AllReconcile(seeds, policy, rows)
    ensures var final := FinalConfigs(seeds, policy, rows);
            var after := Written(rows, final);
            && after.Keys == rows.Keys && (forall dataset :: dataset in final <==> dataset in rows && IsSupported(dataset))
            && (forall dataset :: dataset in rows && !IsSupported(dataset) ==> after[dataset] == rows[dataset])
            && (forall dataset :: dataset in rows && IsSupported(dataset) ==>
                 && Same(after[dataset], Obj(final[dataset]))
                 && (Same(rows[dataset], Obj(final[dataset])) ==> after[dataset] == rows[dataset])
                 && (after[dataset] == rows[dataset] || after[dataset] == Obj(final[dataset])))
  {
  }

  /** Nothing stored, or null: the merge is the seed. */
  lemma MergeOfNothing(seed: Mapping, dataset: Dataset)
    requires SeedOk(seed)
    ensures Merged(seed, dataset, Null) == seed && Merged(seed, dataset, Obj(map[])) == seed
  {
    SeedSettles(dataset, seed);
    assert Merged(seed, dataset, Obj(map[])).Keys == seed.Keys;
  }
}
