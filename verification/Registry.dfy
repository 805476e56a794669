/** Reconciling the stored dataset registry with the seed declarations: the merge, the two rewrites of former pilot
    policies, and a report of what changed.

    The delivery policy model is not part of this model: it comes as a predicate on expectations and a predicate that
    says whether an expectation has a latest-date rule for a source. */
module Registry {
  import opened Results
  import opened JsonValues
  import opened ConfigMerge

  const SUPPORTED: seq<Dataset> :=
    [UsEquityEod, TwEquityEod, TwEquityMinute, TwEtfMinute, HkEquityEod, TwEtfEod, TwFuturesEod]

  /** Every dataset key that the model names is a supported one. */
  predicate IsSupported(dataset: Dataset) { !dataset.OtherDataset? }

  function Rank(dataset: Dataset): nat {
    match dataset
    case UsEquityEod => 0
    case TwEquityEod => 1
    case TwEquityMinute => 2
    case TwEtfMinute => 3
    case HkEquityEod => 4
    case TwEtfEod => 5
    case TwFuturesEod => 6
    case OtherDataset(_) => 7
  }

  lemma SupportedIffListed(dataset: Dataset)
    ensures IsSupported(dataset) <==> dataset in SUPPORTED
    ensures forall n :: 0 <= n < |SUPPORTED| ==> IsSupported(SUPPORTED[n]) && Rank(SUPPORTED[n]) == n
    ensures IsSupported(dataset) <==> Rank(dataset) < |SUPPORTED|
  {
    assert IsSupported(dataset) ==> SUPPORTED[Rank(dataset)] == dataset;
  }

  datatype Target = Staging | Production | OtherTarget(name: string)

  datatype Policy = Policy(accepts: Json -> bool, hasLatestDate: (Json, string) -> bool)

  /** The policy model accepts objects only; that it refuses null is all that is needed. */
  predicate RefusesNull(policy: Policy) { !policy.accepts(Null) }

  datatype Error =
    | UnknownTarget | RowsDiffer | NotAnObject | ExpectationInvalid | LatestDateIncomplete
    | FullMarketMalformed | UnknownPilot | MonitoringChanged | PilotPolicyChanged
    | ExpectationNotAnObject | OverridesNotAnObject

  type Seeds = Dataset -> Mapping

  predicate Known(target: Target) { !target.OtherTarget? }

  /** The futures expectation has the sections that the staging variant adjusts. */
  predicate HasSections(expectation: Mapping) {
    && Get(expectation, Baseline).Obj? && Get(expectation, RecordCount).Obj? && Get(expectation, Schedule).Obj?
  }

  ghost predicate SeedsOk(seeds: Seeds) {
    && (forall dataset :: IsSupported(dataset) ==> SeedOk(seeds(dataset)))
    && HasSections(seeds(TwFuturesEod)[DeliveryExpectation].m)
  }

  // ----- The TAIFEX pilot -----

  const TAIFEX_PILOT_MARKER: Json :=
    Obj(map[Version := Int(1), Provider := Str("taifex"), Instruments := Arr([Str("TX"), Str("MTX")])])

  /** The monitoring policy that the pilot installed, derived from the neutral one. */
  function StageExpectation(neutral: Mapping): Mapping
    requires HasSections(neutral)
  {
    neutral
      [DeliveryMode := Str("incremental")]
      [Baseline := Obj(neutral[Baseline].m[Enabled := Bool(false)])]
      [RecordCount := Obj(neutral[RecordCount].m[MinimumRecordCount := Int(4)][Action := Str("reject")])]
      [Schedule := Obj(neutral[Schedule].m[Enabled := Bool(true)][LocalTime := Str("18:00:00")])]
      [MissingDelivery := Obj(map[
        Action := Str("warn"), ExpectedSources := Arr([Str("taifex")]), DeadlineLocalTime := Str("18:30:00")])]
  }

  predicate FullMarketTyped(governance: Json) {
    governance.Obj? && Get(governance.m, Required).Bool? && Get(governance.m, Enabled).Bool?
  }

  predicate PilotGovernance(governance: Mapping) {
    && Same(Get(governance, Enabled), Bool(false)) && Same(Get(governance, Required), Bool(false))
    && Same(Get(governance, CalendarMarket), Str("TAIFEX"))
  }

  predicate TaifexMarked(config: Mapping) { Same(Get(config, StagingPilot), TAIFEX_PILOT_MARKER) }

  /** Why the rewrite refuses a configuration, if it does. */
  function TaifexRefusal(seed: Mapping, config: Mapping): Option<Error>
    requires SeedOk(seed) && HasSections(seed[DeliveryExpectation].m)
  {
    if !FullMarketTyped(Get(config, FullMarket)) then Some(FullMarketMalformed)
    else if Get(config, StagingPilot) != Null && !TaifexMarked(config) then Some(UnknownPilot)
    else if !TaifexMarked(config) then None
    else if !Same(Get(config, DeliveryExpectation), Obj(StageExpectation(seed[DeliveryExpectation].m)))
    then Some(MonitoringChanged)
    else if !PilotGovernance(config[FullMarket].m) then Some(PilotPolicyChanged)
    else None
  }

  function TaifexConfig(seed: Mapping, config: Mapping): Mapping
    requires SeedOk(seed) && HasSections(seed[DeliveryExpectation].m)
    requires TaifexRefusal(seed, config).None?
  {
    if TaifexMarked(config)
    then config[DeliveryExpectation := seed[DeliveryExpectation]]
               [FullMarket := Obj(config[FullMarket].m[Required := Bool(true)])]
         - {StagingPilot}
    else config
  }

  method ProvisionTaifex(seed: Mapping, config: Mapping, target: Target) returns (result: Result<Mapping, Error>)
    requires SeedOk(seed) && HasSections(seed[DeliveryExpectation].m)
    ensures !Known(target) ==> result == Err(UnknownTarget)
    ensures Known(target) ==>
      result == (var refusal := TaifexRefusal(seed, config);
                 if refusal.Some? then Err(refusal.value) else Ok(TaifexConfig(seed, config)))
  {
    if !Known(target) {
      return Err(UnknownTarget);
    }
    var working := config;
    var governance := Get(working, FullMarket);
    if !governance.Obj? || !Get(governance.m, Required).Bool? || !Get(governance.m, Enabled).Bool? {
      return Err(FullMarketMalformed);
    }
    var marker := Get(working, StagingPilot);
    if marker != Null && !Same(marker, TAIFEX_PILOT_MARKER) {
      return Err(UnknownPilot);
    }
    if Same(marker, TAIFEX_PILOT_MARKER) {
      if !Same(Get(working, DeliveryExpectation), Obj(StageExpectation(seed[DeliveryExpectation].m))) {
        return Err(MonitoringChanged);
      }
      if !PilotGovernance(governance.m) {
        return Err(PilotPolicyChanged);
      }
      working := working[DeliveryExpectation := seed[DeliveryExpectation]];
      working := working[FullMarket := Obj(governance.m[Required := Bool(true)])];
      working := working - {StagingPilot};
    }
    result := Ok(working);
  }

  // ----- The FinLab pilot override -----

  const FINLAB_PILOT_OVERRIDE: Json :=
    Obj(map[Baseline := Obj(map[Enabled := Bool(false)]), RecordCount := Obj(map[MinimumRecordCount := Int(2)])])

  datatype OverrideState = Absent | ExactPilot | Custom

  datatype Threshold = NoThreshold | Threshold(n: int) | InvalidThreshold

  datatype ReportAction = LegacyPilotRemoved | PolicyPreserved | Reconciled(target: Target)

  datatype Report = Report(action: ReportAction, changed: bool, previous: OverrideState, resulting: OverrideState,
                           threshold: Threshold, changedKeys: seq<Dataset>)

  function StateOf(value: Json): OverrideState {
    if value == Null then Absent else if Same(value, FINLAB_PILOT_OVERRIDE) then ExactPilot else Custom
  }

  function BoundedThreshold(value: Json): Threshold {
    match value
    case Null => NoThreshold
    case Int(n) => if 0 <= n <= 10_000_000 then Threshold(n) else InvalidThreshold
    case _ => InvalidThreshold
  }

  /** The override of one source, null where any step on the way is no object or absent. */
  function OverrideOf(config: Mapping): Json {
    var expectation := Get(config, DeliveryExpectation);
    var overrides := if expectation.Obj? then Get(expectation.m, SourceOverrides) else Null;
    if overrides.Obj? then Get(overrides.m, Finlab) else Null
  }

  function StoredMapping(stored: Json): Mapping {
    if stored.Obj? then stored.m else map[]
  }

  function ThresholdOf(config: Mapping): Threshold {
    var expectation := Get(config, DeliveryExpectation);
    var count := if expectation.Obj? then Get(expectation.m, RecordCount) else Null;
    BoundedThreshold(if count.Obj? then Get(count.m, MinimumRecordCount) else Null)
  }

  function FinlabRefusal(config: Mapping): Option<Error> {
    var expectation := Get(config, DeliveryExpectation);
    if expectation == Null then None
    else if !expectation.Obj? then Some(ExpectationNotAnObject)
    else
      var overrides := Get(expectation.m, SourceOverrides);
      if overrides == Null || overrides.Obj? then None else Some(OverridesNotAnObject)
  }

  predicate IsPilot(config: Mapping) { StateOf(OverrideOf(config)).ExactPilot? }

  /** An expectation without the FinLab override, and without the override section if nothing else is in it. */
  function WithoutOverride(expectation: Mapping): Mapping
    requires SourceOverrides in expectation && expectation[SourceOverrides].Obj?
  {
    var rest := expectation[SourceOverrides].m - {Finlab};
    if rest == map[] then expectation - {SourceOverrides} else expectation[SourceOverrides := Obj(rest)]
  }

  function FinlabConfig(config: Mapping): Mapping
    requires FinlabRefusal(config).None?
  {
    var expectation := Get(config, DeliveryExpectation);
    if expectation == Null then config[DeliveryExpectation := Obj(map[])]
    else if IsPilot(config) then config[DeliveryExpectation := Obj(WithoutOverride(expectation.m))]
    else config
  }

  function FinlabReport(config: Mapping): Report
    requires FinlabRefusal(config).None?
  {
    var result := FinlabConfig(config);
    Report(if IsPilot(config) then LegacyPilotRemoved else PolicyPreserved, IsPilot(config),
           StateOf(OverrideOf(config)), StateOf(OverrideOf(result)), ThresholdOf(result), [])
  }

  method ProvisionFinlab(config: Json, target: Target) returns (result: Result<(Mapping, Report), Error>)
    ensures !Known(target) ==> result == Err(UnknownTarget)
    ensures Known(target) && config != Null && !config.Obj? ==> result == Err(NotAnObject)
    ensures Known(target) && (config == Null || config.Obj?) ==>
      var given := if config.Obj? then config.m else map[];
      result == (var refusal := FinlabRefusal(given);
                 if refusal.Some? then Err(refusal.value) else Ok((FinlabConfig(given), FinlabReport(given))))
  {
    if !Known(target) {
      return Err(UnknownTarget);
    }
    var working: Mapping := map[];
    if config.Obj? {
      working := config.m;
    } else if config != Null {
      return Err(NotAnObject);
    }
    ghost var given := working;
    var expectation: Mapping := map[];
    var value := Get(working, DeliveryExpectation);
    if value == Null {
      working := working[DeliveryExpectation := Obj(expectation)];
    } else if value.Obj? {
      expectation := value.m;
    } else {
      return Err(ExpectationNotAnObject);
    }
    var overrides: Mapping := map[];
    var overridesValue := Get(expectation, SourceOverrides);
    if overridesValue.Obj? {
      overrides := overridesValue.m;
    } else if overridesValue != Null {
      return Err(OverridesNotAnObject);
    }
    var previous := Get(overrides, Finlab);
    NullIsNoPilot();
    var removed := Same(previous, FINLAB_PILOT_OVERRIDE);
    if removed {
      overrides := overrides - {Finlab};
      if overrides != map[] {
        expectation := expectation[SourceOverrides := Obj(overrides)];
      } else {
        expectation := expectation - {SourceOverrides};
      }
      working := working[DeliveryExpectation := Obj(expectation)];
    }
    assert working == FinlabConfig(given);
    var report := Report(if removed then LegacyPilotRemoved else PolicyPreserved, removed, StateOf(previous),
                         StateOf(OverrideOf(working)), ThresholdOf(working), []);
    result := Ok((working, report));
  }

  lemma NullIsNoPilot()
    ensures !Same(Null, FINLAB_PILOT_OVERRIDE) && !Same(Null, TAIFEX_PILOT_MARKER)
  {
  }

  // ----- One dataset -----

  /** The configuration that the seed and a stored value merge to. */
  function Merged(seed: Mapping, dataset: Dataset, stored: Json): Mapping
    requires SeedOk(seed)
  {
    if stored.Obj? then MergedConfig(dataset, seed, stored.m) else seed
  }

  predicate SourcesOk(policy: Policy, config: Mapping) {
    var sources := Get(config, AllowedSources);
    && sources.Arr?
    && forall i :: 0 <= i < |sources.items| ==>
         sources.items[i].Str? && policy.hasLatestDate(Get(config, DeliveryExpectation), sources.items[i].s)
  }

  predicate PolicyOk(policy: Policy, config: Mapping) {
    policy.accepts(Get(config, DeliveryExpectation)) && SourcesOk(policy, config)
  }

  predicate Storable(stored: Json) { stored == Null || stored.Obj? }

  function Refusal(seeds: Seeds, dataset: Dataset, config: Mapping): Option<Error>
    requires SeedOk(seeds(dataset))
    requires dataset.TwFuturesEod? ==> HasSections(seeds(dataset)[DeliveryExpectation].m)
  {
    if dataset.TwFuturesEod? then TaifexRefusal(seeds(dataset), config)
    else if dataset.TwEquityEod? then FinlabRefusal(config)
    else None
  }

  /** The rewrites belong to one dataset each. */
  function Rewritten(seeds: Seeds, dataset: Dataset, config: Mapping): Mapping
    requires SeedOk(seeds(dataset))
    requires dataset.TwFuturesEod? ==> HasSections(seeds(dataset)[DeliveryExpectation].m)
    requires Refusal(seeds, dataset, config).None?
  {
    if dataset.TwFuturesEod? then TaifexConfig(seeds(dataset), config)
    else if dataset.TwEquityEod? then FinlabConfig(config)
    else config
  }

  predicate SeedUsable(seeds: Seeds, dataset: Dataset) {
    SeedOk(seeds(dataset)) && (dataset.TwFuturesEod? ==> HasSections(seeds(dataset)[DeliveryExpectation].m))
  }

  /** A dataset whose stored value reconciles. */
  predicate Reconciles(seeds: Seeds, policy: Policy, dataset: Dataset, stored: Json)
    requires SeedUsable(seeds, dataset)
  {
    && Storable(stored)
    && PolicyOk(policy, Merged(seeds(dataset), dataset, stored))
    && Refusal(seeds, dataset, Merged(seeds(dataset), dataset, stored)).None?
  }

  function Final(seeds: Seeds, policy: Policy, dataset: Dataset, stored: Json): Mapping
    requires SeedUsable(seeds, dataset) && Reconciles(seeds, policy, dataset, stored)
  {
    Rewritten(seeds, dataset, Merged(seeds(dataset), dataset, stored))
  }
}
