/** Applying seed declarations to a stored dataset configuration while operator policy survives. */
module ConfigMerge {
  import opened Results
  import opened JsonValues

  datatype Dataset =
    | UsEquityEod | TwEquityEod | TwEquityMinute | TwEtfMinute | HkEquityEod | TwEtfEod | TwFuturesEod
    | OtherDataset(name: string)

  predicate IsLegacy(key: Key) {
    || key.SourceFormat? || key.FieldMapping? || key.DataPath? || key.SymbolField?
    || key.NameField? || key.SourceField? || key.IdentifierField? || key.IdentifierType?
  }

  predicate IsContract(key: Key) {
    || key.SchemaId? || key.AcceptedSchemaVersions? || key.CurrentSchemaVersion?
    || key.SchemaEnforcement? || key.AllowedSources? || key.Defaults?
  }

  /** The one operator value that a repeat of the seed replaces. */
  const HISTORICAL_DISABLED: Json := Obj(map[Action := Str("disabled"), ExpectedSources := Arr([])])

  // ----- Specification -----

  /** Overrides win, and objects merge with objects at every depth. */
  function Merge(defaults: Json, overrides: Json): Json
    decreases overrides
  {
    if defaults.Obj? && overrides.Obj?
    then Obj(map key | key in defaults.m.Keys + overrides.m.Keys ::
               if key !in overrides.m then defaults.m[key]
               else if key !in defaults.m then overrides.m[key]
               else Merge(defaults.m[key], overrides.m[key]))
    else overrides
  }

  function MappingOf(seed: Mapping, key: Key): Mapping
    requires key in seed ==> seed[key].Obj?
  {
    if key in seed then seed[key].m else map[]
  }

  /** What the merge demands of the seed: objects where it merges objects, a missing-delivery policy to fall back
      to, and none of the retired keys. */
  predicate SeedOk(seed: Mapping) {
    && DeliveryExpectation in seed && seed[DeliveryExpectation].Obj? && MissingDelivery in seed[DeliveryExpectation].m
    && SourceOverrides !in seed[DeliveryExpectation].m
    && (Governance in seed ==> seed[Governance].Obj? && UniverseSymbolLimit !in seed[Governance].m)
    && StagingPilot !in seed
    && (forall key :: key in seed ==> !IsLegacy(key))
  }

  predicate IsHistorical(dataset: Dataset, missing: Json) {
    dataset.TwEquityEod? && Same(missing, HISTORICAL_DISABLED)
  }

  function MergedExpectation(dataset: Dataset, seed: Mapping, value: Json): Json
    requires SeedOk(seed) && value.Obj?
  {
    var merged := Merge(seed[DeliveryExpectation], value);
    if MissingDelivery !in value.m then merged
    else
      var missing := value.m[MissingDelivery];
      Obj(merged.m[MissingDelivery := if IsHistorical(dataset, missing) then seed[DeliveryExpectation].m[MissingDelivery]
                                      else missing])
  }

  function MergedGovernance(seed: Mapping, value: Json): Json
    requires SeedOk(seed) && value.Obj?
  {
    Merge(Obj(MappingOf(seed, Governance)), Obj(value.m - {UniverseSymbolLimit}))
  }

  function MergedValue(dataset: Dataset, seed: Mapping, key: Key, value: Json): Json
    requires SeedOk(seed)
  {
    if key.Governance? && value.Obj? then MergedGovernance(seed, value)
    else if key.DeliveryExpectation? && value.Obj? then MergedExpectation(dataset, seed, value)
    else value
  }

  predicate Retained(key: Key) { !IsLegacy(key) && !IsContract(key) }

  function MergedConfig(dataset: Dataset, seed: Mapping, existing: Mapping): Mapping
    requires SeedOk(seed)
  {
    map key | key in seed.Keys + existing.Keys && (key in seed || Retained(key)) ::
      if key in existing && Retained(key) then MergedValue(dataset, seed, key, existing[key]) else seed[key]
  }

  // ----- The loops -----

  /** Part of the work of a loop that assigns target values key by key. */
  ghost predicate Partly(result: Mapping, start: Mapping, target: Mapping, done: set<Key>) {
    && done <= target.Keys
    && result.Keys == start.Keys + done
    && forall key :: key in result ==> result[key] == (if key in done then target[key] else start[key])
  }

  lemma PartlyStep(result: Mapping, start: Mapping, target: Mapping, done: set<Key>, key: Key)
    requires Partly(result, start, target, done) && key in target
    ensures Partly(result[key := target[key]], start, target, done + {key})
  {
  }

  lemma PartlyDone(result: Mapping, start: Mapping, target: Mapping, done: set<Key>)
    requires Partly(result, start, target, done) && start.Keys + done == target.Keys
    requires forall key :: key in start && key !in done ==> start[key] == target[key]
    ensures result == target
  {
  }

  /** Overrides are taken in any order: every key is assigned once. */
  method MergeMapping(defaults: Mapping, overrides: Mapping) returns (result: Mapping)
    ensures Obj(result) == Merge(Obj(defaults), Obj(overrides))
    decreases Obj(overrides), 1
  {
    result := defaults;
    ghost var target := Merge(Obj(defaults), Obj(overrides)).m;
    ghost var done: set<Key> := {};
    var remaining := overrides.Keys;
    while remaining != {}
      invariant done + remaining == overrides.Keys && Partly(result, defaults, target, done)
      decreases remaining
    {
      var key :| key in remaining;
      var value := MergeField(defaults, overrides, key);
      PartlyStep(result, defaults, target, done, key);
      result, remaining, done := result[key := value], remaining - {key}, done + {key};
    }
    PartlyDone(result, defaults, target, done);
  }

  method MergeField(defaults: Mapping, overrides: Mapping, key: Key) returns (value: Json)
    requires key in overrides
    ensures value == Merge(Obj(defaults), Obj(overrides)).m[key]
    decreases Obj(overrides), 0
  {
    value := overrides[key];
    assert Obj(overrides).m[key] == value;
    if key in defaults && defaults[key].Obj? && value.Obj? {
      var merged := MergeMapping(defaults[key].m, value.m);
      value := Obj(merged);
    }
  }

  method MergeOperatorConfig(dataset: Dataset, seed: Mapping, existing: Option<Mapping>) returns (merged: Mapping)
    requires SeedOk(seed)
    ensures merged == if existing.None? then seed else MergedConfig(dataset, seed, existing.value)
  {
    if existing.None? {
      return seed;
    }
    merged := MergeStored(dataset, seed, existing.value, MergedConfig(dataset, seed, existing.value));
  }

  method MergeStored(dataset: Dataset, seed: Mapping, existing: Mapping, ghost target: Mapping) returns (merged: Mapping)
    requires SeedOk(seed)
    requires target.Keys == seed.Keys + RetainedIn(existing.Keys)
    requires forall key :: key in existing && Retained(key) ==> target[key] == MergedValue(dataset, seed, key, existing[key])
    requires forall key :: key in seed && key !in RetainedIn(existing.Keys) ==> seed[key] == target[key]
    ensures merged == target
  {
    merged := seed;
    ghost var done: set<Key> := {};
    var remaining := existing.Keys;
    while remaining != {}
      invariant done + RetainedIn(remaining) == RetainedIn(existing.Keys) && remaining <= existing.Keys
      invariant Partly(merged, seed, target, done)
      decreases remaining
    {
      var key :| key in remaining;
      remaining := remaining - {key};
      if Retained(key) {
        var value := MergeOne(dataset, seed, key, existing[key]);
        PartlyStep(merged, seed, target, done, key);
        merged, done := merged[key := value], done + {key};
      }
    }
    PartlyDone(merged, seed, target, done);
  }

  ghost function RetainedIn(keys: set<Key>): set<Key> {
    set key | key in keys && Retained(key)
  }

  /** One retained key: governance without its retired limit, the delivery expectation, or the value as it is. */
  method MergeOne(dataset: Dataset, seed: Mapping, key: Key, value: Json) returns (merged: Json)
    requires SeedOk(seed)
    ensures merged == MergedValue(dataset, seed, key, value)
  {
    if key == Governance && value.Obj? {
      var governance := value.m - {UniverseSymbolLimit};
      var result := MergeMapping(if key in seed then seed[key].m else map[], governance);
      return Obj(result);
    }
    if key == DeliveryExpectation && value.Obj? {
      var result := MergeMapping(seed[key].m, value.m);
      if MissingDelivery in value.m {
        if dataset != TwEquityEod || !Same(value.m[MissingDelivery], HISTORICAL_DISABLED) {
          result := result[MissingDelivery := value.m[MissingDelivery]];
        } else {
          result := result[MissingDelivery := seed[key].m[MissingDelivery]];
        }
      }
      return Obj(result);
    }
    merged := value;
  }

  // ----- Merging -----

  lemma {:induction false} MergeSelf(j: Json)
    ensures Merge(j, j) == j
    decreases j
  {
    if j.Obj? {
      forall key | key in j.m ensures Merge(j.m[key], j.m[key]) == j.m[key] {
        MergeSelf(j.m[key]);
      }
      assert Merge(j, j).m == j.m;
    }
  }

  /** Merging again changes nothing. */
  lemma {:induction false} MergeIsIdempotent(defaults: Json, overrides: Json)
    ensures Merge(defaults, Merge(defaults, overrides)) == Merge(defaults, overrides)
    decreases overrides
  {
    if defaults.Obj? && overrides.Obj? {
      var once := Merge(defaults, overrides);
      forall key | key in once.m && key in defaults.m ensures Merge(defaults.m[key], once.m[key]) == once.m[key] {
        if key in overrides.m {
          MergeIsIdempotent(defaults.m[key], overrides.m[key]);
        } else {
          MergeSelf(defaults.m[key]);
        }
      }
      assert Merge(defaults, once).m == once.m;
    }
  }

  /** Every leaf of the overrides is found unchanged in the merge. */
  lemma {:induction false} OverrideLeavesSurvive(defaults: Json, overrides: Json, path: seq<Key>, leaf: Json)
    requires Leads(overrides, path, leaf) && !leaf.Obj?
    ensures Leads(Merge(defaults, overrides), path, leaf)
    decreases |path|
  {
    if path != [] {
      var key, rest := path[0], path[1..];
      if defaults.Obj? && key in defaults.m {
        OverrideLeavesSurvive(defaults.m[key], overrides.m[key], rest, leaf);
      }
    }
  }

  /** Every leaf of the merge is one of the overrides or a default on a path that no override leaf blocks. */
  lemma {:induction false} MergedLeavesHaveASource(defaults: Json, overrides: Json, path: seq<Key>, leaf: Json)
    requires Leads(Merge(defaults, overrides), path, leaf) && !leaf.Obj?
    ensures Leads(overrides, path, leaf) || Leads(defaults, path, leaf)
    decreases |path|
  {
    if defaults.Obj? && overrides.Obj? && path != [] {
      var key, rest := path[0], path[1..];
      if key in defaults.m && key in overrides.m {
        MergedLeavesHaveASource(defaults.m[key], overrides.m[key], rest, leaf);
      }
    }
  }

  /** The overrides are objects along the path up to a key that they lack. */
  predicate Silent(overrides: Json, path: seq<Key>) {
    && path != [] && overrides.Obj?
    && (path[0] !in overrides.m || Silent(overrides.m[path[0]], path[1..]))
  }

  /** Every default leaf on which the overrides are silent is found in the merge. */
  lemma {:induction false} DefaultLeavesFillIn(defaults: Json, overrides: Json, path: seq<Key>, leaf: Json)
    requires Leads(defaults, path, leaf) && Silent(overrides, path)
    ensures Leads(Merge(defaults, overrides), path, leaf)
    decreases |path|
  {
    var key, rest := path[0], path[1..];
    if key in overrides.m {
      DefaultLeavesFillIn(defaults.m[key], overrides.m[key], rest, leaf);
    }
  }

  // ----- The configuration -----

  /** The keys whose stored values count for nothing: the declared contract, and the retired provider mapping. */
  const CONTRACT_KEYS: set<Key> :=
    {SchemaId, AcceptedSchemaVersions, CurrentSchemaVersion, SchemaEnforcement, AllowedSources, Defaults}
  const RETIRED_KEYS: set<Key> :=
    {SourceFormat, FieldMapping, DataPath, SymbolField, NameField, SourceField, IdentifierField, IdentifierType}

  /** Who owns a key: the contract is the seed's, whatever was stored, and retired keys never come back; where nothing is
      stored the seed's value stands, and otherwise the operator's, but for the two keys that are merged. */
  lemma KeysHaveOneOwner(dataset: Dataset, seed: Mapping, existing: Mapping, key: Key)
    requires SeedOk(seed)
    ensures var merged := MergedConfig(dataset, seed, existing);
            && (key in RETIRED_KEYS ==> key !in merged)
            && (key in CONTRACT_KEYS || (key !in existing && key !in RETIRED_KEYS) ==>
                 (key in merged <==> key in seed) && (key in seed ==> merged[key] == seed[key]))
            && (key in existing && key !in CONTRACT_KEYS && key !in RETIRED_KEYS ==>
                 key in merged && (key !in {Governance, DeliveryExpectation} || !existing[key].Obj? ==>
                                     merged[key] == existing[key]))
  {
    KeySets(key);
    SeedOwned(dataset, seed, existing, key);
    if key in existing && !IsContract(key) && !IsLegacy(key) {
      OperatorOwned(dataset, seed, existing, key);
    }
  }

  lemma KeySets(key: Key)
    ensures key in CONTRACT_KEYS <==> IsContract(key)
    ensures key in RETIRED_KEYS <==> IsLegacy(key)
    ensures key in {Governance, DeliveryExpectation} <==> key.Governance? || key.DeliveryExpectation?
  {
  }

  lemma SeedOwned(dataset: Dataset, seed: Mapping, existing: Mapping, key: Key)
    requires SeedOk(seed)
    ensures var merged := MergedConfig(dataset, seed, existing);
            && (IsLegacy(key) ==> key !in merged)
            && (IsContract(key) || key !in existing ==>
                 (key in merged <==> key in seed) && (key in seed ==> merged[key] == seed[key]))
  {
  }

  lemma OperatorOwned(dataset: Dataset, seed: Mapping, existing: Mapping, key: Key)
    requires SeedOk(seed) && key in existing && !IsContract(key) && !IsLegacy(key)
    ensures key in MergedConfig(dataset, seed, existing)
    ensures MergedConfig(dataset, seed, existing)[key] == MergedValue(dataset, seed, key, existing[key])
    ensures !(key.Governance? || key.DeliveryExpectation?) || !existing[key].Obj? ==>
      MergedValue(dataset, seed, key, existing[key]) == existing[key]
  {
  }

  /** The three laws of the merge for one leaf. */
  ghost predicate MergedLeaf(defaults: Json, overrides: Json, merged: Json, path: seq<Key>, leaf: Json) {
    && (Leads(overrides, path, leaf) ==> Leads(merged, path, leaf))
    && (Leads(defaults, path, leaf) && Silent(overrides, path) ==> Leads(merged, path, leaf))
    && (Leads(merged, path, leaf) ==> Leads(overrides, path, leaf) || Leads(defaults, path, leaf))
  }

  lemma MergeLeaves(defaults: Json, overrides: Json, path: seq<Key>, leaf: Json)
    requires !leaf.Obj?
    ensures MergedLeaf(defaults, overrides, Merge(defaults, overrides), path, leaf)
  {
    if Leads(overrides, path, leaf) {
      OverrideLeavesSurvive(defaults, overrides, path, leaf);
    }
    if Leads(defaults, path, leaf) && Silent(overrides, path) {
      DefaultLeavesFillIn(defaults, overrides, path, leaf);
    }
    if Leads(Merge(defaults, overrides), path, leaf) {
      MergedLeavesHaveASource(defaults, overrides, path, leaf);
    }
  }

  /** Stored governance: the retired limit is dropped, the rest is merged over the seed's. */
  lemma GovernanceIsMerged(dataset: Dataset, seed: Mapping, existing: Mapping, path: seq<Key>, leaf: Json)
    requires SeedOk(seed) && Governance in existing && existing[Governance].Obj? && !leaf.Obj? && path != []
    ensures Governance in MergedConfig(dataset, seed, existing)
    ensures var merged := MergedConfig(dataset, seed, existing)[Governance];
            && merged.Obj? && UniverseSymbolLimit !in merged.m
            && (path[0] != UniverseSymbolLimit && Leads(existing[Governance], path, leaf) ==> Leads(merged, path, leaf))
            && (Governance in seed && Leads(seed[Governance], path, leaf) && Silent(existing[Governance], path) ==>
                 Leads(merged, path, leaf))
            && (Leads(merged, path, leaf) ==>
                 Leads(existing[Governance], path, leaf) || (Governance in seed && Leads(seed[Governance], path, leaf)))
  {
    var defaults := Obj(MappingOf(seed, Governance));
    var kept := Obj(existing[Governance].m - {UniverseSymbolLimit});
    LimitDropped(existing[Governance].m, path, leaf);
    OperatorOwned(dataset, seed, existing, Governance);
    MergeLeaves(defaults, kept, path, leaf);
    assert UniverseSymbolLimit !in defaults.m && UniverseSymbolLimit !in Merge(defaults, kept).m;
    assert Governance in seed ==> seed[Governance] == defaults;
    assert Governance !in seed ==> !Leads(defaults, path, leaf);
  }

  lemma LimitDropped(governance: Mapping, path: seq<Key>, leaf: Json)
    requires path != []
    ensures var stored, kept := Obj(governance), Obj(governance - {UniverseSymbolLimit});
            && (path[0] != UniverseSymbolLimit ==> (Leads(stored, path, leaf) <==> Leads(kept, path, leaf)))
            && (path[0] == UniverseSymbolLimit ==> !Leads(kept, path, leaf))
            && (Silent(stored, path) ==> Silent(kept, path))
  {
  }

  /** The policy of the one historical row that a repeat of the seed replaces. */
  ghost predicate HistoricalRow(dataset: Dataset, missing: Json) {
    dataset == TwEquityEod && Same(missing, Obj(map[Action := Str("disabled"), ExpectedSources := Arr([])]))
  }

  /** A stored delivery expectation: its missing-delivery policy stands as a whole, unless it is the historical one or
      there is none, then the seed's does; beside it the operator's leaves win and the seed's fill in. */
  lemma ExpectationIsMerged(dataset: Dataset, seed: Mapping, existing: Mapping, path: seq<Key>, leaf: Json)
    requires SeedOk(seed) && DeliveryExpectation in existing && existing[DeliveryExpectation].Obj? && !leaf.Obj?
    requires path != []
    ensures DeliveryExpectation in MergedConfig(dataset, seed, existing)
    ensures var stored, defaults := existing[DeliveryExpectation], seed[DeliveryExpectation];
            var merged := MergedConfig(dataset, seed, existing)[DeliveryExpectation];
            && merged.Obj? && MissingDelivery in merged.m
            && merged.m[MissingDelivery] ==
                 (if MissingDelivery in stored.m && !HistoricalRow(dataset, stored.m[MissingDelivery])
                  then stored.m[MissingDelivery] else defaults.m[MissingDelivery])
            && (path[0] != MissingDelivery ==> MergedLeaf(defaults, stored, merged, path, leaf))
  {
    var stored, defaults := existing[DeliveryExpectation], seed[DeliveryExpectation];
    var merged := MergedConfig(dataset, seed, existing)[DeliveryExpectation];
    assert merged == MergedExpectation(dataset, seed, stored);
    if path[0] != MissingDelivery {
      assert Leads(merged, path, leaf) <==> Leads(Merge(defaults, stored), path, leaf);
      MergeLeaves(defaults, stored, path, leaf);
    }
  }

  /** An operator's leaf under the delivery expectation survives, but for the one historical policy. */
  lemma OperatorLeavesSurvive(dataset: Dataset, seed: Mapping, existing: Mapping, path: seq<Key>, leaf: Json)
    requires SeedOk(seed) && DeliveryExpectation in existing
    requires Leads(existing[DeliveryExpectation], path, leaf) && !leaf.Obj?
    requires path != [] && path[0] == MissingDelivery ==>
               !IsHistorical(dataset, existing[DeliveryExpectation].m[MissingDelivery])
    ensures Leads(MergedConfig(dataset, seed, existing)[DeliveryExpectation], path, leaf)
  {
    if existing[DeliveryExpectation].Obj? {
      OverrideLeavesSurvive(seed[DeliveryExpectation], existing[DeliveryExpectation], path, leaf);
    }
  }

  /** A configuration that seeding again leaves alone. */
  ghost predicate Settled(dataset: Dataset, seed: Mapping, config: Mapping)
    requires SeedOk(seed)
  {
    MergedConfig(dataset, seed, config) == config
  }

  lemma ExpectationSettles(dataset: Dataset, seed: Mapping, value: Json)
    requires SeedOk(seed) && value.Obj?
    ensures MergedExpectation(dataset, seed, value).Obj?
    ensures MergedExpectation(dataset, seed, MergedExpectation(dataset, seed, value))
         == MergedExpectation(dataset, seed, value)
  {
    var defaults := seed[DeliveryExpectation];
    var once := MergedExpectation(dataset, seed, value);
    var twice := MergedExpectation(dataset, seed, once);
    forall key | key in once.m && key != MissingDelivery ensures key in twice.m && twice.m[key] == once.m[key] {
      if key in defaults.m && key in value.m {
        MergeIsIdempotent(defaults.m[key], value.m[key]);
      } else if key in defaults.m {
        MergeSelf(defaults.m[key]);
      }
    }
    assert once.m[MissingDelivery] == twice.m[MissingDelivery] by {
      MergeSelf(defaults.m[MissingDelivery]);
    }
    assert twice.m.Keys == once.m.Keys;
    assert twice.m == once.m;
  }

  lemma GovernanceSettles(seed: Mapping, value: Json)
    requires SeedOk(seed) && value.Obj?
    ensures MergedGovernance(seed, value).Obj?
    ensures MergedGovernance(seed, MergedGovernance(seed, value)) == MergedGovernance(seed, value)
  {
    var once := MergedGovernance(seed, value);
    assert UniverseSymbolLimit !in once.m;
    assert once.m - {UniverseSymbolLimit} == once.m;
    MergeIsIdempotent(Obj(MappingOf(seed, Governance)), Obj(value.m - {UniverseSymbolLimit}));
  }

  lemma ValueSettles(dataset: Dataset, seed: Mapping, key: Key, value: Json)
    requires SeedOk(seed)
    ensures MergedValue(dataset, seed, key, MergedValue(dataset, seed, key, value)) == MergedValue(dataset, seed, key, value)
  {
    if value.Obj? && key.Governance? {
      GovernanceSettles(seed, value);
    } else if value.Obj? && key.DeliveryExpectation? {
      ExpectationSettles(dataset, seed, value);
    }
  }

  /** Seeding is idempotent on every configuration. */
  lemma MergeSettles(dataset: Dataset, seed: Mapping, existing: Mapping)
    requires SeedOk(seed)
    ensures Settled(dataset, seed, MergedConfig(dataset, seed, existing))
  {
    var once := MergedConfig(dataset, seed, existing);
    SeedSettles(dataset, seed);
    forall key | key in once && Retained(key) ensures MergedValue(dataset, seed, key, once[key]) == once[key] {
      if key in existing {
        ValueSettles(dataset, seed, key, existing[key]);
      }
    }
    SettledIff(dataset, seed, once);
  }

  ghost predicate KeySettled(dataset: Dataset, seed: Mapping, key: Key, value: Json)
    requires SeedOk(seed)
  {
    if Retained(key) then MergedValue(dataset, seed, key, value) == value else key in seed && value == seed[key]
  }

  /** Settled, key by key. */
  lemma SettledIff(dataset: Dataset, seed: Mapping, config: Mapping)
    requires SeedOk(seed)
    ensures Settled(dataset, seed, config) <==>
              seed.Keys <= config.Keys && forall key :: key in config ==> KeySettled(dataset, seed, key, config[key])
  {
    var again := MergedConfig(dataset, seed, config);
    if again == config {
      assert seed.Keys <= again.Keys;
    } else {
      assert again.Keys == config.Keys ==> exists key :: key in config && again[key] != config[key];
    }
  }

  lemma UpdateKeepsSettled(dataset: Dataset, seed: Mapping, config: Mapping, key: Key, value: Json)
    requires SeedOk(seed) && Settled(dataset, seed, config) && KeySettled(dataset, seed, key, value)
    ensures Settled(dataset, seed, config[key := value])
  {
    SettledIff(dataset, seed, config);
    SettledIff(dataset, seed, config[key := value]);
  }

  lemma RemovalKeepsSettled(dataset: Dataset, seed: Mapping, config: Mapping, key: Key)
    requires SeedOk(seed) && Settled(dataset, seed, config) && key !in seed
    ensures Settled(dataset, seed, config - {key})
  {
    SettledIff(dataset, seed, config);
    SettledIff(dataset, seed, config - {key});
  }

  /** The seed itself is settled. */
  lemma SeedSettles(dataset: Dataset, seed: Mapping)
    requires SeedOk(seed)
    ensures forall key :: key in seed && Retained(key) ==> MergedValue(dataset, seed, key, seed[key]) == seed[key]
    ensures Settled(dataset, seed, seed)
  {
    var expectation := seed[DeliveryExpectation];
    MergeSelf(expectation);
    assert MergedExpectation(dataset, seed, expectation).m == expectation.m;
    if Governance in seed {
      assert seed[Governance].m - {UniverseSymbolLimit} == seed[Governance].m;
      MergeSelf(seed[Governance]);
    }
    assert MergedConfig(dataset, seed, seed).Keys == seed.Keys;
    assert MergedConfig(dataset, seed, seed) == seed;
  }
}
