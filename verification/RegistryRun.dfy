/** One provisioning transaction over the stored registry, its report, and running it again. */
module RegistryRun {
  import opened SequenceFacts
  import opened Results
  import opened JsonValues
  import opened ConfigMerge
  import opened Registry
  import opened RegistryTheory

  type Rows = map<Dataset, Json>

  /** Exactly the supported datasets are stored. */
  ghost predicate RowsOk(existing: Rows) {
    forall dataset :: dataset in existing <==> IsSupported(dataset)
  }

  ghost predicate AllReconcile(seeds: Seeds, policy: Policy, existing: Rows)
    requires SeedsOk(seeds)
  {
    forall dataset :: IsSupported(dataset) ==>
      dataset in existing && Reconciles(seeds, policy, dataset, existing[dataset])
  }

  // ----- Noting changes -----

  /** The listed datasets are exactly those whose configuration differs from the stored one, each listed once. */
  ghost predicate Noted(changed: seq<Dataset>, configs: map<Dataset, Mapping>, stored: Rows)
    requires configs.Keys <= stored.Keys
  {
    && Distinct(changed)
    && forall dataset :: dataset in changed <==> dataset in configs && !Same(Obj(configs[dataset]), stored[dataset])
  }

  function Note(changed: seq<Dataset>, dataset: Dataset, config: Mapping, stored: Json): seq<Dataset> {
    if !Same(Obj(config), stored) && dataset !in changed then changed + [dataset] else changed
  }

  /** Noting a configuration: a new one, or one that replaces an earlier one and never restores what was stored. */
  lemma NoteKeepsNoted(changed: seq<Dataset>, configs: map<Dataset, Mapping>, stored: Rows, dataset: Dataset, config: Mapping)
    requires configs.Keys <= stored.Keys && dataset in stored && Noted(changed, configs, stored)
    requires dataset in configs && config != configs[dataset] ==> !Same(Obj(config), stored[dataset])
    ensures Noted(Note(changed, dataset, config, stored[dataset]), configs[dataset := config], stored)
  {
  }

  // ----- The reconciliation -----

  ghost predicate IsMerge(seeds: Seeds, policy: Policy, dataset: Dataset, stored: Json, merged: Mapping)
    requires SeedUsable(seeds, dataset)
  {
    merged == Merged(seeds(dataset), dataset, stored) && Storable(stored) && PolicyOk(policy, merged)
  }

  /** The configurations of all supported datasets after the merge. */
  ghost predicate AllMerged(seeds: Seeds, policy: Policy, existing: Rows, merged: map<Dataset, Mapping>)
    requires SeedsOk(seeds)
  {
    && merged.Keys == existing.Keys
    && forall dataset :: IsSupported(dataset) ==>
         dataset in merged && IsMerge(seeds, policy, dataset, existing[dataset], merged[dataset])
  }

  ghost predicate MergedSoFar(seeds: Seeds, policy: Policy, existing: Rows, n: nat, merged: map<Dataset, Mapping>)
    requires SeedsOk(seeds) && RowsOk(existing)
  {
    && (forall dataset :: dataset in merged <==> IsSupported(dataset) && Rank(dataset) < n)
    && forall dataset :: dataset in merged ==> IsMerge(seeds, policy, dataset, existing[dataset], merged[dataset])
  }

  method MergeAll(seeds: Seeds, policy: Policy, existing: Rows)
    returns (result: Result<(map<Dataset, Mapping>, seq<Dataset>), Error>)
    requires SeedsOk(seeds) && RowsOk(existing)
    ensures result.Ok? ==>
      AllMerged(seeds, policy, existing, result.value.0) && Noted(result.value.1, result.value.0, existing)
    ensures result.Err? ==> !AllReconcile(seeds, policy, existing)
  {
    var reconciled: map<Dataset, Mapping> := map[];
    var changed: seq<Dataset> := [];
    for n := 0 to |SUPPORTED|
      invariant MergedSoFar(seeds, policy, existing, n, reconciled)
      invariant Noted(changed, reconciled, existing)
    {
      var dataset := SUPPORTED[n];
      SupportedIffListed(dataset);
      var merged := MergeRow(seeds, policy, dataset, existing[dataset]);
      if merged.Err? {
        return Err(merged.error);
      }
      MergeStep(seeds, policy, existing, n, reconciled, dataset, merged.value);
      NoteKeepsNoted(changed, reconciled, existing, dataset, merged.value);
      reconciled := reconciled[dataset := merged.value];
      changed := Note(changed, dataset, merged.value, existing[dataset]);
    }
    RanksAreBounded();
    result := Ok((reconciled, changed));
  }

  method MergeRow(seeds: Seeds, policy: Policy, dataset: Dataset, stored: Json) returns (result: Result<Mapping, Error>)
    requires SeedUsable(seeds, dataset)
    ensures result.Ok? ==> IsMerge(seeds, policy, dataset, stored, result.value)
    ensures result.Err? ==> !Reconciles(seeds, policy, dataset, stored)
  {
    if !Storable(stored) {
      return Err(NotAnObject);
    }
    var merged := MergeOperatorConfig(dataset, seeds(dataset), if stored.Obj? then Some(stored.m) else None);
    if !policy.accepts(Get(merged, DeliveryExpectation)) {
      return Err(ExpectationInvalid);
    }
    if !SourcesOk(policy, merged) {
      return Err(LatestDateIncomplete);
    }
    result := Ok(merged);
  }

  lemma RanksAreBounded()
    ensures forall dataset :: IsSupported(dataset) ==> Rank(dataset) < |SUPPORTED|
  {
  }

  lemma RankIsInjective(a: Dataset, b: Dataset)
    requires IsSupported(a) && IsSupported(b)
    ensures Rank(a) == Rank(b) <==> a == b
  {
  }

  lemma MergeStep(seeds: Seeds, policy: Policy, existing: Rows, n: nat, reconciled: map<Dataset, Mapping>,
                  dataset: Dataset, merged: Mapping)
    requires SeedsOk(seeds) && RowsOk(existing) && IsSupported(dataset) && Rank(dataset) == n
    requires MergedSoFar(seeds, policy, existing, n, reconciled)
    requires IsMerge(seeds, policy, dataset, existing[dataset], merged)
    ensures MergedSoFar(seeds, policy, existing, n + 1, reconciled[dataset := merged])
  {
    forall other | IsSupported(other) ensures Rank(other) == n <==> other == dataset {
      RankIsInjective(other, dataset);
    }
  }

  /** What the report says of the pilot override and the global threshold: the state before, and the state and the
      threshold after. */
  ghost predicate PilotReported(existing: Rows, final: map<Dataset, Mapping>, report: Report) {
    && TwEquityEod in existing && TwEquityEod in final
    && report.previous == StateOf(OverrideOf(StoredMapping(existing[TwEquityEod])))
    && report.resulting == StateOf(OverrideOf(final[TwEquityEod]))
    && report.threshold == ThresholdOf(final[TwEquityEod])
  }

  /** The report of a run: the changed datasets exactly, the override states and the threshold, and no pilot override
      left. */
  ghost predicate ReportExact(existing: Rows, target: Target, final: map<Dataset, Mapping>, report: Report)
    requires final.Keys <= existing.Keys
  {
    && Noted(report.changedKeys, final, existing)
    && (report.changed <==> report.changedKeys != [])
    && report.action == (if report.changed then Reconciled(target) else PolicyPreserved)
    && PilotReported(existing, final, report)
    && report.resulting != ExactPilot
  }

  /** The final configurations of all supported datasets. */
  ghost function FinalConfigs(seeds: Seeds, policy: Policy, rows: Rows): map<Dataset, Mapping>
    requires SeedsOk(seeds) && AllReconcile(seeds, policy, rows)
  {
    map dataset | dataset in rows && IsSupported(dataset) :: Final(seeds, policy, dataset, rows[dataset])
  }

  method Reconcile(seeds: Seeds, policy: Policy, existing: Rows, target: Target)
    returns (result: Result<(map<Dataset, Mapping>, Report), Error>)
    requires SeedsOk(seeds)
    ensures result.Ok? <==> Known(target) && RowsOk(existing) && AllReconcile(seeds, policy, existing)
    ensures result.Ok? ==> result.value.0 == FinalConfigs(seeds, policy, existing)
    ensures result.Ok? ==> ReportExact(existing, target, result.value.0, result.value.1)
  {
    if !Known(target) {
      return Err(UnknownTarget);
    }
    forall dataset ensures IsSupported(dataset) <==> dataset in SUPPORTED {
      SupportedIffListed(dataset);
    }
    if existing.Keys != set dataset | dataset in SUPPORTED {
      return Err(RowsDiffer);
    }
    var merged := MergeAll(seeds, policy, existing);
    if merged.Err? {
      return Err(merged.error);
    }
    result := Rewrite(seeds, policy, existing, target, merged.value.0, merged.value.1);
  }

  method Rewrite(seeds: Seeds, policy: Policy, existing: Rows, target: Target, merged: map<Dataset, Mapping>,
                 noted: seq<Dataset>)
    returns (result: Result<(map<Dataset, Mapping>, Report), Error>)
    requires SeedsOk(seeds) && RowsOk(existing) && Known(target)
    requires AllMerged(seeds, policy, existing, merged) && Noted(noted, merged, existing)
    ensures result.Ok? <==> AllReconcile(seeds, policy, existing)
    ensures result.Ok? ==> result.value.0 == FinalConfigs(seeds, policy, existing)
    ensures result.Ok? ==> ReportExact(existing, target, result.value.0, result.value.1)
  {
    assert IsSupported(TwFuturesEod) && IsSupported(TwEquityEod);
    AllReconcileIff(seeds, policy, existing, merged);
    var futures := ProvisionTaifex(seeds(TwFuturesEod), merged[TwFuturesEod], target);
    if futures.Err? {
      return Err(futures.error);
    }
    var equity := ProvisionFinlab(Obj(merged[TwEquityEod]), target);
    if equity.Err? {
      return Err(equity.error);
    }
    RewritesNeverRestore(seeds, policy, TwFuturesEod, existing[TwFuturesEod]);
    RewritesNeverRestore(seeds, policy, TwEquityEod, existing[TwEquityEod]);
    FinlabRemovesThePilot(merged[TwEquityEod]);
    OverrideIsTheStoredOne(seeds(TwEquityEod), existing[TwEquityEod]);
    FinalsFromMerges(seeds, policy, existing, merged);
    result := Ok(WithRewrites(existing, target, merged, noted, futures.value, equity.value.0, equity.value.1));
  }

  /** The two rewritten configurations replace the merged ones, and their changes are noted. */
  function WithRewrites(existing: Rows, target: Target, merged: map<Dataset, Mapping>, noted: seq<Dataset>, futures: Mapping,
                   equity: Mapping, report: Report): (r: (map<Dataset, Mapping>, Report))
    requires merged.Keys <= existing.Keys && TwFuturesEod in merged && TwEquityEod in merged && Noted(noted, merged, existing)
    requires futures != merged[TwFuturesEod] ==> !Same(Obj(futures), existing[TwFuturesEod])
    requires equity != merged[TwEquityEod] ==> !Same(Obj(equity), existing[TwEquityEod])
    requires report.action.LegacyPilotRemoved? ==> equity != merged[TwEquityEod]
    requires report.resulting != ExactPilot && !report.action.Reconciled?
    requires PilotReported(existing, merged[TwFuturesEod := futures][TwEquityEod := equity], report)
    ensures r.0 == merged[TwFuturesEod := futures][TwEquityEod := equity]
    ensures ReportExact(existing, target, r.0, r.1)
  {
    var changed := Note(noted, TwFuturesEod, futures, existing[TwFuturesEod]);
    NoteKeepsNoted(noted, merged, existing, TwFuturesEod, futures);
    var after := merged[TwFuturesEod := futures];
    var all := Note(changed, TwEquityEod, equity, existing[TwEquityEod]);
    NoteKeepsNoted(changed, after, existing, TwEquityEod, equity);
    (after[TwEquityEod := equity],
     report.(action := if all != [] then Reconciled(target) else report.action, changed := all != [], changedKeys := all))
  }

  lemma AllReconcileIff(seeds: Seeds, policy: Policy, existing: Rows, merged: map<Dataset, Mapping>)
    requires SeedsOk(seeds) && RowsOk(existing) && AllMerged(seeds, policy, existing, merged)
    ensures IsSupported(TwFuturesEod) && IsSupported(TwEquityEod)
    ensures AllReconcile(seeds, policy, existing) <==>
              && Refusal(seeds, TwFuturesEod, merged[TwFuturesEod]).None?
              && Refusal(seeds, TwEquityEod, merged[TwEquityEod]).None?
  {
    assert IsSupported(TwFuturesEod) && IsSupported(TwEquityEod);
    forall dataset | IsSupported(dataset)
      ensures Reconciles(seeds, policy, dataset, existing[dataset]) <==> Refusal(seeds, dataset, merged[dataset]).None?
    {
      MergeDecides(seeds, policy, dataset, existing[dataset], merged[dataset]);
    }
  }

  lemma MergeDecides(seeds: Seeds, policy: Policy, dataset: Dataset, stored: Json, merged: Mapping)
    requires SeedUsable(seeds, dataset) && IsMerge(seeds, policy, dataset, stored, merged)
    ensures Reconciles(seeds, policy, dataset, stored) <==> Refusal(seeds, dataset, merged).None?
    ensures Refusal(seeds, dataset, merged).None? ==>
      Final(seeds, policy, dataset, stored) == Rewritten(seeds, dataset, merged)
  {
  }

  lemma FinalsFromMerges(seeds: Seeds, policy: Policy, existing: Rows, merged: map<Dataset, Mapping>)
    requires SeedsOk(seeds) && RowsOk(existing) && AllMerged(seeds, policy, existing, merged)
    requires AllReconcile(seeds, policy, existing)
    ensures IsSupported(TwFuturesEod) && IsSupported(TwEquityEod)
    ensures FinalConfigs(seeds, policy, existing) ==
      merged[TwFuturesEod := Final(seeds, policy, TwFuturesEod, existing[TwFuturesEod])]
            [TwEquityEod := Final(seeds, policy, TwEquityEod, existing[TwEquityEod])]
  {
    assert IsSupported(TwFuturesEod) && IsSupported(TwEquityEod);
    var final := FinalConfigs(seeds, policy, existing);
    forall dataset | dataset in final && !dataset.TwFuturesEod? && !dataset.TwEquityEod?
      ensures final[dataset] == merged[dataset]
    {
      MergeDecides(seeds, policy, dataset, existing[dataset], merged[dataset]);
    }
    SameButTwo(final, merged);
  }

  lemma SameButTwo(final: map<Dataset, Mapping>, merged: map<Dataset, Mapping>)
    requires final.Keys == merged.Keys && TwFuturesEod in final && TwEquityEod in final
    requires forall dataset :: dataset in final && !dataset.TwFuturesEod? && !dataset.TwEquityEod? ==>
      final[dataset] == merged[dataset]
    ensures final == merged[TwFuturesEod := final[TwFuturesEod]][TwEquityEod := final[TwEquityEod]]
  {
  }

  // ----- The transaction -----

  function Supported(rows: Rows): Rows {
    map dataset | dataset in rows && IsSupported(dataset) :: rows[dataset]
  }

  /** The stored rows after writing the configurations that differ: all other rows stay. */
  ghost function Written(rows: Rows, final: map<Dataset, Mapping>): Rows {
    map dataset | dataset in rows ::
      if dataset in final && !Same(Obj(final[dataset]), rows[dataset]) then Obj(final[dataset]) else rows[dataset]
  }

  function WriteChanged(rows: Rows, final: map<Dataset, Mapping>, changed: seq<Dataset>): Rows
    requires forall dataset :: dataset in changed ==> dataset in final
  {
    map dataset | dataset in rows :: if dataset in changed then Obj(final[dataset]) else rows[dataset]
  }

  class RegistryTable {
    var configs: Rows

    constructor (configs: Rows)
      ensures this.configs == configs
    {
      this.configs := configs;
    }

    /** All or nothing: an error leaves every row as it was. */
    method Provision(seeds: Seeds, policy: Policy, target: Target) returns (result: Result<Report, Error>)
      requires SeedsOk(seeds)
      modifies this
      ensures result.Ok? <==> Known(target) && AllReconcile(seeds, policy, old(configs))
      ensures result.Err? ==> configs == old(configs)
      ensures result.Ok? ==>
        var final := FinalConfigs(seeds, policy, old(configs));
        configs == Written(old(configs), final) && ReportExact(old(configs), target, final, result.value)
    {
      var rows := Supported(configs);
      SelectionDecides(seeds, policy, configs);
      var reconciled := Reconcile(seeds, policy, rows, target);
      if reconciled.Err? {
        return Err(reconciled.error);
      }
      var (final, report) := reconciled.value;
      NotedInAll(report.changedKeys, final, configs);
      configs := WriteChanged(configs, final, report.changedKeys);
      result := Ok(report);
    }
  }

  lemma NotedInAll(changed: seq<Dataset>, final: map<Dataset, Mapping>, rows: Rows)
    requires final.Keys <= Supported(rows).Keys && Noted(changed, final, Supported(rows))
    ensures Noted(changed, final, rows)
    ensures WriteChanged(rows, final, changed) == Written(rows, final)
  {
    assert forall dataset :: dataset in final ==> Supported(rows)[dataset] == rows[dataset];
  }

  lemma SelectionDecides(seeds: Seeds, policy: Policy, rows: Rows)
    requires SeedsOk(seeds)
    ensures AllReconcile(seeds, policy, rows) <==>
              RowsOk(Supported(rows)) && AllReconcile(seeds, policy, Supported(rows))
    ensures AllReconcile(seeds, policy, rows) ==>
      FinalConfigs(seeds, policy, rows) == FinalConfigs(seeds, policy, Supported(rows))
  {
    var selected := Supported(rows);
    if AllReconcile(seeds, policy, rows) {
      forall dataset | IsSupported(dataset) ensures Reconciles(seeds, policy, dataset, selected[dataset]) {
        assert selected[dataset] == rows[dataset];
      }
    }
    if RowsOk(selected) && AllReconcile(seeds, policy, selected) {
      forall dataset | IsSupported(dataset)
        ensures dataset in rows && Reconciles(seeds, policy, dataset, rows[dataset])
      {
        assert dataset in selected;
      }
    }
  }

  // ----- Running again -----

  /** The policy, which refuses null, accepts every result. */
  ghost predicate Repeatable(seeds: Seeds, policy: Policy, rows: Rows)
    requires SeedsOk(seeds) && AllReconcile(seeds, policy, rows)
  {
    && RefusesNull(policy)
    && forall dataset :: IsSupported(dataset) ==> PolicyOk(policy, Final(seeds, policy, dataset, rows[dataset]))
  }

  /** The row that one dataset has after a run reconciles to the same configuration again. */
  lemma RowIsFixed(seeds: Seeds, policy: Policy, rows: Rows, dataset: Dataset)
    requires SeedsOk(seeds) && AllReconcile(seeds, policy, rows) && Repeatable(seeds, policy, rows) && IsSupported(dataset)
    ensures var row := Written(rows, FinalConfigs(seeds, policy, rows))[dataset];
            Reconciles(seeds, policy, dataset, row)
            && Final(seeds, policy, dataset, row) == Final(seeds, policy, dataset, rows[dataset])
            && Same(Obj(Final(seeds, policy, dataset, row)), row)
  {
    FinalIsAFixedPoint(seeds, policy, dataset, rows[dataset]);
  }

  /** A second transaction on the stored result computes the same configurations, so it writes nothing and its report
      is empty. */
  lemma SecondRunChangesNothing(seeds: Seeds, policy: Policy, rows: Rows)
    requires SeedsOk(seeds) && AllReconcile(seeds, policy, rows) && Repeatable(seeds, policy, rows)
    ensures var final := FinalConfigs(seeds, policy, rows);
            var next := Written(rows, final);
            AllReconcile(seeds, policy, next)
            && FinalConfigs(seeds, policy, next) == final
            && Written(next, final) == next
            && forall target, report :: ReportExact(next, target, final, report) ==>
                 report.changedKeys == [] && report.action == PolicyPreserved
  {
    var final := FinalConfigs(seeds, policy, rows);
    var next := Written(rows, final);
    forall dataset | IsSupported(dataset)
      ensures dataset in next && Reconciles(seeds, policy, dataset, next[dataset])
              && Final(seeds, policy, dataset, next[dataset]) == final[dataset]
              && Same(Obj(final[dataset]), next[dataset])
    {
      RowIsFixed(seeds, policy, rows, dataset);
    }
    NothingToNote(next, final);
  }

  lemma NothingToNote(rows: Rows, final: map<Dataset, Mapping>)
    requires final.Keys <= rows.Keys && forall dataset :: dataset in final ==> Same(Obj(final[dataset]), rows[dataset])
    ensures Written(rows, final) == rows
    ensures forall target, report :: ReportExact(rows, target, final, report) ==>
      report.changedKeys == [] && report.action == PolicyPreserved
  {
    forall target, report | ReportExact(rows, target, final, report) ensures report.changedKeys == [] {
      SomeMember(report.changedKeys);
    }
  }

  lemma SomeMember<T>(s: seq<T>)
    ensures s != [] ==> exists x :: x in s
  {
    if s != [] {
      assert s[0] in s;
    }
  }
}
