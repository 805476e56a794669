/** Fetcher source credentials: like the deployment credentials, but keyed by operator-computed hashes, without
    legacy adoption, and with a policy that carries dataset scopes and rate limits across rotations. */
module FetcherCredentials {
  import opened Results
  import opened Selections
  import opened CredentialRows
  import opened Sorting

  datatype Dataset = Dataset(text: string)

  predicate DatasetLeq(a: Dataset, b: Dataset) { TextLeq(a.text, b.text) }

  datatype Policy = Policy(owner: Option<string>, description: Option<string>, fingerprint: Option<string>,
                           allowedDatasets: Option<seq<Dataset>>, rateLimitRequests: int, rateLimitWindow: int)

  datatype Row = Row(id: Id, name: string, sourceName: string, hash: string, policy: Policy, createdAt: Instant,
                     updatedAt: Instant, revokedAt: Option<Instant>, expiresAt: Option<Instant>, rotatedFrom: Option<Id>)

  datatype Spec = Spec(envName: string, name: string, sourceName: string, description: string,
                       allowedDatasets: seq<Dataset>, rateLimitRequests: int)

  datatype Action = Updated | Unchanged | Rotated | Created

  datatype Error = HashInvalid | HashesMissingOrReused | StateAmbiguous | UsedByAnotherIdentity | RevokedOrExpiring | AnotherActive
                 | IntegrityViolation

  /** One call: the hash, the spec, the full-market profile that bounds retained scopes, the clock reading and
      the fresh row identifier. */
  datatype Call = Call(hash: string, spec: Spec, profile: seq<Spec>, now: Instant, newId: Id)

  /** Lowercase SHA-256 text. */
  predicate ValidHash(hash: string) {
    |hash| == 64 && forall c :: c in hash ==> '0' <= c <= '9' || 'a' <= c <= 'f'
  }

  predicate IsActive(row: Row, now: Instant) {
    IsLive(row.revokedAt, row.expiresAt, now)
  }

  function Max(a: int, b: int): int { if a < b then b else a }

  function Listed(datasets: Option<seq<Dataset>>): seq<Dataset> {
    if datasets.None? then [] else datasets.value
  }

  // ----- The policy -----

  /** Datasets of the first profile entry for the source, or the spec's own. */
  function Maximum(profile: seq<Spec>, spec: Spec): seq<Dataset> {
    if profile == [] then spec.allowedDatasets
    else if profile[0].sourceName == spec.sourceName then profile[0].allowedDatasets
    else Maximum(profile[1..], spec)
  }

  /** The list without repetitions: first occurrences, in order. */
  function FirstOccurrences(list: seq<Dataset>): (r: seq<Dataset>)
    ensures forall d :: d in r <==> d in list
    decreases |list|
  {
    if list == [] then []
    else [list[0]] + FirstOccurrences(Without(list[1..], [list[0]]))
  }

  function Without(list: seq<Dataset>, removed: seq<Dataset>): (r: seq<Dataset>)
    ensures forall d :: d in r <==> d in list && d !in removed
    ensures |r| <= |list|
  {
    if list == [] then []
    else if list[0] in removed then Without(list[1..], removed)
    else [list[0]] + Without(list[1..], removed)
  }

  function Within(list: seq<Dataset>, kept: seq<Dataset>): (r: seq<Dataset>)
    ensures forall d :: d in r <==> d in list && d in kept
  {
    if list == [] then []
    else if list[0] in kept then [list[0]] + Within(list[1..], kept)
    else Within(list[1..], kept)
  }

  /** The spec's datasets, then the row's other datasets that the profile still knows, sorted. */
  function DesiredDatasets(held: seq<Dataset>, spec: Spec, maximum: seq<Dataset>): seq<Dataset> {
    spec.allowedDatasets + Sort(FirstOccurrences(Without(Within(held, maximum), spec.allowedDatasets)), DatasetLeq)
  }

  function DesiredPolicy(row: Row, c: Call): Policy {
    Policy(Some("deployment"), Some(c.spec.description), Some(Fingerprint(row.hash)),
           Some(DesiredDatasets(Listed(row.policy.allowedDatasets), c.spec, Maximum(c.profile, c.spec))),
           Max(c.spec.rateLimitRequests, row.policy.rateLimitRequests), 60)
  }

  function ApplySourcePolicy(row: Row, c: Call): Row {
    if row.policy == DesiredPolicy(row, c) then row
    else row.(policy := DesiredPolicy(row, c), updatedAt := c.now)
  }

  /** The row that replaces a rotated one keeps its scopes and never lowers its rate limit. */
  function CarriedOver(spec: Spec, previous: Row): Spec {
    spec.(allowedDatasets := FirstOccurrences(spec.allowedDatasets + Listed(previous.policy.allowedDatasets)),
          rateLimitRequests := Max(spec.rateLimitRequests, previous.policy.rateLimitRequests))
  }

  function NewRow(c: Call, hash: string, spec: Spec, rotatedFrom: Option<Id>): Row {
    Row(c.newId, spec.name, spec.sourceName, hash,
        Policy(Some("deployment"), Some(spec.description), Some(Fingerprint(hash)), Some(spec.allowedDatasets),
               spec.rateLimitRequests, 60),
        c.now, c.now, None, None, rotatedFrom)
  }

  // ----- Specification: one reconciliation as a function on tables -----

  ghost function Holders(rows: seq<Row>, hash: string): set<nat> {
    set i | 0 <= i < |rows| && rows[i].hash == hash
  }

  ghost function ActiveNamed(rows: seq<Row>, name: string, now: Instant): set<nat> {
    set i | 0 <= i < |rows| && rows[i].name == name && IsActive(rows[i], now)
  }

  ghost function IdsOf(rows: seq<Row>): set<Id> {
    set i | 0 <= i < |rows| :: rows[i].id
  }

  function ReconcileHolder(rows: seq<Row>, i: nat, othersActive: bool, c: Call): (seq<Row>, Result<Action, Error>)
    requires i < |rows|
  {
    var row := rows[i];
    var updated := ApplySourcePolicy(row, c);
    if row.name != c.spec.name || row.sourceName != c.spec.sourceName then (rows, Err(UsedByAnotherIdentity))
    else if !IsActive(row, c.now) || row.expiresAt.Some? then (rows, Err(RevokedOrExpiring))
    else if othersActive then (rows, Err(AnotherActive))
    else (rows[i := updated], Ok(if row.policy == updated.policy then Unchanged else Updated))
  }

  function Revoke(row: Row, now: Instant): Row {
    row.(revokedAt := Some(now), updatedAt := now)
  }

  ghost function Reconciled(rows: seq<Row>, c: Call): (seq<Row>, Result<Action, Error>) {
    if !ValidHash(c.hash) then (rows, Err(HashInvalid))
    else
      var hash := c.hash;
      var holders := Holders(rows, hash);
      var active := ActiveNamed(rows, c.spec.name, c.now);
      if |holders| > 1 || |active| > 1 then (rows, Err(StateAmbiguous))
      else if |holders| == 1 then ReconcileHolder(rows, TheOne(holders), active - holders != {}, c)
      else if c.newId in IdsOf(rows) then (rows, Err(IntegrityViolation))
      else if |active| == 1 then
        var i := TheOne(active);
        (rows[i := Revoke(rows[i], c.now)] + [NewRow(c, hash, CarriedOver(c.spec, rows[i]), Some(rows[i].id))], Ok(Rotated))
      else (rows + [NewRow(c, hash, c.spec, None)], Ok(Created))
  }

  /** Reconciles the calls in order, stopping at the first error. */
  ghost function Transaction(rows: seq<Row>, calls: seq<Call>): (seq<Row>, Result<seq<Action>, Error>)
    decreases |calls|
  {
    if calls == [] then (rows, Ok([]))
    else
      var first := Reconciled(rows, calls[0]);
      if first.1.Err? then (rows, Err(first.1.error)) else Prepend([first.1.value], Transaction(first.0, calls[1..]))
  }

  // ----- The table and its methods -----

  lemma SameIds(a: seq<Row>, b: seq<Row>)
    requires |a| == |b| && forall i :: 0 <= i < |a| ==> a[i].id == b[i].id
    ensures IdsOf(a) == IdsOf(b)
  {
    forall x | x in IdsOf(a) ensures x in IdsOf(b) {
      var i :| 0 <= i < |a| && a[i].id == x;
      assert b[i].id == x;
    }
  }

  class SourceClientTable {
    var rows: seq<Row>

    constructor (initial: seq<Row>)
      ensures rows == initial
    {
      rows := initial;
    }

    /** Positions of the rows that the hash selects, and of the active rows that the name selects. */
    method Select(hash: string, name: string, now: Instant) returns (hashMatches: seq<nat>, activeNamed: seq<nat>)
      ensures Lists(hashMatches, Holders(rows, hash))
      ensures Lists(activeNamed, ActiveNamed(rows, name, now))
    {
      hashMatches, activeNamed := [], [];
      for n := 0 to |rows|
        invariant forall i, j :: 0 <= i < j < |hashMatches| ==> hashMatches[i] != hashMatches[j]
        invariant forall k :: k in hashMatches <==> 0 <= k < n && rows[k].hash == hash
        invariant forall i, j :: 0 <= i < j < |activeNamed| ==> activeNamed[i] != activeNamed[j]
        invariant forall k :: k in activeNamed <==> 0 <= k < n && rows[k].name == name && IsActive(rows[k], now)
      {
        if rows[n].hash == hash {
          hashMatches := hashMatches + [n];
        }
        if rows[n].name == name && IsActive(rows[n], now) {
          activeNamed := activeNamed + [n];
        }
      }
    }

    /** The primary key refuses a second row with one identifier. */
    method Add(row: Row) returns (ok: bool)
      modifies this
      ensures ok <==> row.id !in IdsOf(old(rows))
      ensures rows == if ok then old(rows) + [row] else old(rows)
    {
      for n := 0 to |rows|
        invariant rows == old(rows) && forall i :: 0 <= i < n ==> rows[i].id != row.id
      {
        if rows[n].id == row.id {
          return false;
        }
      }
      rows := rows + [row];
      ok := true;
    }

    /** Update, rotate or create one credential; an error leaves the table as it was. */
    method ReconcileSourceCredential(c: Call) returns (result: Result<Action, Error>)
      modifies this
      ensures (rows, result) == Reconciled(old(rows), c)
    {
      if !ValidHash(c.hash) {
        return Err(HashInvalid);
      }
      var hash := c.hash;
      var hashMatches, activeNamed := Select(hash, c.spec.name, c.now);
      ListSize(hashMatches, Holders(rows, hash));
      ListSize(activeNamed, ActiveNamed(rows, c.spec.name, c.now));
      if |hashMatches| > 1 || |activeNamed| > 1 {
        return Err(StateAmbiguous);
      }
      if |hashMatches| > 0 {
        assert Holders(rows, hash) == {hashMatches[0]};
        OthersInList(activeNamed, ActiveNamed(rows, c.spec.name, c.now), hashMatches[0]);
        result := ReconcileKnown(c, hashMatches[0], activeNamed);
        return;
      }
      var before := rows;
      var rotatedFrom, spec := None, c.spec;
      if |activeNamed| > 0 {
        var previous := activeNamed[0];
        spec := CarriedOver(spec, rows[previous]);
        rows := rows[previous := Revoke(rows[previous], c.now)];
        rotatedFrom := Some(rows[previous].id);
        SameIds(before, rows);
        SameIds(rows, before);
      }
      var added := Add(NewRow(c, hash, spec, rotatedFrom));
      if !added {
        rows := before;
        return Err(IntegrityViolation);
      }
      return Ok(if rotatedFrom.Some? then Rotated else Created);
    }

    method ReconcileKnown(c: Call, i: nat, activeNamed: seq<nat>) returns (result: Result<Action, Error>)
      requires i < |rows| && |activeNamed| <= 1
      modifies this
      ensures (rows, result) == ReconcileHolder(old(rows), i, |activeNamed| > 0 && activeNamed[0] != i, c)
    {
      var row := rows[i];
      if row.name != c.spec.name || row.sourceName != c.spec.sourceName {
        return Err(UsedByAnotherIdentity);
      }
      if !IsActive(row, c.now) || row.expiresAt.Some? {
        return Err(RevokedOrExpiring);
      }
      if |activeNamed| > 0 && activeNamed[0] != i {
        return Err(AnotherActive);
      }
      var desired := DesiredPolicy(row, c);
      var changed := row.policy != desired;
      if changed {
        row := row.(policy := desired, updatedAt := c.now);
      }
      rows := rows[i := row];
      return Ok(if changed then Updated else Unchanged);
    }

    /** The spec loop; an error rolls the session back. */
    method ReconcileAll(calls: seq<Call>) returns (results: Result<seq<Action>, Error>)
      modifies this
      ensures var run := Transaction(old(rows), calls);
              results == run.1 && rows == if run.1.Ok? then run.0 else old(rows)
    {
      var before := rows;
      var actions := [];
      assert calls[0..] == calls;
      PrependNothing(Transaction(rows, calls));
      for n := 0 to |calls|
        invariant |actions| == n
        invariant Transaction(old(rows), calls) == Prepend(actions, Transaction(rows, calls[n..]))
      {
        var result := ReconcileSourceCredential(calls[n]);
        assert calls[n..][1..] == calls[n + 1..];
        if result.Err? {
          rows := before;
          return Err(result.error);
        }
        PrependAssociates(actions, result.value, Transaction(rows, calls[n + 1..]));
        actions := actions + [result.value];
      }
      assert actions + [] == actions;
      return Ok(actions);
    }

    /** One session: every hash well formed, exactly one for each spec and none used twice, then every spec in
        order under one clock reading. */
    method ReconcileInSession(hashesByEnv: map<string, string>, specs: seq<Spec>, now: Instant, newIds: seq<Id>)
      returns (results: Result<seq<Action>, Error>)
      requires |newIds| == |specs|
      modifies this
      ensures if exists env :: env in hashesByEnv && !ValidHash(hashesByEnv[env]) then
                results == Err(HashInvalid) && rows == old(rows)
              else if !InputsMatch(hashesByEnv, specs) then results == Err(HashesMissingOrReused) && rows == old(rows)
              else
                var run := Transaction(old(rows), SessionCalls(hashesByEnv, specs, now, newIds));
                results == run.1 && rows == if run.1.Ok? then run.0 else old(rows)
    {
      if exists env :: env in hashesByEnv && !ValidHash(hashesByEnv[env]) {
        return Err(HashInvalid);
      }
      if hashesByEnv.Keys != Required(specs) || |hashesByEnv.Values| != |Required(specs)| {
        return Err(HashesMissingOrReused);
      }
      results := ReconcileAll(SessionCalls(hashesByEnv, specs, now, newIds));
    }
  }

  function Required(specs: seq<Spec>): set<string> {
    set spec | spec in specs :: spec.envName
  }

  /** One hash for each spec, all different. */
  predicate InputsMatch(hashesByEnv: map<string, string>, specs: seq<Spec>) {
    hashesByEnv.Keys == Required(specs) && |hashesByEnv.Values| == |Required(specs)|
  }

  function SessionCalls(hashesByEnv: map<string, string>, specs: seq<Spec>, now: Instant, newIds: seq<Id>): seq<Call>
    requires |newIds| == |specs| && InputsMatch(hashesByEnv, specs)
  {
    seq(|specs|, k requires 0 <= k < |specs| =>
      assert specs[k].envName in Required(specs);
      Call(hashesByEnv[specs[k].envName], specs[k], specs, now, newIds[k]))
  }

  /** SOURCE_SPECS, which is FULL_MARKET_SOURCE_SPECS. */
  const SOURCE_SPECS := [
    Spec("FETCHER_TWELVE_DATA_SOURCE_CLIENT_KEY_HASH", "fetcher-twelve-data", "twelve_data",
         "Twelve Data Fetcher Source client", [Dataset("us_equity_eod")], 2400),
    Spec("FETCHER_FINLAB_SOURCE_CLIENT_KEY_HASH", "fetcher-finlab", "finlab",
         "FinLab Fetcher Source client", [Dataset("tw_equity_eod"), Dataset("tw_etf_eod")], 2400),
    Spec("FETCHER_SHIOAJI_SOURCE_CLIENT_KEY_HASH", "fetcher-shioaji", "shioaji",
         "Shioaji Fetcher Source client", [Dataset("tw_equity_minute"), Dataset("tw_etf_minute")], 2400),
    Spec("FETCHER_TAIFEX_SOURCE_CLIENT_KEY_HASH", "fetcher-taifex", "taifex",
         "TAIFEX Fetcher Source client", [Dataset("tw_futures_eod")], 2400),
    Spec("FETCHER_FACTSET_SOURCE_CLIENT_KEY_HASH", "fetcher-factset", "factset",
         "FactSet HK EOD Fetcher Source client", [Dataset("hk_equity_eod")], 2400)
  ]
}
