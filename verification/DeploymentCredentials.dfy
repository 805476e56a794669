/** Deployment machine credentials: one dedicated API key per deployment probe, reconciled against the
    hash of the secret that the deployment supplies.

    A credential row is a value, the API-key table the list of rows in order of creation; no row is ever
    deleted.  Instants are integers.  Plaintext never enters the model: a reconciliation receives the hash
    of a well-formed secret, or None where the format check refuses it. */
module DeploymentCredentials {
  import opened Results
  import opened Selections
  import opened CredentialRows

  /** Fields that the policy overwrites. */
  datatype Policy = Policy(owner: string, description: string, role: Option<string>, tier: string, fingerprint: string,
                           scopes: seq<string>, rateLimitRequests: int, rateLimitWindow: int, pageSizeLimit: int)

  datatype Row = Row(id: Id, hash: string, kind: string, name: Option<string>, policy: Policy, createdAt: Instant,
                     revokedAt: Option<Instant>, expiresAt: Option<Instant>, rotatedFrom: Option<Id>)

  datatype Spec = Spec(envName: string, name: string, kind: string, role: Option<string>, description: string,
                       scopes: seq<string>, pageSizeLimit: int)

  datatype Action = Adopted | Updated | Unchanged | Rotated | Created

  datatype Error = KeyFormatInvalid | StateAmbiguous | UsedByAnotherIdentity | LegacyRevokedOrExpiring
                 | CanonicalAlreadyActive | KindMismatch | RevokedOrExpiring | IntegrityViolation

  /** One call's inputs beside the table: the secret's hash, the clock reading and the fresh row identifier. */
  datatype Call = Call(hash: Option<string>, spec: Spec, legacyNames: seq<string>, now: Instant, newId: Id)

  predicate IsActive(row: Row, now: Instant) {
    IsLive(row.revokedAt, row.expiresAt, now)
  }

  function DesiredPolicy(spec: Spec, hash: string): Policy {
    Policy("deployment", spec.description, spec.role, "internal", Fingerprint(hash), spec.scopes, 120, 60, spec.pageSizeLimit)
  }

  // ----- Specification: one reconciliation as a function on tables -----

  ghost function Holders(rows: seq<Row>, hash: string): set<nat> {
    set i | 0 <= i < |rows| && rows[i].hash == hash
  }

  ghost function ActiveNamed(rows: seq<Row>, name: string, now: Instant): set<nat> {
    set i | 0 <= i < |rows| && rows[i].name == Some(name) && IsActive(rows[i], now)
  }

  ghost function IdsOf(rows: seq<Row>): set<Id> {
    set i | 0 <= i < |rows| :: rows[i].id
  }

  function NewRow(c: Call, hash: string, rotatedFrom: Option<Id>): Row {
    Row(c.newId, hash, c.spec.kind, Some(c.spec.name), DesiredPolicy(c.spec, hash), c.now, None, None, rotatedFrom)
  }

  /** The secret is known: adopt the row from its legacy name, or bring its policy up to date. */
  function ReconcileHolder(rows: seq<Row>, i: nat, othersActive: bool, c: Call, hash: string): (seq<Row>, Result<Action, Error>)
    requires i < |rows|
  {
    var row := rows[i];
    var inUse := IsActive(row, c.now) && row.expiresAt.None?;
    var updated := row.(name := Some(c.spec.name), policy := DesiredPolicy(c.spec, hash));
    if row.name != Some(c.spec.name) then
      if row.name.None? || row.name.value !in c.legacyNames || row.kind != c.spec.kind then (rows, Err(UsedByAnotherIdentity))
      else if !inUse then (rows, Err(LegacyRevokedOrExpiring))
      else if othersActive then (rows, Err(CanonicalAlreadyActive))
      else (rows[i := updated], Ok(Adopted))
    else if row.kind != c.spec.kind then (rows, Err(KindMismatch))
    else if !inUse then (rows, Err(RevokedOrExpiring))
    else if othersActive then (rows, Err(CanonicalAlreadyActive))
    else (rows[i := updated], Ok(if updated == row then Unchanged else Updated))
  }

  ghost function Reconciled(rows: seq<Row>, c: Call): (seq<Row>, Result<Action, Error>) {
    if c.hash.None? then (rows, Err(KeyFormatInvalid))
    else
      var hash := c.hash.value;
      var holders := Holders(rows, hash);
      var active := ActiveNamed(rows, c.spec.name, c.now);
      if |holders| > 1 || |active| > 1 then (rows, Err(StateAmbiguous))
      else if |holders| == 1 then
        ReconcileHolder(rows, TheOne(holders), active - holders != {}, c, hash)
      else if c.newId in IdsOf(rows) then (rows, Err(IntegrityViolation))
      else if |active| == 1 then
        var i := TheOne(active);
        (rows[i := rows[i].(revokedAt := Some(c.now))] + [NewRow(c, hash, Some(rows[i].id))], Ok(Rotated))
      else (rows + [NewRow(c, hash, None)], Ok(Created))
  }

  // ----- The table and its methods -----

  lemma SameIds(a: seq<Row>, b: seq<Row>)
    requires |a| == |b| && forall i :: 0 <= i < |a| ==> a[i].id == b[i].id
    ensures IdsOf(a) == IdsOf(b)
  {
    forall x | x in IdsOf(a) ensures x in IdsOf(b) {
      var i :| 0 <= i < |a| && a[i].id == x;
      assert b[i].id == x;
    }
  }

  class ApiKeyTable {
    var rows: seq<Row>

    constructor (initial: seq<Row>)
      ensures rows == initial
    {
      rows := initial;
    }

    /** rows with the given hash, as list positions */
    method HashMatches(hash: string) returns (indices: seq<nat>)
      ensures Lists(indices, Holders(rows, hash))
    {
      indices := [];
      for n := 0 to |rows|
        invariant forall i, j :: 0 <= i < j < |indices| ==> indices[i] != indices[j]
        invariant forall k :: k in indices <==> 0 <= k < n && rows[k].hash == hash
      {
        if rows[n].hash == hash {
          indices := indices + [n];
        }
      }
    }

    /** active rows with the given name, as list positions */
    method ActiveRows(name: string, now: Instant) returns (indices: seq<nat>)
      ensures Lists(indices, ActiveNamed(rows, name, now))
    {
      indices := [];
      for n := 0 to |rows|
        invariant forall i, j :: 0 <= i < j < |indices| ==> indices[i] != indices[j]
        invariant forall k :: k in indices <==> 0 <= k < n && rows[k].name == Some(name) && IsActive(rows[k], now)
      {
        if rows[n].name == Some(name) && IsActive(rows[n], now) {
          indices := indices + [n];
        }
      }
    }

    /** The primary key refuses a second row with one identifier. */
    method Add(row: Row) returns (ok: bool)
      modifies this
      ensures ok <==> row.id !in IdsOf(old(rows))
      ensures rows == if ok then old(rows) + [row] else old(rows)
    {
      var n := 0;
      while n < |rows|
        invariant 0 <= n <= |rows|
        invariant forall i :: 0 <= i < n ==> rows[i].id != row.id
      {
        if rows[n].id == row.id {
          return false;
        }
        n := n + 1;
      }
      rows := rows + [row];
      ok := true;
    }

    /** Sets each field that differs from the policy and says whether one did. */
    method ApplyCredentialPolicy(i: nat, spec: Spec, hash: string) returns (changed: bool)
      requires i < |rows|
      modifies this
      ensures rows == old(rows)[i := old(rows)[i].(policy := DesiredPolicy(spec, hash))]
      ensures changed <==> rows != old(rows)
    {
      var desired := DesiredPolicy(spec, hash);
      changed := false;
      if rows[i].policy != desired {
        ghost var before := rows;
        rows := rows[i := rows[i].(policy := desired)];
        changed := true;
        assert rows[i] != before[i];
      }
    }

    /** Create, adopt, update or rotate one credential; an error leaves the table as it was. */
    method ReconcileMachineCredential(c: Call) returns (result: Result<Action, Error>)
      modifies this
      ensures (rows, result) == Reconciled(old(rows), c)
    {
      if c.hash.None? {
        return Err(KeyFormatInvalid);
      }
      var hash := c.hash.value;
      var hashMatches := HashMatches(hash);
      var activeNamed := ActiveRows(c.spec.name, c.now);
      ListSize(hashMatches, Holders(rows, hash));
      ListSize(activeNamed, ActiveNamed(rows, c.spec.name, c.now));
      if |hashMatches| > 1 || |activeNamed| > 1 {
        return Err(StateAmbiguous);
      }
      if |hashMatches| > 0 {
        result := ReconcileKnown(c, hash, hashMatches[0], activeNamed);
        return;
      }
      var before := rows;
      var rotatedFrom := None;
      if |activeNamed| > 0 {
        var previous := activeNamed[0];
        rows := rows[previous := rows[previous].(revokedAt := Some(c.now))];
        rotatedFrom := Some(rows[previous].id);
        assert IdsOf(rows) == IdsOf(before) by { SameIds(before, rows); }
      }
      var added := Add(NewRow(c, hash, rotatedFrom));
      if !added {
        rows := before;
        return Err(IntegrityViolation);
      }
      return Ok(if rotatedFrom.Some? then Rotated else Created);
    }

    method ReconcileKnown(c: Call, hash: string, i: nat, activeNamed: seq<nat>) returns (result: Result<Action, Error>)
      requires i < |rows| && Holders(rows, hash) == {i}
      requires Lists(activeNamed, ActiveNamed(rows, c.spec.name, c.now)) && |activeNamed| <= 1
      modifies this
      ensures (rows, result)
           == ReconcileHolder(old(rows), i, ActiveNamed(old(rows), c.spec.name, c.now) - {i} != {}, c, hash)
    {
      OthersInList(activeNamed, ActiveNamed(rows, c.spec.name, c.now), i);
      var row := rows[i];
      if row.name != Some(c.spec.name) {
        if row.name.None? || row.name.value !in c.legacyNames || row.kind != c.spec.kind {
          return Err(UsedByAnotherIdentity);
        }
        if !IsActive(row, c.now) || row.expiresAt.Some? {
          return Err(LegacyRevokedOrExpiring);
        }
        if |activeNamed| > 0 {
          return Err(CanonicalAlreadyActive);
        }
        rows := rows[i := row.(name := Some(c.spec.name))];
        var _ := ApplyCredentialPolicy(i, c.spec, hash);
        assert rows == old(rows)[i := row.(name := Some(c.spec.name), policy := DesiredPolicy(c.spec, hash))];
        return Ok(Adopted);
      }
      if row.kind != c.spec.kind {
        return Err(KindMismatch);
      }
      if !IsActive(row, c.now) || row.expiresAt.Some? {
        return Err(RevokedOrExpiring);
      }
      if |activeNamed| > 0 && activeNamed[0] != i {
        return Err(CanonicalAlreadyActive);
      }
      var changed := ApplyCredentialPolicy(i, c.spec, hash);
      return Ok(if changed then Updated else Unchanged);
    }

    /** The per-spec loop of one transaction.  Any error, and check-only mode, rolls the whole table back. */
    method ReconcileDeploymentCredentials(calls: seq<Call>, checkOnly: bool) returns (results: Result<seq<Action>, Error>)
      modifies this
      ensures var run := Transaction(old(rows), calls);
              results == run.1 && rows == if run.1.Ok? && !checkOnly then run.0 else old(rows)
    {
      var before := rows;
      var actions := [];
      assert calls[0..] == calls;
      PrependNothing(Transaction(rows, calls));
      for n := 0 to |calls|
        invariant |actions| == n
        invariant Transaction(old(rows), calls) == Prepend(actions, Transaction(rows, calls[n..]))
      {
        var result := ReconcileMachineCredential(calls[n]);
        assert calls[n..][1..] == calls[n + 1..];
        if result.Ok? {
          PrependAssociates(actions, result.value, Transaction(rows, calls[n + 1..]));
        }
        if result.Err? {
          rows := before;
          return Err(result.error);
        }
        actions := actions + [result.value];
      }
      assert actions + [] == actions;
      if checkOnly {
        rows := before;
      }
      return Ok(actions);
    }
  }

  /** Reconciles the calls in order, stopping at the first error. */
  ghost function Transaction(rows: seq<Row>, calls: seq<Call>): (seq<Row>, Result<seq<Action>, Error>)
    decreases |calls|
  {
    if calls == [] then (rows, Ok([]))
    else
      var first := Reconciled(rows, calls[0]);
      if first.1.Err? then (rows, Err(first.1.error))
      else Prepend([first.1.value], Transaction(first.0, calls[1..]))
  }

  // ----- The deployment's own specs -----

  const QUEUE_HEALTH_SPEC := Spec("FINDB_QUEUE_HEALTH_ADMIN_API_KEY", "deployment-queue-health", "admin", Some("viewer"),
                                  "Deployment queue-health readiness probe", ["admin:queue:read"], 100)
  const LOOKUP_SERVE_SPEC := Spec("FINDB_LOOKUP_SERVE_API_KEY", "dashboard-lookup", "serve", None,
                                  "Dashboard lookup Serve API credential", ["serve"], 100)
  const STATIC_CACHE_SPEC := Spec("FINDB_STATIC_CACHE_SERVE_API_KEY", "static-cache-generation", "serve", None,
                                  "Static cache generation Serve API credential", ["serve"], 1000)

  datatype Target = Staging | Production

  function TargetName(target: Target): string {
    match target
    case Staging => "staging"
    case Production => "production"
  }

  function LegacyNamesForSpec(spec: Spec, target: Target): seq<string> {
    if spec.envName == QUEUE_HEALTH_SPEC.envName then [TargetName(target) + " queue health"]
    else if spec.envName == LOOKUP_SERVE_SPEC.envName then [TargetName(target) + " lookup"]
    else if spec.envName == STATIC_CACHE_SPEC.envName then [TargetName(target) + " static cache"]
    else []
  }

  /** Secret hash, clock reading and fresh identifier of one call. */
  datatype Input = Input(hash: Option<string>, now: Instant, newId: Id)

  function CallFor(spec: Spec, target: Target, input: Input): Call {
    Call(input.hash, spec, LegacyNamesForSpec(spec, target), input.now, input.newId)
  }

  function DeploymentCalls(target: Target, queueHealth: Input, lookup: Input, staticCache: Input): seq<Call> {
    [CallFor(QUEUE_HEALTH_SPEC, target, queueHealth), CallFor(LOOKUP_SERVE_SPEC, target, lookup),
     CallFor(STATIC_CACHE_SPEC, target, staticCache)]
  }
}
