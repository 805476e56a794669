/** What a caller of the deployment reconciler observes, said of the rows alone: when a call succeeds and with which
    action, which error it gets otherwise, and which fields every row has afterwards. */
module DeploymentOutcomes {
  import opened Results
  import opened Selections
  import opened CredentialRows
  import opened DeploymentCredentials
  import opened DeploymentCredentialsTheory

  // ----- Rows -----

  /** Not revoked, and not past its expiry, if it has one. */
  ghost predicate Alive(row: Row, now: Instant) {
    row.revokedAt == None && forall x :: row.expiresAt == Some(x) ==> now < x
  }

  ghost predicate OnlyHolder(rows: seq<Row>, hash: string, i: nat) {
    i < |rows| && forall k :: 0 <= k < |rows| ==> (rows[k].hash == hash <==> k == i)
  }

  ghost predicate NoHolder(rows: seq<Row>, hash: string) {
    forall k :: 0 <= k < |rows| ==> rows[k].hash != hash
  }

  ghost predicate NamedAlive(rows: seq<Row>, name: string, now: Instant, k: nat) {
    k < |rows| && rows[k].name == Some(name) && Alive(rows[k], now)
  }

  ghost predicate TwoHolders(rows: seq<Row>, hash: string) {
    exists j, k :: 0 <= j < k < |rows| && rows[j].hash == hash && rows[k].hash == hash
  }

  ghost predicate TwoAlive(rows: seq<Row>, name: string, now: Instant) {
    exists j: nat, k: nat :: j < k && NamedAlive(rows, name, now, j) && NamedAlive(rows, name, now, k)
  }

  ghost predicate FreshId(rows: seq<Row>, id: Id) {
    forall k :: 0 <= k < |rows| ==> rows[k].id != id
  }

  /** The fields that the policy sets. */
  ghost predicate CarriesPolicy(row: Row, spec: Spec) {
    && row.policy.owner == "deployment" && row.policy.tier == "internal"
    && row.policy.description == spec.description && row.policy.role == spec.role
    && row.policy.scopes == spec.scopes && row.policy.pageSizeLimit == spec.pageSizeLimit
    && row.policy.rateLimitRequests == 120 && row.policy.rateLimitWindow == 60
    && row.policy.fingerprint <= row.hash
    && |row.policy.fingerprint| == (if |row.hash| < 16 then |row.hash| else 16)
  }

  // ----- Counting the selections -----

  lemma ActiveIsAlive(rows: seq<Row>, name: string, now: Instant, k: nat)
    ensures k in ActiveNamed(rows, name, now) <==> NamedAlive(rows, name, now, k)
  {
    if k < |rows| && rows[k].expiresAt.Some? {
      assert rows[k].expiresAt == Some(rows[k].expiresAt.value);
    }
  }

  lemma AtMostOneHolder(rows: seq<Row>, hash: string)
    ensures |Holders(rows, hash)| > 1 <==> TwoHolders(rows, hash)
  {
    var s := Holders(rows, hash);
    AtMostOne(s);
    if TwoHolders(rows, hash) {
      var j, k :| 0 <= j < k < |rows| && rows[j].hash == hash && rows[k].hash == hash;
      assert j in s && k in s;
    }
  }

  lemma AtMostOneAlive(rows: seq<Row>, name: string, now: Instant)
    ensures |ActiveNamed(rows, name, now)| > 1 <==> TwoAlive(rows, name, now)
  {
    var s := ActiveNamed(rows, name, now);
    AtMostOne(s);
    forall k: nat ensures k in s <==> NamedAlive(rows, name, now, k) {
      ActiveIsAlive(rows, name, now, k);
    }
  }

  lemma HoldersAre(rows: seq<Row>, hash: string, i: nat)
    ensures OnlyHolder(rows, hash, i) <==> i < |rows| && Holders(rows, hash) == {i}
    ensures NoHolder(rows, hash) <==> Holders(rows, hash) == {}
  {
    if Holders(rows, hash) == {i} {
      forall k | 0 <= k < |rows| ensures rows[k].hash == hash <==> k == i {
        assert k in Holders(rows, hash) <==> k == i;
      }
    }
    if Holders(rows, hash) == {} {
      forall k | 0 <= k < |rows| ensures rows[k].hash != hash {
        assert k !in Holders(rows, hash);
      }
    }
  }

  lemma IdsAre(rows: seq<Row>, id: Id)
    ensures id in IdsOf(rows) <==> !FreshId(rows, id)
  {
    if !FreshId(rows, id) {
      var k :| 0 <= k < |rows| && rows[k].id == id;
      assert rows[k].id in IdsOf(rows);
    }
  }

  // ----- Which outcome -----

  /** Before any row is looked at more closely. */
  lemma UndecidedOutcome(rows: seq<Row>, c: Call)
    ensures Reconciled(rows, c).1 == Err(KeyFormatInvalid) <==> c.hash.None?
    ensures Reconciled(rows, c).1 == Err(StateAmbiguous) <==>
      c.hash.Some? && (TwoHolders(rows, c.hash.value) || TwoAlive(rows, c.spec.name, c.now))
  {
    if c.hash.Some? {
      AtMostOneHolder(rows, c.hash.value);
      AtMostOneAlive(rows, c.spec.name, c.now);
    }
  }

  ghost predicate Known(row: Row, c: Call) {
    row.name == Some(c.spec.name) || exists name :: name in c.legacyNames && row.name == Some(name)
  }

  ghost predicate AnotherAlive(rows: seq<Row>, c: Call, i: nat) {
    exists k: nat :: k != i && NamedAlive(rows, c.spec.name, c.now, k)
  }

  lemma OthersAre(rows: seq<Row>, c: Call, i: nat)
    ensures ActiveNamed(rows, c.spec.name, c.now) - {i} != {} <==> AnotherAlive(rows, c, i)
  {
    var s := ActiveNamed(rows, c.spec.name, c.now);
    forall k: nat ensures k in s <==> NamedAlive(rows, c.spec.name, c.now, k) {
      ActiveIsAlive(rows, c.spec.name, c.now, k);
    }
    if AnotherAlive(rows, c, i) {
      var k: nat :| k != i && NamedAlive(rows, c.spec.name, c.now, k);
      assert k in s - {i};
    }
    if s - {i} != {} {
      var k :| k in s - {i};
      assert NamedAlive(rows, c.spec.name, c.now, k);
    }
  }

  /** A secret that one row holds: success, action and error, each if and only if. */
  lemma KnownSecretOutcome(rows: seq<Row>, c: Call, i: nat)
    requires c.hash.Some? && OnlyHolder(rows, c.hash.value, i) && !TwoAlive(rows, c.spec.name, c.now)
    ensures var row, result := rows[i], Reconciled(rows, c).1;
            var own := row.name == Some(c.spec.name);
            var endless := row.revokedAt.None? && row.expiresAt.None?;
            && (result.Ok? <==> Known(row, c) && row.kind == c.spec.kind && endless && !AnotherAlive(rows, c, i))
            && (result == Ok(Adopted) <==> result.Ok? && !own)
            && (result == Ok(Unchanged) <==> result.Ok? && own && CarriesPolicy(row, c.spec))
            && (result == Ok(Updated) <==> result.Ok? && own && !CarriesPolicy(row, c.spec))
            && (result == Err(UsedByAnotherIdentity) <==> !own && !(Known(row, c) && row.kind == c.spec.kind))
            && (result == Err(KindMismatch) <==> own && row.kind != c.spec.kind)
            && (result == Err(LegacyRevokedOrExpiring) <==>
                 !own && Known(row, c) && row.kind == c.spec.kind && !endless)
            && (result == Err(RevokedOrExpiring) <==> own && row.kind == c.spec.kind && !endless)
            && (result == Err(CanonicalAlreadyActive) <==>
                 Known(row, c) && row.kind == c.spec.kind && endless && AnotherAlive(rows, c, i))
  {
    HoldersAre(rows, c.hash.value, i);
    AtMostOneHolder(rows, c.hash.value);
    AtMostOneAlive(rows, c.spec.name, c.now);
    SingletonIsTheOne(i);
    OthersAre(rows, c, i);
    PolicyIsCarried(rows[i], c.spec);
    KnownNames(rows[i], c);
  }

  lemma KnownNames(row: Row, c: Call)
    ensures Known(row, c) <==> row.name.Some? && (row.name.value == c.spec.name || row.name.value in c.legacyNames)
  {
  }

  lemma PolicyIsCarried(row: Row, spec: Spec)
    ensures CarriesPolicy(row, spec) <==> row.policy == DesiredPolicy(spec, row.hash)
  {
    if CarriesPolicy(row, spec) {
      assert row.policy.fingerprint == row.hash[..|row.policy.fingerprint|];
      assert row.hash[..|row.hash|] == row.hash;
    }
  }

  /** A secret that no row holds. */
  lemma NewSecretOutcome(rows: seq<Row>, c: Call)
    requires c.hash.Some? && NoHolder(rows, c.hash.value) && !TwoAlive(rows, c.spec.name, c.now)
    ensures var result := Reconciled(rows, c).1;
            var named := exists k: nat :: NamedAlive(rows, c.spec.name, c.now, k);
            && (result == Ok(Rotated) <==> FreshId(rows, c.newId) && named)
            && (result == Ok(Created) <==> FreshId(rows, c.newId) && !named)
            && (result == Err(IntegrityViolation) <==> !FreshId(rows, c.newId))
  {
    var active := ActiveNamed(rows, c.spec.name, c.now);
    HoldersAre(rows, c.hash.value, 0);
    AtMostOneAlive(rows, c.spec.name, c.now);
    IdsAre(rows, c.newId);
    forall k: nat ensures k in active <==> NamedAlive(rows, c.spec.name, c.now, k) {
      ActiveIsAlive(rows, c.spec.name, c.now, k);
    }
    if active != {} {
      var k :| k in active;
      assert NamedAlive(rows, c.spec.name, c.now, k);
    }
  }

  // ----- What the rows are afterwards -----

  /** Same row but for name and policy. */
  ghost predicate Relabelled(before: Row, after: Row, spec: Spec) {
    && after.id == before.id && after.hash == before.hash && after.kind == before.kind
    && after.createdAt == before.createdAt && after.revokedAt == before.revokedAt && after.expiresAt == before.expiresAt
    && after.rotatedFrom == before.rotatedFrom
    && after.name == Some(spec.name) && CarriesPolicy(after, spec)
  }

  ghost predicate Fresh(row: Row, c: Call, rotatedFrom: Option<Id>) {
    && row.id == c.newId && c.hash == Some(row.hash) && row.kind == c.spec.kind && row.name == Some(c.spec.name)
    && row.createdAt == c.now && row.revokedAt == None && row.expiresAt == None && row.rotatedFrom == rotatedFrom
    && CarriesPolicy(row, c.spec)
  }

  /** Row i is as said, every other old row is as it was. */
  ghost predicate OnlyChangedAt(before: seq<Row>, after: seq<Row>, i: nat) {
    |before| <= |after| && forall k :: 0 <= k < |before| && k != i ==> after[k] == before[k]
  }

  lemma ResultingRows(rows: seq<Row>, c: Call)
    ensures var (after, result) := Reconciled(rows, c);
            match result
            case Err(_) => after == rows
            case Ok(Rotated) =>
              && |after| == |rows| + 1
              && (exists i: nat :: NamedAlive(rows, c.spec.name, c.now, i) && OnlyChangedAt(rows, after, i)
                    && after[i] == rows[i].(revokedAt := Some(c.now)) && Fresh(after[|rows|], c, Some(rows[i].id)))
            case Ok(Created) => |after| == |rows| + 1 && after[..|rows|] == rows && Fresh(after[|rows|], c, None)
            case Ok(_) =>
              && |after| == |rows|
              && (exists i: nat :: c.hash.Some? && OnlyHolder(rows, c.hash.value, i) && OnlyChangedAt(rows, after, i)
                    && Relabelled(rows[i], after[i], c.spec))
  {
    StepCases(rows, c);
    var (after, result) := Reconciled(rows, c);
    if result.Ok? {
      if result.value.Rotated? {
        RotatedRows(rows, c);
      } else if result.value.Created? {
        PolicyIsCarried(after[|rows|], c.spec);
      } else {
        RelabelledRows(rows, c);
      }
    }
  }

  lemma RotatedRows(rows: seq<Row>, c: Call)
    requires Reconciled(rows, c).1 == Ok(Rotated)
    ensures var after := Reconciled(rows, c).0;
            && |after| == |rows| + 1
            && (exists i: nat :: NamedAlive(rows, c.spec.name, c.now, i) && OnlyChangedAt(rows, after, i)
                  && after[i] == rows[i].(revokedAt := Some(c.now)) && Fresh(after[|rows|], c, Some(rows[i].id)))
  {
    StepCases(rows, c);
    var after := Reconciled(rows, c).0;
    var i: nat :| Rotates(rows, after, i, c);
    assert i in ActiveNamed(rows, c.spec.name, c.now);
    ActiveIsAlive(rows, c.spec.name, c.now, i);
    PolicyIsCarried(after[|rows|], c.spec);
    assert OnlyChangedAt(rows, after, i) && Fresh(after[|rows|], c, Some(rows[i].id));
  }

  lemma RelabelledRows(rows: seq<Row>, c: Call)
    requires Reconciled(rows, c).1.Ok? && Reconciled(rows, c).1.value in {Adopted, Updated, Unchanged}
    ensures var after := Reconciled(rows, c).0;
            && |after| == |rows|
            && (exists i: nat :: c.hash.Some? && OnlyHolder(rows, c.hash.value, i) && OnlyChangedAt(rows, after, i)
                  && Relabelled(rows[i], after[i], c.spec))
  {
    StepCases(rows, c);
    var after := Reconciled(rows, c).0;
    var i: nat :| Relabels(rows, after, i, c);
    KnownHolder(rows, c, i);
    PolicyIsCarried(after[i], c.spec);
    assert OnlyChangedAt(rows, after, i) && Relabelled(rows[i], after[i], c.spec);
  }

  lemma KnownHolder(rows: seq<Row>, c: Call, i: nat)
    requires Reconciled(rows, c).1.Ok? && Reconciled(rows, c).1.value in {Adopted, Updated, Unchanged}
    requires i < |rows| && c.hash == Some(rows[i].hash)
    ensures OnlyHolder(rows, rows[i].hash, i)
  {
    var holders := Holders(rows, rows[i].hash);
    assert i in holders && |holders| == 1;
    SingletonSet(holders);
    HoldersAre(rows, rows[i].hash, i);
  }

  // ----- Transactions -----

  /** A transaction succeeds if and only if every call does on the table that the calls before it leave, and then it
      reports their actions; otherwise it reports the first error. */
  lemma {:induction false} TransactionInSteps(rows: seq<Row>, calls: seq<Call>)
    ensures var run := Transaction(rows, calls);
            && (run.1.Ok? <==> forall k :: 0 <= k < |calls| ==> Succeeds(rows, calls, k))
            && (run.1.Ok? ==> |run.1.value| == |calls| && run.0 == Run(rows, calls))
            && (run.1.Ok? ==> forall k :: 0 <= k < |calls| ==> CallResult(rows, calls, k) == Ok(run.1.value[k]))
            && (run.1.Err? ==> exists k: nat :: FirstFailure(rows, calls, k) && CallResult(rows, calls, k) == Err(run.1.error))
    decreases |calls|
  {
    if calls != [] {
      var next := Reconciled(rows, calls[0]).0;
      TransactionInSteps(next, calls[1..]);
      forall k: nat | 0 < k < |calls| ensures CallResult(rows, calls, k) == CallResult(next, calls[1..], k - 1) {
        assert calls[..k][1..] == calls[1..][..k - 1];
      }
      StepsShift(rows, calls);
    }
  }

  ghost function CallResult(rows: seq<Row>, calls: seq<Call>, k: nat): Result<Action, Error>
    requires k < |calls|
  {
    Reconciled(Run(rows, calls[..k]), calls[k]).1
  }

  ghost predicate Succeeds(rows: seq<Row>, calls: seq<Call>, k: nat)
    requires k < |calls|
  {
    CallResult(rows, calls, k).Ok?
  }

  ghost predicate FirstFailure(rows: seq<Row>, calls: seq<Call>, k: nat) {
    k < |calls| && !Succeeds(rows, calls, k) && forall j :: 0 <= j < k ==> Succeeds(rows, calls, j)
  }

  lemma StepsShift(rows: seq<Row>, calls: seq<Call>)
    requires calls != []
    requires var next := Reconciled(rows, calls[0]).0;
             forall k: nat :: 0 < k < |calls| ==> CallResult(rows, calls, k) == CallResult(next, calls[1..], k - 1)
    ensures CallResult(rows, calls, 0) == Reconciled(rows, calls[0]).1
    ensures var next := Reconciled(rows, calls[0]).0;
            && ((forall k :: 0 <= k < |calls| ==> Succeeds(rows, calls, k)) <==>
                 Succeeds(rows, calls, 0) && forall k :: 0 <= k < |calls| - 1 ==> Succeeds(next, calls[1..], k))
            && forall k: nat :: FirstFailure(next, calls[1..], k) && Succeeds(rows, calls, 0) ==>
                 FirstFailure(rows, calls, k + 1)
  {
    var next := Reconciled(rows, calls[0]).0;
    assert calls[..0] == [];
    assert forall k: nat :: k < |calls| - 1 ==> Succeeds(next, calls[1..], k) == Succeeds(rows, calls, k + 1);
    forall k | 0 <= k < |calls| && k > 0 ensures Succeeds(rows, calls, k) == Succeeds(next, calls[1..], k - 1) {
    }
  }

  /** What a committed transaction leaves for each of its specs, in plain terms: one live row, without expiry, with the
      call's secret, the spec's kind and every field of its policy. */
  lemma CommittedTransactionInPlainTerms(rows: seq<Row>, calls: seq<Call>, t: Instant, c: Call) returns (i: nat)
    requires Inv(rows, t) && Clocked(calls, t) && PairwiseIndependent(calls) && Transaction(rows, calls).1.Ok? && c in calls
    ensures var after, now := Transaction(rows, calls).0, EndTime(calls, t);
            && i < |after| && c.hash == Some(after[i].hash) && OnlyHolder(after, after[i].hash, i)
            && after[i].name == Some(c.spec.name) && after[i].kind == c.spec.kind && CarriesPolicy(after[i], c.spec)
            && after[i].revokedAt.None? && after[i].expiresAt.None?
            && forall k: nat :: NamedAlive(after, c.spec.name, now, k) <==> k == i
  {
    CommittedTransactionHoldsEverySpec(rows, calls, t);
    var after, now := Transaction(rows, calls).0, EndTime(calls, t);
    i :| Holds(after, i, c, now);
    PolicyIsCarried(after[i], c.spec);
    HoldersAre(after, after[i].hash, i);
    forall k: nat ensures NamedAlive(after, c.spec.name, now, k) <==> k == i {
      ActiveIsAlive(after, c.spec.name, now, k);
    }
  }

  // ----- Adoption -----

  /** The names that the three credentials had before. */
  ghost predicate FormerName(spec: Spec, target: Target, name: string) {
    || (spec == QUEUE_HEALTH_SPEC && target == Staging && name == "staging queue health")
    || (spec == QUEUE_HEALTH_SPEC && target == Production && name == "production queue health")
    || (spec == LOOKUP_SERVE_SPEC && target == Staging && name == "staging lookup")
    || (spec == LOOKUP_SERVE_SPEC && target == Production && name == "production lookup")
    || (spec == STATIC_CACHE_SPEC && target == Staging && name == "staging static cache")
    || (spec == STATIC_CACHE_SPEC && target == Production && name == "production static cache")
  }

  lemma EnvNamesDiffer()
    ensures QUEUE_HEALTH_SPEC.envName != LOOKUP_SERVE_SPEC.envName && QUEUE_HEALTH_SPEC.envName != STATIC_CACHE_SPEC.envName
    ensures LOOKUP_SERVE_SPEC.envName != STATIC_CACHE_SPEC.envName
  {
    assert QUEUE_HEALTH_SPEC.envName[6] == 'Q' && LOOKUP_SERVE_SPEC.envName[6] == 'L' && STATIC_CACHE_SPEC.envName[6] == 'S';
  }

  lemma StagingNames()
    ensures LegacyNamesForSpec(QUEUE_HEALTH_SPEC, Staging) == ["staging queue health"]
    ensures LegacyNamesForSpec(LOOKUP_SERVE_SPEC, Staging) == ["staging lookup"]
    ensures LegacyNamesForSpec(STATIC_CACHE_SPEC, Staging) == ["staging static cache"]
  {
    EnvNamesDiffer();
    assert "staging" + " queue health" == "staging queue health" && "staging" + " lookup" == "staging lookup";
    assert "staging" + " static cache" == "staging static cache";
  }

  lemma ProductionNames()
    ensures LegacyNamesForSpec(QUEUE_HEALTH_SPEC, Production) == ["production queue health"]
    ensures LegacyNamesForSpec(LOOKUP_SERVE_SPEC, Production) == ["production lookup"]
    ensures LegacyNamesForSpec(STATIC_CACHE_SPEC, Production) == ["production static cache"]
  {
    EnvNamesDiffer();
    assert "production" + " queue health" == "production queue health" && "production" + " lookup" == "production lookup";
    assert "production" + " static cache" == "production static cache";
  }

  lemma FormerNamesAreLegacy(spec: Spec, target: Target, name: string)
    requires FormerName(spec, target, name)
    ensures LegacyNamesForSpec(spec, target) == [name] && name != spec.name
  {
    StagingNames();
    ProductionNames();
    CanonicalNames();
    assert |spec.name| > 10 && spec.name[7] != ' ' && spec.name[10] != ' ';
    assert name[7] == ' ' || name[10] == ' ';
  }

  /** A live row that holds the secret under its former name is adopted. */
  lemma FormerRowIsAdopted(rows: seq<Row>, i: nat, spec: Spec, target: Target, input: Input)
    requires input.hash.Some? && OnlyHolder(rows, input.hash.value, i)
    requires rows[i].name.Some? && FormerName(spec, target, rows[i].name.value) && rows[i].kind == spec.kind
    requires rows[i].revokedAt.None? && rows[i].expiresAt.None?
    requires forall k: nat :: !NamedAlive(rows, spec.name, input.now, k)
    ensures Reconciled(rows, CallFor(spec, target, input)).1 == Ok(Adopted)
  {
    var name := rows[i].name.value;
    FormerNamesAreLegacy(spec, target, name);
    assert [name][0] == name;
    KnownSecretOutcome(rows, CallFor(spec, target, input), i);
  }
}
