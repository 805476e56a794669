/** What every run of deployment credential reconciliations keeps, and what a committed transaction means. */
module DeploymentCredentialsTheory {
  import opened Results
  import opened Selections
  import opened CredentialRows
  import opened DeploymentCredentials

  // ----- The invariant of the API-key table -----

  ghost predicate UniqueIds(rows: seq<Row>) {
    forall i, j :: 0 <= i < j < |rows| ==> rows[i].id != rows[j].id
  }

  ghost predicate UniqueHashes(rows: seq<Row>) {
    forall i, j :: 0 <= i < j < |rows| ==> rows[i].hash != rows[j].hash
  }

  /** A name (null aside) has at most one active row. */
  ghost predicate OneActivePerName(rows: seq<Row>, now: Instant) {
    forall i, j :: 0 <= i < j < |rows| && rows[i].name.Some? && rows[i].name == rows[j].name ==>
      !(IsActive(rows[i], now) && IsActive(rows[j], now))
  }

  /** Row i was rotated from row j, which was revoked at the very instant row i was created. */
  ghost predicate RotatedFrom(rows: seq<Row>, i: nat, j: nat)
    requires i < |rows| && j < |rows|
  {
    rows[i].rotatedFrom == Some(rows[j].id) && rows[j].revokedAt == Some(rows[i].createdAt)
  }

  /** A rotation link names an earlier row. */
  ghost predicate LinksGoBack(rows: seq<Row>) {
    forall i {:trigger rows[i].rotatedFrom} :: 0 <= i < |rows| && rows[i].rotatedFrom.Some? ==>
      exists j :: 0 <= j < i && RotatedFrom(rows, i, j)
  }

  /** No row has two successors. */
  ghost predicate OneSuccessor(rows: seq<Row>) {
    forall i, j :: 0 <= i < j < |rows| && rows[i].rotatedFrom.Some? ==> rows[i].rotatedFrom != rows[j].rotatedFrom
  }

  ghost predicate Inv(rows: seq<Row>, now: Instant) {
    && UniqueIds(rows)
    && UniqueHashes(rows)
    && OneActivePerName(rows, now)
    && LinksGoBack(rows)
    && OneSuccessor(rows)
  }

  /** History is append-only: identity fields never change, and a row that is revoked or expired is frozen. */
  ghost predicate Extends(before: seq<Row>, after: seq<Row>, now: Instant) {
    && |before| <= |after|
    && forall i :: 0 <= i < |before| ==>
         && after[i].(name := before[i].name, policy := before[i].policy, revokedAt := before[i].revokedAt) == before[i]
         && (!IsActive(before[i], now) ==> after[i] == before[i])
  }

  // ----- One step -----

  /** The four ways a successful call changes the table. */
  ghost predicate Relabels(before: seq<Row>, after: seq<Row>, i: nat, c: Call) {
    && i < |before|
    && IsActive(before[i], c.now) && before[i].expiresAt.None?
    && ActiveNamed(before, c.spec.name, c.now) <= {i}
    && c.hash == Some(before[i].hash)
    && after == before[i := before[i].(name := Some(c.spec.name), policy := DesiredPolicy(c.spec, before[i].hash))]
  }

  ghost predicate Appends(before: seq<Row>, after: seq<Row>, c: Call) {
    && c.hash.Some? && Holders(before, c.hash.value) == {} && c.newId !in IdsOf(before)
    && ActiveNamed(before, c.spec.name, c.now) == {}
    && after == before + [NewRow(c, c.hash.value, None)]
  }

  ghost predicate Rotates(before: seq<Row>, after: seq<Row>, i: nat, c: Call) {
    && i < |before|
    && c.hash.Some? && Holders(before, c.hash.value) == {} && c.newId !in IdsOf(before)
    && ActiveNamed(before, c.spec.name, c.now) == {i}
    && after == before[i := before[i].(revokedAt := Some(c.now))] + [NewRow(c, c.hash.value, Some(before[i].id))]
  }

  lemma StepCases(rows: seq<Row>, c: Call)
    ensures var (after, result) := Reconciled(rows, c);
            match result
            case Err(_) => after == rows
            case Ok(Adopted) => exists i: nat :: Relabels(rows, after, i, c)
            case Ok(Updated) => exists i: nat :: Relabels(rows, after, i, c)
            case Ok(Unchanged) => after == rows && exists i: nat :: Relabels(rows, after, i, c)
            case Ok(Rotated) => exists i: nat :: Rotates(rows, after, i, c)
            case Ok(Created) => Appends(rows, after, c)
  {
    if c.hash.Some? {
      var hash := c.hash.value;
      var holders, active := Holders(rows, hash), ActiveNamed(rows, c.spec.name, c.now);
      var (after, result) := Reconciled(rows, c);
      if |holders| == 1 && |active| <= 1 && result.Ok? {
        var i := TheOne(holders);
        SingletonSet(holders);
        assert i in holders;
        assert active <= {i};
        assert Relabels(rows, after, i, c);
      } else if |holders| == 0 && |active| == 1 && result.Ok? {
        SingletonSet(active);
        assert Rotates(rows, after, TheOne(active), c);
      }
    }
  }

  lemma LaterClockKeepsInv(rows: seq<Row>, t: Instant, now: Instant)
    requires Inv(rows, t) && t <= now
    ensures Inv(rows, now)
  {
    assert forall i :: 0 <= i < |rows| && IsActive(rows[i], now) ==> IsActive(rows[i], t);
  }

  lemma RelabelKeepsInv(before: seq<Row>, after: seq<Row>, i: nat, c: Call)
    requires Inv(before, c.now) && Relabels(before, after, i, c)
    ensures Inv(after, c.now) && Extends(before, after, c.now)
  {
    forall a, b | 0 <= a < b < |after| && after[a].name.Some? && after[a].name == after[b].name
      ensures !(IsActive(after[a], c.now) && IsActive(after[b], c.now))
    {
      var other := if a == i then b else a;
      if (a == i || b == i) && IsActive(before[other], c.now) {
        assert other !in ActiveNamed(before, c.spec.name, c.now);
      }
    }
    LinksSurvive(before, after);
  }

  /** Rows that keep identity, and revocation once set, keep the links. */
  lemma LinksSurvive(before: seq<Row>, after: seq<Row>)
    requires LinksGoBack(before) && |before| <= |after|
    requires forall k :: 0 <= k < |before| ==>
               && after[k].id == before[k].id && after[k].rotatedFrom == before[k].rotatedFrom
               && after[k].createdAt == before[k].createdAt
               && (before[k].revokedAt.Some? ==> after[k].revokedAt == before[k].revokedAt)
    ensures forall k {:trigger after[k].rotatedFrom} :: 0 <= k < |before| && after[k].rotatedFrom.Some? ==>
              exists j :: 0 <= j < k && RotatedFrom(after, k, j)
  {
    forall k | 0 <= k < |before| && after[k].rotatedFrom.Some? ensures exists j :: 0 <= j < k && RotatedFrom(after, k, j) {
      assert before[k].rotatedFrom.Some?;
      var j :| 0 <= j < k && RotatedFrom(before, k, j);
      assert RotatedFrom(after, k, j);
    }
  }

  lemma AppendKeepsInv(before: seq<Row>, after: seq<Row>, c: Call)
    requires Inv(before, c.now) && Appends(before, after, c)
    ensures Inv(after, c.now) && Extends(before, after, c.now)
  {
    var last := |before|;
    forall k | 0 <= k < last
      ensures before[k].id != c.newId && before[k].hash != c.hash.value
      ensures before[k].name == Some(c.spec.name) ==> !IsActive(before[k], c.now)
    {
      assert before[k].id in IdsOf(before);
      assert k !in Holders(before, c.hash.value) && k !in ActiveNamed(before, c.spec.name, c.now);
    }
    LinksSurvive(before, after);
  }

  lemma RotateKeepsInv(before: seq<Row>, after: seq<Row>, i: nat, c: Call)
    requires Inv(before, c.now) && Rotates(before, after, i, c)
    ensures Inv(after, c.now) && Extends(before, after, c.now)
  {
    var last := |before|;
    assert i in ActiveNamed(before, c.spec.name, c.now);
    forall k | 0 <= k < last
      ensures before[k].id != c.newId && before[k].hash != c.hash.value
      ensures before[k].name == Some(c.spec.name) && k != i ==> !IsActive(before[k], c.now)
      ensures before[k].rotatedFrom != Some(before[i].id)
    {
      assert before[k].id in IdsOf(before);
      assert k !in Holders(before, c.hash.value);
      assert k != i ==> k !in ActiveNamed(before, c.spec.name, c.now);
      if before[k].rotatedFrom.Some? {
        var j :| 0 <= j < k && RotatedFrom(before, k, j);
        assert j != i;
      }
    }
    LinksSurvive(before, after);
    assert RotatedFrom(after, last, i);
  }

  /** Every reconciliation, whatever its outcome, keeps the invariant and the history. */
  lemma StepKeepsInvariant(rows: seq<Row>, c: Call, t: Instant)
    requires Inv(rows, t) && t <= c.now
    ensures Inv(Reconciled(rows, c).0, c.now) && Extends(rows, Reconciled(rows, c).0, c.now)
  {
    LaterClockKeepsInv(rows, t, c.now);
    StepCases(rows, c);
    var (after, result) := Reconciled(rows, c);
    if after != rows {
      if i: nat :| Relabels(rows, after, i, c) {
        RelabelKeepsInv(rows, after, i, c);
      } else if i: nat :| Rotates(rows, after, i, c) {
        RotateKeepsInv(rows, after, i, c);
      } else {
        AppendKeepsInv(rows, after, c);
      }
    }
  }

  // ----- Whole runs -----

  /** Any number of reconciliations, of any specs, failing calls included. */
  ghost function Run(rows: seq<Row>, calls: seq<Call>): seq<Row>
    decreases |calls|
  {
    if calls == [] then rows else Run(Reconciled(rows, calls[0]).0, calls[1..])
  }

  /** The clock never goes back. */
  ghost predicate Clocked(calls: seq<Call>, t: Instant) {
    calls == [] || (t <= calls[0].now && Clocked(calls[1..], calls[0].now))
  }

  ghost function EndTime(calls: seq<Call>, t: Instant): Instant {
    if calls == [] then t else EndTime(calls[1..], calls[0].now)
  }

  lemma {:induction false} ClockAdvances(calls: seq<Call>, t: Instant)
    requires Clocked(calls, t)
    ensures t <= EndTime(calls, t)
  {
    if calls != [] { ClockAdvances(calls[1..], calls[0].now); }
  }

  lemma {:induction false} RunKeepsInvariant(rows: seq<Row>, calls: seq<Call>, t: Instant)
    requires Inv(rows, t) && Clocked(calls, t)
    ensures Inv(Run(rows, calls), EndTime(calls, t)) && Extends(rows, Run(rows, calls), t)
    decreases |calls|
  {
    if calls != [] {
      var c := calls[0];
      var next := Reconciled(rows, c).0;
      StepKeepsInvariant(rows, c, t);
      RunKeepsInvariant(next, calls[1..], c.now);
      var last := Run(rows, calls);
      forall i | 0 <= i < |rows| && !IsActive(rows[i], t) ensures last[i] == rows[i] {
        assert !IsActive(rows[i], c.now);
        assert next[i] == rows[i];
      }
    }
  }

  /** A hash that is revoked or expired never becomes active again, under any name. */
  lemma RetiredHashStaysRetired(rows: seq<Row>, calls: seq<Call>, t: Instant, i: nat, j: nat, later: Instant)
    requires Inv(rows, t) && Clocked(calls, t) && EndTime(calls, t) <= later
    requires i < |rows| && !IsActive(rows[i], t)
    requires j < |Run(rows, calls)| && Run(rows, calls)[j].hash == rows[i].hash
    ensures !IsActive(Run(rows, calls)[j], later)
  {
    RunKeepsInvariant(rows, calls, t);
    ClockAdvances(calls, t);
    var last := Run(rows, calls);
    assert last[i] == rows[i];
    assert i == j;
  }

  ghost function Predecessor(rows: seq<Row>, i: nat): (j: nat)
    requires LinksGoBack(rows) && i < |rows| && rows[i].rotatedFrom.Some?
    ensures j < i && RotatedFrom(rows, i, j)
  {
    var j :| 0 <= j < i && RotatedFrom(rows, i, j); j
  }

  /** The rows a row was rotated from, newest first. */
  ghost function Ancestors(rows: seq<Row>, i: nat): (chain: seq<nat>)
    requires LinksGoBack(rows) && i < |rows|
    decreases i
  {
    if rows[i].rotatedFrom.None? then [i] else [i] + Ancestors(rows, Predecessor(rows, i))
  }

  /** Rotation links form no cycle: each chain goes strictly back in creation order, every link joins a row
      to one revoked exactly when it was created, and the chain ends at a row that was not rotated. */
  lemma {:induction false} RotationChainsEnd(rows: seq<Row>, i: nat)
    requires LinksGoBack(rows) && i < |rows|
    ensures var chain := Ancestors(rows, i);
            && |chain| > 0 && chain[0] == i
            && (forall k :: 0 <= k < |chain| ==> chain[k] < |rows|)
            && (forall k {:trigger chain[k + 1]} :: 0 <= k < |chain| - 1 ==>
                  chain[k + 1] < chain[k] && RotatedFrom(rows, chain[k], chain[k + 1]))
            && rows[chain[|chain| - 1]].rotatedFrom.None?
    decreases i
  {
    if rows[i].rotatedFrom.Some? {
      var chain, older := Ancestors(rows, i), Ancestors(rows, Predecessor(rows, i));
      RotationChainsEnd(rows, Predecessor(rows, i));
      forall k | 0 <= k < |chain| - 1
        ensures chain[k + 1] < chain[k] && RotatedFrom(rows, chain[k], chain[k + 1])
      {
        assert chain == [i] + older;
        if k > 0 {
          var m := k - 1;
          assert chain[k] == older[m] && chain[k + 1] == older[m + 1];
        }
      }
    }
  }

  // ----- Committed transactions -----

  /** Row i holds the secret of call c: it is the canonical, active, non-expiring row of the spec, carries the
      spec's kind and policy, and no other row with the spec's name is active. */
  ghost predicate Holds(rows: seq<Row>, i: nat, c: Call, now: Instant) {
    && i < |rows| && c.hash == Some(rows[i].hash)
    && rows[i].name == Some(c.spec.name) && rows[i].kind == c.spec.kind
    && rows[i].revokedAt.None? && rows[i].expiresAt.None?
    && rows[i].policy == DesiredPolicy(c.spec, rows[i].hash)
    && ActiveNamed(rows, c.spec.name, now) == {i}
    && Holders(rows, rows[i].hash) == {i}
  }

  lemma HoldersOfUniqueHash(rows: seq<Row>, i: nat)
    requires UniqueHashes(rows) && i < |rows|
    ensures Holders(rows, rows[i].hash) == {i}
  {
  }

  lemma NewRowHolds(before: seq<Row>, after: seq<Row>, c: Call)
    requires UniqueHashes(after) && c.hash.Some?
    requires Appends(before, after, c) || exists i: nat :: Rotates(before, after, i, c)
    ensures Holds(after, |before|, c, c.now)
  {
    var last := |before|;
    HoldersOfUniqueHash(after, last);
    forall k | k in ActiveNamed(after, c.spec.name, c.now) ensures k == last {
      assert k < last ==> k in ActiveNamed(before, c.spec.name, c.now);
    }
  }

  lemma RelabelledRowHolds(before: seq<Row>, after: seq<Row>, i: nat, c: Call)
    requires UniqueHashes(after) && Relabels(before, after, i, c)
    requires after[i].kind == c.spec.kind
    ensures Holds(after, i, c, c.now)
  {
    HoldersOfUniqueHash(after, i);
    forall k | k in ActiveNamed(after, c.spec.name, c.now) ensures k == i {
      assert k != i ==> k in ActiveNamed(before, c.spec.name, c.now);
    }
  }

  /** Success, by whichever action, leaves the secret with one canonical active row. */
  lemma SuccessHolds(rows: seq<Row>, c: Call, t: Instant)
    requires Inv(rows, t) && t <= c.now && Reconciled(rows, c).1.Ok?
    ensures exists i: nat :: Holds(Reconciled(rows, c).0, i, c, c.now)
  {
    StepKeepsInvariant(rows, c, t);
    StepCases(rows, c);
    var (after, result) := Reconciled(rows, c);
    if result.value.Rotated? || result.value.Created? {
      NewRowHolds(rows, after, c);
    } else {
      var i: nat :| Relabels(rows, after, i, c);
      HoldersOfUniqueHash(rows, i);
      SingletonIsTheOne(i);
      RelabelledRowHolds(rows, after, i, c);
    }
  }

  /** Specs that do not overlap: another name, and neither name is a legacy name of the other. */
  ghost predicate Independent(a: Call, b: Call) {
    && a.spec.name != b.spec.name
    && a.spec.name !in b.legacyNames
    && b.spec.name !in a.legacyNames
  }

  /** A successful call for another spec uses another secret and leaves the holder alone. */
  lemma OtherSpecsDoNotTouch(rows: seq<Row>, i: nat, held: Call, c: Call, t: Instant)
    requires Inv(rows, t) && t <= c.now && Holds(rows, i, held, t)
    requires Independent(held, c) && Reconciled(rows, c).1.Ok?
    ensures held.hash != c.hash
    ensures var after := Reconciled(rows, c).0;
            Holds(after, i, held, c.now) && after[i] == rows[i]
  {
    StepKeepsInvariant(rows, c, t);
    StepCases(rows, c);
    var after := Reconciled(rows, c).0;
    assert i in Holders(rows, rows[i].hash);
    if k: nat :| Relabels(rows, after, k, c) {
      HoldersOfUniqueHash(rows, k);
      SingletonIsTheOne(k);
      assert k != i;
    } else if k: nat :| Rotates(rows, after, k, c) {
      assert k in ActiveNamed(rows, c.spec.name, c.now);
    }
    HoldersOfUniqueHash(after, i);
    forall k | k in ActiveNamed(after, held.spec.name, c.now) ensures k == i {
      assert k < |rows| && k != i ==> k !in ActiveNamed(rows, held.spec.name, t);
    }
  }

  /** A call with the secret already held changes nothing and reports so. */
  lemma HeldSecretIsUnchanged(rows: seq<Row>, i: nat, held: Call, c: Call, t: Instant)
    requires Holds(rows, i, held, t) && t <= c.now && c.hash == held.hash && c.spec == held.spec
    ensures Reconciled(rows, c) == (rows, Ok(Unchanged)) && Holds(rows, i, held, c.now)
  {
    SingletonIsTheOne(i);
    forall k | k in ActiveNamed(rows, c.spec.name, c.now) ensures k == i {
      assert k in ActiveNamed(rows, c.spec.name, t);
    }
    assert i in ActiveNamed(rows, c.spec.name, c.now);
    assert ActiveNamed(rows, c.spec.name, c.now) == {i};
    assert rows[i := rows[i]] == rows;
  }

  lemma {:induction false} HeldThroughTransaction(rows: seq<Row>, i: nat, held: Call, calls: seq<Call>, t: Instant)
    requires Inv(rows, t) && Clocked(calls, t) && Holds(rows, i, held, t)
    requires forall c :: c in calls ==> Independent(held, c)
    requires Transaction(rows, calls).1.Ok?
    ensures var after := Transaction(rows, calls).0;
            Holds(after, i, held, EndTime(calls, t)) && after[i] == rows[i]
    ensures forall c :: c in calls ==> c.hash != held.hash
    decreases |calls|
  {
    if calls != [] {
      assert calls == [calls[0]] + calls[1..];
      StepKeepsInvariant(rows, calls[0], t);
      OtherSpecsDoNotTouch(rows, i, held, calls[0], t);
      HeldThroughTransaction(Reconciled(rows, calls[0]).0, i, held, calls[1..], calls[0].now);
    }
  }

  ghost predicate PairwiseIndependent(calls: seq<Call>) {
    forall i, j :: 0 <= i < j < |calls| ==> Independent(calls[i], calls[j])
  }

  ghost predicate AllHeld(rows: seq<Row>, calls: seq<Call>, now: Instant) {
    forall c :: c in calls ==> exists i: nat :: Holds(rows, i, c, now)
  }

  ghost predicate DistinctSecrets(calls: seq<Call>) {
    forall i, j :: 0 <= i < j < |calls| ==> calls[i].hash != calls[j].hash
  }

  /** A transaction that succeeds was given pairwise distinct secrets, and afterwards every spec has exactly one
      active row: the non-expiring one that carries its own secret, kind and policy. */
  lemma {:induction false} CommittedTransactionHoldsEverySpec(rows: seq<Row>, calls: seq<Call>, t: Instant)
    requires Inv(rows, t) && Clocked(calls, t) && PairwiseIndependent(calls)
    requires Transaction(rows, calls).1.Ok?
    ensures Inv(Transaction(rows, calls).0, EndTime(calls, t))
    ensures AllHeld(Transaction(rows, calls).0, calls, EndTime(calls, t))
    ensures DistinctSecrets(calls)
    decreases |calls|
  {
    if calls != [] {
      var c, rest := calls[0], calls[1..];
      assert calls == [c] + rest;
      var next := Reconciled(rows, c).0;
      StepKeepsInvariant(rows, c, t);
      SuccessHolds(rows, c, t);
      var i: nat :| Holds(next, i, c, c.now);
      HeldThroughTransaction(next, i, c, rest, c.now);
      CommittedTransactionHoldsEverySpec(next, rest, c.now);
    }
  }

  /** The same secrets for the same specs, at any later time. */
  ghost predicate SameSecrets(again: seq<Call>, calls: seq<Call>) {
    |again| == |calls|
    && (calls == [] || (again[0].hash == calls[0].hash && again[0].spec == calls[0].spec && SameSecrets(again[1..], calls[1..])))
  }

  ghost predicate AllUnchanged(actions: seq<Action>) {
    forall a :: a in actions ==> a == Unchanged
  }

  lemma LaterClockKeepsHeld(rows: seq<Row>, calls: seq<Call>, t: Instant, now: Instant)
    requires AllHeld(rows, calls, t) && t <= now
    ensures AllHeld(rows, calls, now)
  {
    forall c | c in calls ensures exists i: nat :: Holds(rows, i, c, now) {
      var i: nat :| Holds(rows, i, c, t);
      HeldSecretIsUnchanged(rows, i, c, c.(now := now), t);
    }
  }

  lemma {:induction false} HeldSecretsAreUnchanged(rows: seq<Row>, calls: seq<Call>, again: seq<Call>, t: Instant)
    requires AllHeld(rows, calls, t) && SameSecrets(again, calls) && Clocked(again, t)
    ensures var run := Transaction(rows, again);
            run.0 == rows && run.1.Ok? && |run.1.value| == |calls| && AllUnchanged(run.1.value)
    decreases |calls|
  {
    if calls != [] {
      assert calls[0] in calls && forall c :: c in calls[1..] ==> c in calls;
      LaterClockKeepsHeld(rows, calls, t, again[0].now);
      var i: nat :| Holds(rows, i, calls[0], t);
      HeldSecretIsUnchanged(rows, i, calls[0], again[0], t);
      HeldSecretsAreUnchanged(rows, calls[1..], again[1..], again[0].now);
    }
  }

  /** Rerunning a committed transaction with the same secrets changes no row and reports every credential
      unchanged. */
  lemma RerunReportsUnchanged(rows: seq<Row>, calls: seq<Call>, again: seq<Call>, t: Instant)
    requires Inv(rows, t) && Clocked(calls, t) && PairwiseIndependent(calls) && Transaction(rows, calls).1.Ok?
    requires SameSecrets(again, calls) && Clocked(again, EndTime(calls, t))
    ensures var after := Transaction(rows, calls).0;
            var run := Transaction(after, again);
            run.0 == after && run.1.Ok? && |run.1.value| == |calls| && AllUnchanged(run.1.value)
  {
    CommittedTransactionHoldsEverySpec(rows, calls, t);
    HeldSecretsAreUnchanged(Transaction(rows, calls).0, calls, again, EndTime(calls, t));
  }

  /** A transaction that succeeds is a run of its calls. */
  lemma {:induction false} TransactionIsARun(rows: seq<Row>, calls: seq<Call>)
    requires Transaction(rows, calls).1.Ok?
    ensures Transaction(rows, calls).0 == Run(rows, calls)
    decreases |calls|
  {
    if calls != [] {
      TransactionIsARun(Reconciled(rows, calls[0]).0, calls[1..]);
    }
  }

  // ----- Any number of transactions -----

  /** The table after transactions one after another: a failed one leaves the table as it was. */
  ghost function Committed(rows: seq<Row>, transactions: seq<seq<Call>>): seq<Row>
    decreases |transactions|
  {
    if transactions == [] then rows
    else
      var run := Transaction(rows, transactions[0]);
      Committed(if run.1.Ok? then run.0 else rows, transactions[1..])
  }

  ghost predicate AllClocked(transactions: seq<seq<Call>>, t: Instant) {
    transactions == [] || (Clocked(transactions[0], t) && AllClocked(transactions[1..], EndTime(transactions[0], t)))
  }

  ghost function LastTime(transactions: seq<seq<Call>>, t: Instant): Instant {
    if transactions == [] then t else LastTime(transactions[1..], EndTime(transactions[0], t))
  }

  lemma LaterExtends(a: seq<Row>, b: seq<Row>, c: seq<Row>, t: Instant, now: Instant)
    requires t <= now && Extends(a, b, t) && Extends(b, c, now)
    ensures Extends(a, c, t)
  {
    forall i | 0 <= i < |a| && !IsActive(a[i], t) ensures c[i] == a[i] {
      assert b[i] == a[i] && !IsActive(b[i], now);
    }
  }

  /** Over any number of transactions, committed or rolled back, the invariant and the history are kept. */
  lemma {:induction false} TransactionsKeepInvariant(rows: seq<Row>, transactions: seq<seq<Call>>, t: Instant)
    requires Inv(rows, t) && AllClocked(transactions, t)
    ensures t <= LastTime(transactions, t)
    ensures Inv(Committed(rows, transactions), LastTime(transactions, t))
    ensures Extends(rows, Committed(rows, transactions), t)
    decreases |transactions|
  {
    if transactions != [] {
      var calls, end := transactions[0], EndTime(transactions[0], t);
      var run := Transaction(rows, calls);
      var next := if run.1.Ok? then run.0 else rows;
      ClockAdvances(calls, t);
      LaterClockKeepsInv(rows, t, end);
      if run.1.Ok? {
        RunKeepsInvariant(rows, calls, t);
        TransactionIsARun(rows, calls);
      }
      TransactionsKeepInvariant(next, transactions[1..], end);
      LaterExtends(rows, next, Committed(rows, transactions), t, end);
    }
  }

  /** No number of transactions makes a revoked or expired hash active again, under any name. */
  lemma RetiredHashStaysRetiredForGood(rows: seq<Row>, transactions: seq<seq<Call>>, t: Instant, i: nat, j: nat, later: Instant)
    requires Inv(rows, t) && AllClocked(transactions, t) && t <= later
    requires i < |rows| && !IsActive(rows[i], t)
    requires j < |Committed(rows, transactions)| && Committed(rows, transactions)[j].hash == rows[i].hash
    ensures !IsActive(Committed(rows, transactions)[j], later)
  {
    TransactionsKeepInvariant(rows, transactions, t);
    var last := Committed(rows, transactions);
    assert last[i] == rows[i];
    assert i == j;
  }

  /** A legacy name has a blank right after the target's name, a canonical name has none there. */
  lemma NotALegacyName(name: string, spec: Spec, target: Target)
    requires |name| > 10 && name[7] != ' ' && name[10] != ' '
    ensures name !in LegacyNamesForSpec(spec, target)
  {
    forall legacy | legacy in LegacyNamesForSpec(spec, target) ensures legacy != name {
      assert legacy[|TargetName(target)|] == ' ';
    }
  }

  lemma CanonicalNames()
    ensures forall spec :: spec in {QUEUE_HEALTH_SPEC, LOOKUP_SERVE_SPEC, STATIC_CACHE_SPEC} ==>
              |spec.name| > 10 && spec.name[7] != ' ' && spec.name[10] != ' '
    ensures QUEUE_HEALTH_SPEC.name[1] == 'e' && LOOKUP_SERVE_SPEC.name[1] == 'a' && STATIC_CACHE_SPEC.name[1] == 't'
  {
  }

  lemma IndependentDeploymentCalls(a: Spec, b: Spec, target: Target, x: Input, y: Input)
    requires |a.name| > 10 && a.name[7] != ' ' && a.name[10] != ' '
    requires |b.name| > 10 && b.name[7] != ' ' && b.name[10] != ' '
    requires a.name[1] != b.name[1]
    ensures Independent(CallFor(a, target, x), CallFor(b, target, y))
  {
    NotALegacyName(a.name, b, target);
    NotALegacyName(b.name, a, target);
  }

  /** The three deployment specs do not overlap, in either target, so the results above apply to them. */
  lemma DeploymentSpecsAreIndependent(target: Target, queueHealth: Input, lookup: Input, staticCache: Input)
    ensures PairwiseIndependent(DeploymentCalls(target, queueHealth, lookup, staticCache))
  {
    CanonicalNames();
    IndependentDeploymentCalls(QUEUE_HEALTH_SPEC, LOOKUP_SERVE_SPEC, target, queueHealth, lookup);
    IndependentDeploymentCalls(QUEUE_HEALTH_SPEC, STATIC_CACHE_SPEC, target, queueHealth, staticCache);
    IndependentDeploymentCalls(LOOKUP_SERVE_SPEC, STATIC_CACHE_SPEC, target, lookup, staticCache);
  }
}
