/** What every run of fetcher credential reconciliations keeps, and how soon it reaches a fixed point. */
module FetcherCredentialsTheory {
  import opened SequenceFacts
  import opened Results
  import opened Selections
  import opened CredentialRows
  import opened Sorting
  import opened FetcherCredentials

  // ----- The scope list -----

  lemma DatasetOrder()
    ensures TotalOrder(DatasetLeq)
  {
    TextOrder();
  }

  lemma NonEmptyHasMember(list: seq<Dataset>)
    ensures list != [] ==> exists d :: d in list
  {
    if list != [] { assert list[0] in list; }
  }

  lemma {:induction false} WithoutSplits(a: seq<Dataset>, b: seq<Dataset>, removed: seq<Dataset>)
    ensures Without(a + b, removed) == Without(a, removed) + Without(b, removed)
  {
    if a == [] {
      assert a + b == b;
    } else {
      assert (a + b)[1..] == a[1..] + b && (a + b)[0] == a[0];
      WithoutSplits(a[1..], b, removed);
      assert [a[0]] + (Without(a[1..], removed) + Without(b, removed))
          == ([a[0]] + Without(a[1..], removed)) + Without(b, removed);
    }
  }

  lemma {:induction false} WithoutNone(list: seq<Dataset>, removed: seq<Dataset>)
    requires forall d :: d in list ==> d !in removed
    ensures Without(list, removed) == list
  {
    if list != [] { WithoutNone(list[1..], removed); }
  }

  lemma WithoutAll(list: seq<Dataset>, removed: seq<Dataset>)
    requires forall d :: d in list ==> d in removed
    ensures Without(list, removed) == []
  {
    NonEmptyHasMember(Without(list, removed));
  }

  lemma {:induction false} WithinSplits(a: seq<Dataset>, b: seq<Dataset>, kept: seq<Dataset>)
    ensures Within(a + b, kept) == Within(a, kept) + Within(b, kept)
  {
    if a == [] {
      assert a + b == b;
    } else {
      WithinSplits(a[1..], b, kept);
      assert (a + b)[1..] == a[1..] + b;
    }
  }

  lemma {:induction false} WithinAll(list: seq<Dataset>, kept: seq<Dataset>)
    requires forall d :: d in list ==> d in kept
    ensures Within(list, kept) == list
  {
    if list != [] { WithinAll(list[1..], kept); }
  }

  lemma {:induction false} FirstOccurrencesDistinct(list: seq<Dataset>)
    ensures Distinct(FirstOccurrences(list))
    decreases |list|
  {
    if list != [] {
      FirstOccurrencesDistinct(Without(list[1..], [list[0]]));
      assert list[0] !in FirstOccurrences(Without(list[1..], [list[0]]));
    }
  }

  /** Distinct entries followed by repetitions of them come out as they are. */
  lemma {:induction false} FirstOccurrencesOfRepetitions(a: seq<Dataset>, b: seq<Dataset>)
    requires Distinct(a) && forall d :: d in b ==> d in a
    ensures FirstOccurrences(a + b) == a
    decreases |a|
  {
    if a == [] {
      NonEmptyHasMember(b);
    } else {
      var x, rest := [a[0]], a[1..];
      assert (a + b)[1..] == rest + b;
      WithoutSplits(rest, b, x);
      WithoutNone(rest, x);
      FirstOccurrencesOfRepetitions(rest, Without(b, x));
    }
  }

  /** The sorted tail of a desired list: distinct datasets of the profile outside the spec. */
  lemma SortedTail(held: seq<Dataset>, own: seq<Dataset>, maximum: seq<Dataset>, tail: seq<Dataset>)
    requires tail == Sort(FirstOccurrences(Without(Within(held, maximum), own)), DatasetLeq)
    ensures Distinct(tail) && Sorted(tail, DatasetLeq) && TotalOrder(DatasetLeq)
    ensures forall d :: d in tail ==> d in maximum && d !in own
  {
    var found := FirstOccurrences(Without(Within(held, maximum), own));
    DatasetOrder();
    SortSorted(found, DatasetLeq);
    FirstOccurrencesDistinct(Without(Within(held, maximum), own));
    PermutationFacts(tail, found);
    forall d | d in tail ensures d in maximum && d !in own {
      assert d in multiset(tail);
      assert d in found;
    }
  }

  lemma TailIsFound(own: seq<Dataset>, tail: seq<Dataset>, maximum: seq<Dataset>)
    requires forall d :: d in tail ==> d in maximum && d !in own
    ensures Without(Within(own + tail, maximum), own) == tail
  {
    WithinSplits(own, tail, maximum);
    WithinAll(tail, maximum);
    WithoutSplits(Within(own, maximum), tail, own);
    WithoutAll(Within(own, maximum), own);
    WithoutNone(tail, own);
  }

  /** Bringing the scope list up to date twice is bringing it up to date once. */
  lemma DesiredDatasetsFixed(held: seq<Dataset>, spec: Spec, maximum: seq<Dataset>)
    ensures var list := DesiredDatasets(held, spec, maximum);
            DesiredDatasets(list, spec, maximum) == list
  {
    var own := spec.allowedDatasets;
    var tail := Sort(FirstOccurrences(Without(Within(held, maximum), own)), DatasetLeq);
    SortedTail(held, own, maximum, tail);
    TailIsFound(own, tail, maximum);
    FirstOccurrencesOfRepetitions(tail, []);
    assert tail + [] == tail;
    SortOfSorted(tail, DatasetLeq);
  }

  /** With a spec that the profile lists, nothing beyond the spec is retained. */
  lemma DesiredWithinProfile(held: seq<Dataset>, spec: Spec)
    ensures DesiredDatasets(held, spec, spec.allowedDatasets) == spec.allowedDatasets
  {
    WithoutAll(Within(held, spec.allowedDatasets), spec.allowedDatasets);
    assert spec.allowedDatasets + [] == spec.allowedDatasets;
  }

  ghost predicate DistinctSources(profile: seq<Spec>) {
    forall i, j :: 0 <= i < j < |profile| ==> profile[i].sourceName != profile[j].sourceName
  }

  lemma {:induction false} MaximumOfListedSpec(profile: seq<Spec>, spec: Spec)
    requires DistinctSources(profile) && spec in profile
    ensures Maximum(profile, spec) == spec.allowedDatasets
  {
    if profile[0] != spec {
      MaximumOfListedSpec(profile[1..], spec);
    }
  }

  // ----- Policies settle -----

  ghost predicate Settled(row: Row, c: Call) {
    row.policy == DesiredPolicy(row, c)
  }

  ghost predicate SameInputs(again: Call, c: Call) {
    again.hash == c.hash && again.spec == c.spec && again.profile == c.profile
  }

  lemma ApplySettles(row: Row, c: Call, again: Call)
    requires SameInputs(again, c)
    ensures Settled(ApplySourcePolicy(row, c), again)
  {
    DesiredDatasetsFixed(Listed(row.policy.allowedDatasets), c.spec, Maximum(c.profile, c.spec));
  }

  lemma CreatedSettles(c: Call, hash: string, rotatedFrom: Option<Id>)
    requires c.spec in c.profile && DistinctSources(c.profile)
    ensures Settled(NewRow(c, hash, c.spec, rotatedFrom), c)
  {
    MaximumOfListedSpec(c.profile, c.spec);
    DesiredWithinProfile(c.spec.allowedDatasets, c.spec);
  }

  /** The row that a rotation creates already has its final policy exactly when the rotated row held no dataset
      outside the spec. */
  lemma RotatedSettlesIff(c: Call, hash: string, previous: Row, rotatedFrom: Option<Id>)
    requires c.spec in c.profile && DistinctSources(c.profile) && Distinct(c.spec.allowedDatasets)
    ensures Settled(NewRow(c, hash, CarriedOver(c.spec, previous), rotatedFrom), c)
       <==> forall d :: d in Listed(previous.policy.allowedDatasets) ==> d in c.spec.allowedDatasets
  {
    var own, held := c.spec.allowedDatasets, Listed(previous.policy.allowedDatasets);
    var carried := FirstOccurrences(own + held);
    MaximumOfListedSpec(c.profile, c.spec);
    DesiredWithinProfile(carried, c.spec);
    if forall d :: d in held ==> d in own {
      FirstOccurrencesOfRepetitions(own, held);
    } else {
      var d :| d in held && d !in own;
      assert d in carried;
    }
  }

  // ----- The invariant of the source-client table -----

  /** Row i replaced row j: j was revoked at the instant i was created, and i never grants a lower rate limit. */
  ghost predicate Replaced(rows: seq<Row>, i: nat, j: nat)
    requires i < |rows| && j < |rows|
  {
    && rows[i].rotatedFrom == Some(rows[j].id)
    && rows[j].revokedAt == Some(rows[i].createdAt)
    && rows[j].policy.rateLimitRequests <= rows[i].policy.rateLimitRequests
  }

  ghost predicate Linked(rows: seq<Row>, i: nat)
    requires i < |rows|
  {
    rows[i].rotatedFrom.Some? ==> exists j :: 0 <= j < i && Replaced(rows, i, j)
  }

  ghost predicate Inv(rows: seq<Row>, now: Instant) {
    && (forall i, j :: 0 <= i < j < |rows| ==> rows[i].id != rows[j].id && rows[i].hash != rows[j].hash)
    && (forall i, j :: 0 <= i < j < |rows| && rows[i].name == rows[j].name ==>
          !(IsActive(rows[i], now) && IsActive(rows[j], now)))
    && (forall i :: 0 <= i < |rows| ==> Linked(rows, i))
  }

  lemma LaterClockKeepsInv(rows: seq<Row>, t: Instant, now: Instant)
    requires Inv(rows, t) && t <= now
    ensures Inv(rows, now)
  {
    assert forall i :: 0 <= i < |rows| && IsActive(rows[i], now) ==> IsActive(rows[i], t);
  }

  /** A successful call on a known hash brings the policy of its row up to date, nothing else. */
  ghost predicate Updates(before: seq<Row>, after: seq<Row>, i: nat, c: Call) {
    && i < |before| && before[i].hash == c.hash
    && before[i].name == c.spec.name && before[i].sourceName == c.spec.sourceName
    && IsActive(before[i], c.now) && before[i].expiresAt.None?
    && ActiveNamed(before, c.spec.name, c.now) <= {i}
    && after == before[i := ApplySourcePolicy(before[i], c)]
  }

  ghost predicate Unknown(before: seq<Row>, c: Call) {
    Holders(before, c.hash) == {} && c.newId !in IdsOf(before)
  }

  ghost predicate Creates(before: seq<Row>, after: seq<Row>, c: Call) {
    && Unknown(before, c) && ActiveNamed(before, c.spec.name, c.now) == {}
    && after == before + [NewRow(c, c.hash, c.spec, None)]
  }

  ghost predicate Rotates(before: seq<Row>, after: seq<Row>, i: nat, c: Call) {
    && i < |before| && Unknown(before, c) && ActiveNamed(before, c.spec.name, c.now) == {i}
    && after == before[i := Revoke(before[i], c.now)]
              + [NewRow(c, c.hash, CarriedOver(c.spec, before[i]), Some(before[i].id))]
  }

  lemma StepCases(rows: seq<Row>, c: Call)
    ensures var (after, result) := Reconciled(rows, c);
            match result
            case Err(_) => after == rows
            case Ok(Updated) => exists i: nat :: Updates(rows, after, i, c) && !Settled(rows[i], c)
            case Ok(Unchanged) => after == rows && exists i: nat :: Updates(rows, after, i, c) && Settled(rows[i], c)
            case Ok(Rotated) => exists i: nat :: Rotates(rows, after, i, c)
            case Ok(Created) => Creates(rows, after, c)
  {
    if ValidHash(c.hash) {
      var holders, active := Holders(rows, c.hash), ActiveNamed(rows, c.spec.name, c.now);
      var (after, result) := Reconciled(rows, c);
      if |holders| == 1 && |active| <= 1 && result.Ok? {
        var i := TheOne(holders);
        SingletonSet(holders);
        assert i in holders && active <= {i};
        assert Updates(rows, after, i, c);
      } else if |holders| == 0 && |active| == 1 && result.Ok? {
        SingletonSet(active);
        assert Rotates(rows, after, TheOne(active), c);
      }
    }
  }

  lemma UnknownIsNew(rows: seq<Row>, c: Call, k: nat)
    requires Unknown(rows, c) && k < |rows|
    ensures rows[k].id != c.newId && rows[k].hash != c.hash
  {
    assert rows[k].id in IdsOf(rows);
    assert k !in Holders(rows, c.hash);
  }

  lemma NamedOnlyBy(rows: seq<Row>, name: string, now: Instant, i: nat, k: nat)
    requires k < |rows| && k != i && ActiveNamed(rows, name, now) <= {i} && rows[k].name == name
    ensures !IsActive(rows[k], now)
  {
    assert k !in ActiveNamed(rows, name, now);
  }

  /** Changing one live row in place: links survive if it keeps its identity and its rate limit does not drop,
      and gains a revocation only if it had none. */
  lemma LinkSurvives(before: seq<Row>, after: seq<Row>, i: nat, k: nat)
    requires k < |before| <= |after| && i < |before| && Linked(before, k)
    requires forall m :: 0 <= m < |before| && m != i ==> after[m] == before[m]
    requires after[i].id == before[i].id && after[i].rotatedFrom == before[i].rotatedFrom
    requires after[i].createdAt == before[i].createdAt && before[i].revokedAt.None?
    requires before[i].policy.rateLimitRequests <= after[i].policy.rateLimitRequests
    ensures Linked(after, k)
  {
    if after[k].rotatedFrom.Some? {
      var j :| 0 <= j < k && Replaced(before, k, j);
      assert j != i;
      assert Replaced(after, k, j);
    }
  }

  lemma UpdateKeepsInv(before: seq<Row>, after: seq<Row>, i: nat, c: Call)
    requires Inv(before, c.now) && Updates(before, after, i, c)
    ensures Inv(after, c.now)
  {
    forall k | 0 <= k < |after| ensures Linked(after, k) {
      LinkSurvives(before, after, i, k);
    }
  }

  lemma CreateKeepsInv(before: seq<Row>, after: seq<Row>, c: Call)
    requires Inv(before, c.now) && Creates(before, after, c)
    ensures Inv(after, c.now)
  {
    forall k | 0 <= k < |before|
      ensures before[k].id != c.newId && before[k].hash != c.hash
      ensures before[k].name == c.spec.name ==> !IsActive(before[k], c.now)
      ensures Linked(after, k)
    {
      UnknownIsNew(before, c, k);
      if before[k].name == c.spec.name { NamedOnlyBy(before, c.spec.name, c.now, |before|, k); }
      assert Linked(before, k);
      if before[k].rotatedFrom.Some? {
        var j :| 0 <= j < k && Replaced(before, k, j);
        assert Replaced(after, k, j);
      }
    }
  }

  lemma RotateKeepsInv(before: seq<Row>, after: seq<Row>, i: nat, c: Call)
    requires Inv(before, c.now) && Rotates(before, after, i, c)
    ensures Inv(after, c.now)
  {
    assert i in ActiveNamed(before, c.spec.name, c.now);
    forall k | 0 <= k < |before|
      ensures before[k].id != c.newId && before[k].hash != c.hash
      ensures before[k].name == c.spec.name && k != i ==> !IsActive(before[k], c.now)
      ensures Linked(after, k)
    {
      UnknownIsNew(before, c, k);
      if before[k].name == c.spec.name && k != i { NamedOnlyBy(before, c.spec.name, c.now, i, k); }
      LinkSurvives(before, after, i, k);
    }
    assert Replaced(after, |before|, i);
  }

  /** History is append-only: identity fields never change, a rate limit never drops, and a row that is revoked or
      expired is frozen. */
  ghost predicate Extends(before: seq<Row>, after: seq<Row>, now: Instant) {
    && |before| <= |after|
    && forall k :: 0 <= k < |before| ==> Keeps(before[k], after[k], now)
  }

  ghost predicate Keeps(before: Row, after: Row, now: Instant) {
    && after.id == before.id && after.hash == before.hash && after.name == before.name
    && after.sourceName == before.sourceName && after.createdAt == before.createdAt
    && after.rotatedFrom == before.rotatedFrom
    && before.policy.rateLimitRequests <= after.policy.rateLimitRequests
    && (!IsActive(before, now) ==> after == before)
  }

  lemma StepExtends(rows: seq<Row>, c: Call)
    ensures Extends(rows, Reconciled(rows, c).0, c.now)
  {
    StepCases(rows, c);
    var after := Reconciled(rows, c).0;
    if k: nat :| Rotates(rows, after, k, c) {
      assert k in ActiveNamed(rows, c.spec.name, c.now);
    }
  }

  lemma StepKeepsInvariant(rows: seq<Row>, c: Call, t: Instant)
    requires Inv(rows, t) && t <= c.now
    ensures Inv(Reconciled(rows, c).0, c.now)
  {
    LaterClockKeepsInv(rows, t, c.now);
    StepCases(rows, c);
    var after := Reconciled(rows, c).0;
    if after != rows {
      if i: nat :| Updates(rows, after, i, c) {
        UpdateKeepsInv(rows, after, i, c);
      } else if i: nat :| Rotates(rows, after, i, c) {
        RotateKeepsInv(rows, after, i, c);
      } else {
        CreateKeepsInv(rows, after, c);
      }
    }
  }

  // ----- Whole runs -----

  ghost function Run(rows: seq<Row>, calls: seq<Call>): seq<Row>
    decreases |calls|
  {
    if calls == [] then rows else Run(Reconciled(rows, calls[0]).0, calls[1..])
  }

  /** The clock never goes back. */
  ghost predicate Clocked(calls: seq<Call>, t: Instant) {
    calls == [] || (t <= calls[0].now && Clocked(calls[1..], calls[0].now))
  }

  ghost function EndTime(calls: seq<Call>, t: Instant): Instant {
    if calls == [] then t else EndTime(calls[1..], calls[0].now)
  }

  /** Over any run, failing calls included: identifiers and hashes stay unique, a name keeps at most one active
      row, and every rotation link leads to an earlier row that was revoked when its successor was created and
      whose rate limit the successor does not undercut. */
  lemma {:induction false} RunKeepsInvariant(rows: seq<Row>, calls: seq<Call>, t: Instant)
    requires Inv(rows, t) && Clocked(calls, t)
    ensures Inv(Run(rows, calls), EndTime(calls, t)) && Extends(rows, Run(rows, calls), t)
    ensures t <= EndTime(calls, t)
    decreases |calls|
  {
    if calls != [] {
      var next := Reconciled(rows, calls[0]).0;
      StepKeepsInvariant(rows, calls[0], t);
      StepExtends(rows, calls[0]);
      RunKeepsInvariant(next, calls[1..], calls[0].now);
      ExtendsOnward(rows, next, Run(rows, calls), t, calls[0].now);
    }
  }

  lemma ExtendsOnward(a: seq<Row>, b: seq<Row>, c: seq<Row>, t: Instant, now: Instant)
    requires t <= now && Extends(a, b, now) && Extends(b, c, now)
    ensures Extends(a, c, t)
  {
    forall k | 0 <= k < |a| ensures Keeps(a[k], c[k], t) {
      assert Keeps(a[k], b[k], now) && Keeps(b[k], c[k], now);
    }
  }

  /** A hash that is revoked or expired never becomes active again. */
  lemma RetiredHashStaysRetired(rows: seq<Row>, calls: seq<Call>, t: Instant, i: nat, j: nat, later: Instant)
    requires Inv(rows, t) && Clocked(calls, t) && t <= later
    requires i < |rows| && !IsActive(rows[i], t)
    requires j < |Run(rows, calls)| && Run(rows, calls)[j].hash == rows[i].hash
    ensures !IsActive(Run(rows, calls)[j], later)
  {
    RunKeepsInvariant(rows, calls, t);
    assert Keeps(rows[i], Run(rows, calls)[i], t);
    assert i == j;
  }

  // ----- Sessions and their fixed point -----

  /** Row i is the one active row of call c's spec and carries its hash, without expiry. */
  ghost predicate Holds(rows: seq<Row>, i: nat, c: Call, now: Instant) {
    && i < |rows| && ValidHash(c.hash) && rows[i].hash == c.hash
    && rows[i].name == c.spec.name && rows[i].sourceName == c.spec.sourceName
    && rows[i].revokedAt.None? && rows[i].expiresAt.None?
    && ActiveNamed(rows, c.spec.name, now) == {i}
    && Holders(rows, c.hash) == {i}
  }

  lemma NewRowHolds(before: seq<Row>, after: seq<Row>, c: Call)
    requires Creates(before, after, c) || exists k: nat :: Rotates(before, after, k, c)
    requires ValidHash(c.hash)
    ensures Holds(after, |before|, c, c.now)
  {
    var i := |before|;
    assert i in Holders(after, c.hash);
    forall k | k in Holders(after, c.hash) ensures k == i {
      assert k < i ==> k in Holders(before, c.hash);
    }
    forall k | k in ActiveNamed(after, c.spec.name, c.now) ensures k == i {
      assert k < i ==> k in ActiveNamed(before, c.spec.name, c.now);
    }
  }

  lemma UpdatedRowHolds(rows: seq<Row>, after: seq<Row>, i: nat, c: Call)
    requires Inv(rows, c.now) && Updates(rows, after, i, c) && ValidHash(c.hash)
    ensures Holds(after, i, c, c.now)
  {
    assert i in Holders(after, c.hash);
    forall k | k in Holders(after, c.hash) ensures k == i {
      assert k in Holders(rows, c.hash);
    }
    forall k | k in ActiveNamed(after, c.spec.name, c.now) ensures k == i {
      assert k != i ==> k in ActiveNamed(rows, c.spec.name, c.now);
    }
  }

  lemma SuccessHolds(rows: seq<Row>, c: Call, t: Instant) returns (i: nat)
    requires Inv(rows, t) && t <= c.now && Reconciled(rows, c).1.Ok?
    ensures Holds(Reconciled(rows, c).0, i, c, c.now)
    ensures Reconciled(rows, c).1.value in {Rotated, Created} ==> i == |rows|
  {
    LaterClockKeepsInv(rows, t, c.now);
    StepCases(rows, c);
    var (after, result) := Reconciled(rows, c);
    if result.value.Rotated? || result.value.Created? {
      i := |rows|;
      NewRowHolds(rows, after, c);
    } else {
      i :| Updates(rows, after, i, c);
      UpdatedRowHolds(rows, after, i, c);
    }
  }

  /** Row i keeps holding if it is untouched and every other row of its name stays as inactive as it was. */
  lemma StillHolds(rows: seq<Row>, after: seq<Row>, i: nat, held: Call, t: Instant, now: Instant)
    requires Holds(rows, i, held, t) && Inv(after, now) && t <= now
    requires |rows| <= |after| && after[i] == rows[i]
    requires forall k :: 0 <= k < |after| && after[k].name == held.spec.name && IsActive(after[k], now) ==>
               k < |rows| && rows[k].name == held.spec.name && IsActive(rows[k], t)
    ensures Holds(after, i, held, now)
  {
    assert i in Holders(after, held.hash);
    forall k | k in ActiveNamed(after, held.spec.name, now) ensures k == i {
      assert k in ActiveNamed(rows, held.spec.name, t);
    }
  }

  /** A successful call for another name leaves the holder alone. */
  lemma OtherSpecsDoNotTouch(rows: seq<Row>, i: nat, held: Call, c: Call, t: Instant)
    requires Inv(rows, t) && t <= c.now && Holds(rows, i, held, t)
    requires held.spec.name != c.spec.name && Reconciled(rows, c).1.Ok?
    ensures var after := Reconciled(rows, c).0;
            Holds(after, i, held, c.now) && after[i] == rows[i]
  {
    StepKeepsInvariant(rows, c, t);
    StepCases(rows, c);
    var after := Reconciled(rows, c).0;
    if k: nat :| Updates(rows, after, k, c) {
      assert k != i;
    } else if k: nat :| Rotates(rows, after, k, c) {
      assert k in ActiveNamed(rows, c.spec.name, c.now);
    }
    StillHolds(rows, after, i, held, t, c.now);
  }

  /** A call for a held hash succeeds: it brings the policy up to date, or changes nothing if it is settled. */
  lemma HeldHashIsUpdated(rows: seq<Row>, i: nat, held: Call, c: Call, t: Instant)
    requires Holds(rows, i, held, t) && t <= c.now && SameInputs(c, held)
    ensures Reconciled(rows, c)
         == (rows[i := ApplySourcePolicy(rows[i], c)], Ok(if Settled(rows[i], c) then Unchanged else Updated))
    ensures Settled(rows[i], c) ==> Reconciled(rows, c).0 == rows
    ensures Holds(rows, i, held, c.now)
  {
    SingletonIsTheOne(i);
    forall k | k in ActiveNamed(rows, c.spec.name, c.now) ensures k == i {
      assert k in ActiveNamed(rows, c.spec.name, t);
    }
    assert i in ActiveNamed(rows, c.spec.name, c.now);
    assert ActiveNamed(rows, c.spec.name, c.now) == {i};
  }

  ghost predicate DistinctNames(calls: seq<Call>) {
    forall i, j :: 0 <= i < j < |calls| ==> calls[i].spec.name != calls[j].spec.name
  }

  ghost predicate Held(rows: seq<Row>, c: Call, now: Instant) {
    exists i: nat :: Holds(rows, i, c, now)
  }

  ghost predicate HeldAndSettled(rows: seq<Row>, c: Call, now: Instant) {
    exists i: nat :: Holds(rows, i, c, now) && Settled(rows[i], c)
  }

  ghost predicate AllHeld(rows: seq<Row>, calls: seq<Call>, now: Instant) {
    calls == [] || (Held(rows, calls[0], now) && AllHeld(rows, calls[1..], now))
  }

  ghost predicate AllSettled(rows: seq<Row>, calls: seq<Call>, now: Instant) {
    calls == [] || (HeldAndSettled(rows, calls[0], now) && AllSettled(rows, calls[1..], now))
  }

  /** The rest of a session leaves what an earlier call holds. */
  lemma {:induction false} KeptThroughTransaction(rows: seq<Row>, i: nat, held: Call, calls: seq<Call>, t: Instant)
    requires Inv(rows, t) && Clocked(calls, t) && Holds(rows, i, held, t)
    requires forall k :: 0 <= k < |calls| ==> calls[k].spec.name != held.spec.name
    requires Transaction(rows, calls).1.Ok?
    ensures var after := Transaction(rows, calls).0;
            Holds(after, i, held, EndTime(calls, t)) && after[i] == rows[i]
    decreases |calls|
  {
    if calls != [] {
      StepKeepsInvariant(rows, calls[0], t);
      OtherSpecsDoNotTouch(rows, i, held, calls[0], t);
      KeptThroughTransaction(Reconciled(rows, calls[0]).0, i, held, calls[1..], calls[0].now);
    }
  }

  lemma {:induction false} CommittedSessionHoldsEverySpec(rows: seq<Row>, calls: seq<Call>, t: Instant)
    requires Inv(rows, t) && Clocked(calls, t) && DistinctNames(calls) && Transaction(rows, calls).1.Ok?
    ensures Inv(Transaction(rows, calls).0, EndTime(calls, t))
    ensures AllHeld(Transaction(rows, calls).0, calls, EndTime(calls, t))
    decreases |calls|
  {
    if calls != [] {
      var c, rest := calls[0], calls[1..];
      StepKeepsInvariant(rows, c, t);
      var i := SuccessHolds(rows, c, t);
      KeptThroughTransaction(Reconciled(rows, c).0, i, c, rest, c.now);
      CommittedSessionHoldsEverySpec(Reconciled(rows, c).0, rest, c.now);
    }
  }

  /** The same hashes for the same specs, at any later time. */
  ghost predicate SameSession(again: seq<Call>, calls: seq<Call>) {
    |again| == |calls| && (calls == [] || (SameInputs(again[0], calls[0]) && SameSession(again[1..], calls[1..])))
  }

  lemma {:induction false} SettledLater(rows: seq<Row>, calls: seq<Call>, t: Instant, now: Instant)
    requires t <= now && AllSettled(rows, calls, t)
    ensures AllSettled(rows, calls, now)
  {
    if calls != [] {
      var i: nat :| Holds(rows, i, calls[0], t) && Settled(rows[i], calls[0]);
      HeldHashIsUpdated(rows, i, calls[0], calls[0].(now := now), t);
      SettledLater(rows, calls[1..], t, now);
    }
  }

  ghost predicate NoRotation(actions: seq<Action>) {
    forall a :: a in actions ==> a == Updated || a == Unchanged
  }

  lemma NoRotationCons(a: Action, rest: seq<Action>)
    requires a in {Updated, Unchanged} && NoRotation(rest)
    ensures NoRotation([a] + rest)
  {
  }

  /** The first call of a rerun settles its row. */
  lemma FirstCallSettles(rows: seq<Row>, c: Call, d: Call, t: Instant) returns (i: nat)
    requires Inv(rows, t) && Held(rows, c, t) && SameInputs(d, c) && t <= d.now
    ensures Reconciled(rows, d).1.Ok? && Reconciled(rows, d).1.value in {Updated, Unchanged}
    ensures var next := Reconciled(rows, d).0;
            Inv(next, d.now) && Holds(next, i, c, d.now) && Settled(next[i], c)
  {
    i :| Holds(rows, i, c, t);
    HeldHashIsUpdated(rows, i, c, d, t);
    LaterClockKeepsInv(rows, t, d.now);
    ApplySettles(rows[i], d, c);
    StepKeepsInvariant(rows, d, t);
    UpdatedRowHolds(rows, Reconciled(rows, d).0, i, d);
  }

  lemma {:induction false} OthersStayHeld(rows: seq<Row>, rest: seq<Call>, d: Call, t: Instant)
    requires Inv(rows, t) && t <= d.now && Reconciled(rows, d).1.Ok?
    requires AllHeld(rows, rest, t) && forall k :: 0 <= k < |rest| ==> rest[k].spec.name != d.spec.name
    ensures AllHeld(Reconciled(rows, d).0, rest, d.now)
  {
    if rest != [] {
      var k: nat :| Holds(rows, k, rest[0], t);
      OtherSpecsDoNotTouch(rows, k, rest[0], d, t);
      OthersStayHeld(rows, rest[1..], d, t);
    }
  }

  /** A rerun of a session whose hashes are held succeeds, rotates and creates nothing, and settles every policy. */
  lemma {:induction false} RerunSettles(rows: seq<Row>, calls: seq<Call>, again: seq<Call>, t: Instant)
    requires Inv(rows, t) && Clocked(again, t) && DistinctNames(calls) && SameSession(again, calls)
    requires AllHeld(rows, calls, t)
    ensures Transaction(rows, again).1.Ok? && NoRotation(Transaction(rows, again).1.value)
    ensures Inv(Transaction(rows, again).0, EndTime(again, t))
    ensures AllSettled(Transaction(rows, again).0, calls, EndTime(again, t))
    decreases |calls|
  {
    if calls != [] {
      var c, rest, d := calls[0], calls[1..], again[0];
      var i := FirstCallSettles(rows, c, d, t);
      OthersStayHeld(rows, rest, d, t);
      var next := Reconciled(rows, d).0;
      RerunSettles(next, rest, again[1..], d.now);
      SameNames(again[1..], rest);
      KeptThroughTransaction(next, i, c, again[1..], d.now);
      NoRotationCons(Reconciled(rows, d).1.value, Transaction(next, again[1..]).1.value);
    }
  }

  lemma {:induction false} SameNames(again: seq<Call>, calls: seq<Call>)
    requires SameSession(again, calls)
    ensures forall k :: 0 <= k < |calls| ==> again[k].spec.name == calls[k].spec.name
  {
    if calls != [] {
      SameNames(again[1..], calls[1..]);
      forall k | 1 <= k < |calls| ensures again[k].spec.name == calls[k].spec.name {
        assert again[1..][k - 1].spec.name == calls[1..][k - 1].spec.name;
      }
    }
  }

  ghost predicate AllUnchanged(actions: seq<Action>) {
    forall a :: a in actions ==> a == Unchanged
  }

  lemma AllUnchangedCons(rest: seq<Action>)
    requires AllUnchanged(rest)
    ensures AllUnchanged([Unchanged] + rest)
  {
  }

  lemma {:induction false} SettledSessionIsUnchanged(rows: seq<Row>, calls: seq<Call>, again: seq<Call>, t: Instant)
    requires Clocked(again, t) && SameSession(again, calls)
    requires AllSettled(rows, calls, t)
    ensures var run := Transaction(rows, again);
            run.0 == rows && run.1.Ok? && |run.1.value| == |calls| && AllUnchanged(run.1.value)
    decreases |calls|
  {
    if calls != [] {
      SettledLater(rows, calls, t, again[0].now);
      var i: nat :| Holds(rows, i, calls[0], t) && Settled(rows[i], calls[0]);
      HeldHashIsUpdated(rows, i, calls[0], again[0], t);
      SettledSessionIsUnchanged(rows, calls[1..], again[1..], again[0].now);
      AllUnchangedCons(Transaction(rows, again[1..]).1.value);
    }
  }

  /** Fixed point: after a committed session the next run with the same hashes rotates and creates nothing, and
      from the run after that nothing changes at all. */
  lemma FixedPointAfterOneMoreRun(rows: seq<Row>, calls: seq<Call>, second: seq<Call>, third: seq<Call>, t: Instant)
    requires Inv(rows, t) && DistinctNames(calls) && Transaction(rows, calls).1.Ok?
    requires SameSession(second, calls) && SameSession(third, calls)
    requires Clocked(calls, t) && Clocked(second, EndTime(calls, t)) && Clocked(third, EndTime(second, EndTime(calls, t)))
    ensures var one := Transaction(rows, calls).0;
            var two := Transaction(one, second);
            var three := Transaction(two.0, third);
            && two.1.Ok? && NoRotation(two.1.value)
            && three.1.Ok? && three.0 == two.0 && |three.1.value| == |calls| && AllUnchanged(three.1.value)
  {
    CommittedSessionHoldsEverySpec(rows, calls, t);
    var one, t1 := Transaction(rows, calls).0, EndTime(calls, t);
    RerunSettles(one, calls, second, t1);
    SettledSessionIsUnchanged(Transaction(one, second).0, calls, third, EndTime(second, t1));
  }

  // ----- When the very next run is unchanged -----

  /** The spec is one of a profile without repeated sources, and lists no dataset twice. */
  ghost predicate Qualified(c: Call) {
    c.spec in c.profile && DistinctSources(c.profile) && Distinct(c.spec.allowedDatasets)
  }

  ghost predicate ListsOnly(row: Row, spec: Spec) {
    forall d :: d in Listed(row.policy.allowedDatasets) ==> d in spec.allowedDatasets
  }

  /** Whatever the call would rotate away lists only datasets of the spec: each row that is active under the spec's
      name with another hash. */
  ghost predicate RetiresNoDataset(rows: seq<Row>, c: Call) {
    forall i :: i in ActiveNamed(rows, c.spec.name, c.now) && rows[i].hash != c.hash ==> ListsOnly(rows[i], c.spec)
  }

  ghost predicate NoneRetired(rows: seq<Row>, calls: seq<Call>) {
    forall c :: c in calls ==> RetiresNoDataset(rows, c)
  }

  /** A successful call leaves its row with the final policy if and only if it retires no dataset. */
  lemma StepSettlesIff(rows: seq<Row>, c: Call, t: Instant) returns (i: nat)
    requires Inv(rows, t) && t <= c.now && Reconciled(rows, c).1.Ok? && Qualified(c)
    ensures var after := Reconciled(rows, c).0;
            Holds(after, i, c, c.now) && (Settled(after[i], c) <==> RetiresNoDataset(rows, c))
  {
    i := SuccessHolds(rows, c, t);
    StepCases(rows, c);
    var (after, result) := Reconciled(rows, c);
    if result.value.Rotated? {
      var k: nat :| Rotates(rows, after, k, c);
      RotationRetires(rows, after, k, c);
    } else if result.value.Created? {
      CreatedSettles(c, c.hash, None);
    } else {
      var k: nat :| Updates(rows, after, k, c);
      assert k in Holders(after, c.hash);
      ApplySettles(rows[k], c, c);
    }
  }

  /** The row that a rotation revokes is the only one that the call could retire datasets of. */
  lemma RotationRetires(rows: seq<Row>, after: seq<Row>, k: nat, c: Call)
    requires Rotates(rows, after, k, c) && Qualified(c)
    ensures Settled(after[|rows|], c) <==> RetiresNoDataset(rows, c)
  {
    assert k in ActiveNamed(rows, c.spec.name, c.now);
    UnknownIsNew(rows, c, k);
    RotatedSettlesIff(c, c.hash, rows[k], Some(rows[k].id));
  }

  /** A successful call touches and adds only rows of its own name. */
  lemma OtherNamesUntouched(rows: seq<Row>, c: Call)
    requires Reconciled(rows, c).1.Ok?
    ensures var after := Reconciled(rows, c).0;
            && |rows| <= |after|
            && (forall k :: 0 <= k < |rows| && rows[k].name != c.spec.name ==> after[k] == rows[k])
            && (forall k :: 0 <= k < |after| && after[k].name != c.spec.name ==> k < |rows| && after[k] == rows[k])
  {
    StepCases(rows, c);
    if k: nat :| Rotates(rows, Reconciled(rows, c).0, k, c) {
      assert k in ActiveNamed(rows, c.spec.name, c.now);
    }
  }

  /** What another call would retire does not depend on a successful call for a different name. */
  lemma OtherNamesRetireTheSame(rows: seq<Row>, c: Call, other: Call)
    requires Reconciled(rows, c).1.Ok? && other.spec.name != c.spec.name
    ensures RetiresNoDataset(Reconciled(rows, c).0, other) <==> RetiresNoDataset(rows, other)
  {
    OtherNamesUntouched(rows, c);
    SameNamedRows(rows, Reconciled(rows, c).0, other);
  }

  lemma SameNamedRows(before: seq<Row>, after: seq<Row>, c: Call)
    requires |before| <= |after|
    requires forall k :: 0 <= k < |before| && before[k].name == c.spec.name ==> after[k] == before[k]
    requires forall k :: 0 <= k < |after| && after[k].name == c.spec.name ==> k < |before| && after[k] == before[k]
    ensures RetiresNoDataset(after, c) <==> RetiresNoDataset(before, c)
  {
    assert ActiveNamed(after, c.spec.name, c.now) == ActiveNamed(before, c.spec.name, c.now);
  }

  lemma {:induction false} RestRetiresTheSame(rows: seq<Row>, c: Call, rest: seq<Call>)
    requires Reconciled(rows, c).1.Ok? && forall k :: 0 <= k < |rest| ==> rest[k].spec.name != c.spec.name
    ensures NoneRetired(Reconciled(rows, c).0, rest) <==> NoneRetired(rows, rest)
  {
    forall other | other in rest
      ensures RetiresNoDataset(Reconciled(rows, c).0, other) <==> RetiresNoDataset(rows, other)
    {
      OtherNamesRetireTheSame(rows, c, other);
    }
  }

  lemma {:induction false} SettledIffHolderIs(rows: seq<Row>, c: Call, i: nat, now: Instant)
    requires Holds(rows, i, c, now)
    ensures HeldAndSettled(rows, c, now) <==> Settled(rows[i], c)
  {
    if k: nat :| Holds(rows, k, c, now) && Settled(rows[k], c) {
      assert k in Holders(rows, c.hash);
    }
  }

  /** A committed session leaves every policy final if and only if it retired no dataset of the starting table. */
  lemma {:induction false} SessionSettlesIff(rows: seq<Row>, calls: seq<Call>, t: Instant)
    requires Inv(rows, t) && Clocked(calls, t) && DistinctNames(calls) && Transaction(rows, calls).1.Ok?
    requires forall c :: c in calls ==> Qualified(c)
    ensures AllSettled(Transaction(rows, calls).0, calls, EndTime(calls, t)) <==> NoneRetired(rows, calls)
    decreases |calls|
  {
    if calls != [] {
      var c, rest := calls[0], calls[1..];
      assert calls == [c] + rest;
      var next, last := Reconciled(rows, c).0, Transaction(rows, calls).0;
      StepKeepsInvariant(rows, c, t);
      var i := StepSettlesIff(rows, c, t);
      KeptThroughTransaction(next, i, c, rest, c.now);
      SettledIffHolderIs(last, c, i, EndTime(calls, t));
      SessionSettlesIff(next, rest, c.now);
      RestRetiresTheSame(rows, c, rest);
    }
  }

  lemma UnchangedFirst(rows: seq<Row>, again: seq<Call>)
    requires again != [] && Transaction(rows, again).1.Ok? && AllUnchanged(Transaction(rows, again).1.value)
    ensures var first := Reconciled(rows, again[0]);
            var tail := Transaction(first.0, again[1..]).1;
            first.1 == Ok(Unchanged) && first.0 == rows && tail.Ok? && AllUnchanged(tail.value)
  {
    StepCases(rows, again[0]);
    var first, all := Reconciled(rows, again[0]), Transaction(rows, again).1.value;
    var tail := Transaction(first.0, again[1..]).1.value;
    assert all == [first.1.value] + tail;
    assert first.1.value in all;
    forall a | a in tail ensures a in all {
    }
  }

  /** A rerun that reports every credential as unchanged found every policy final. */
  lemma {:induction false} UnchangedSessionIsSettled(rows: seq<Row>, calls: seq<Call>, again: seq<Call>, t: Instant)
    requires Inv(rows, t) && Clocked(again, t) && DistinctNames(calls) && SameSession(again, calls)
    requires AllHeld(rows, calls, t) && Transaction(rows, again).1.Ok? && AllUnchanged(Transaction(rows, again).1.value)
    ensures AllSettled(rows, calls, t)
    decreases |calls|
  {
    if calls != [] {
      var c, rest, d := calls[0], calls[1..], again[0];
      var i: nat :| Holds(rows, i, c, t);
      UnchangedFirst(rows, again);
      HeldHashIsUpdated(rows, i, c, d, t);
      OthersStayHeld(rows, rest, d, t);
      LaterClockKeepsInv(rows, t, d.now);
      UnchangedSessionIsSettled(rows, rest, again[1..], d.now);
      SettledEarlier(rows, rest, t, d.now);
    }
  }

  lemma {:induction false} SettledEarlier(rows: seq<Row>, calls: seq<Call>, t: Instant, now: Instant)
    requires AllHeld(rows, calls, t) && AllSettled(rows, calls, now)
    ensures AllSettled(rows, calls, t)
  {
    if calls != [] {
      var i: nat :| Holds(rows, i, calls[0], t);
      var k: nat :| Holds(rows, k, calls[0], now) && Settled(rows[k], calls[0]);
      assert k in Holders(rows, calls[0].hash);
      SettledEarlier(rows, calls[1..], t, now);
    }
  }

  /** Main result on reruns: after a committed session the next run with the same hashes succeeds, and it reports every
      credential as unchanged if and only if no row that the session rotated away listed a dataset outside its spec. */
  lemma RerunIsUnchangedIff(rows: seq<Row>, calls: seq<Call>, again: seq<Call>, t: Instant)
    requires Inv(rows, t) && Clocked(calls, t) && DistinctNames(calls) && Transaction(rows, calls).1.Ok?
    requires SameSession(again, calls) && Clocked(again, EndTime(calls, t))
    requires forall c :: c in calls ==> Qualified(c)
    ensures var after := Transaction(rows, calls).0;
            var run := Transaction(after, again);
            run.1.Ok? && (AllUnchanged(run.1.value) <==> NoneRetired(rows, calls))
            && (AllUnchanged(run.1.value) ==> run.0 == after)
  {
    var after, end := Transaction(rows, calls).0, EndTime(calls, t);
    CommittedSessionHoldsEverySpec(rows, calls, t);
    RerunSettles(after, calls, again, end);
    SessionSettlesIff(rows, calls, t);
    if NoneRetired(rows, calls) {
      SettledSessionIsUnchanged(after, calls, again, end);
    }
    if AllUnchanged(Transaction(after, again).1.value) {
      UnchangedSessionIsSettled(after, calls, again, end);
    }
  }

  /** A rotation away from a row with a retired dataset is followed by an update, not by a fixed point. */
  lemma RotationCanNeedOneMoreRun()
    ensures var spec := Spec("KEY_HASH", "fetcher", "provider", "", [Dataset("eod")], 1);
            var previous := Row(1, "fetcher", "provider", "", Policy(None, None, None, Some([Dataset("retired")]), 1, 60),
                            0, 0, None, None, None);
            var c := Call(seq(64, _ => '0'), spec, [spec], 0, 2);
            && Reconciled([previous], c).1 == Ok(Rotated)
            && Reconciled(Reconciled([previous], c).0, c).1 == Ok(Updated)
  {
    var spec := Spec("KEY_HASH", "fetcher", "provider", "", [Dataset("eod")], 1);
    var previous := Row(1, "fetcher", "provider", "", Policy(None, None, None, Some([Dataset("retired")]), 1, 60),
                        0, 0, None, None, None);
    var c := Call(seq(64, _ => '0'), spec, [spec], 0, 2);
    var rows := [previous];
    assert Holders(rows, c.hash) == {};
    assert 0 in ActiveNamed(rows, "fetcher", 0) && ActiveNamed(rows, "fetcher", 0) == {0};
    assert IdsOf(rows) == {1} by { assert rows[0].id == 1; }
    SingletonIsTheOne(0);
    var after := Reconciled(rows, c).0;
    assert Rotates(rows, after, 0, c);
    assert [Dataset("retired")][0] in Listed(rows[0].policy.allowedDatasets);
    assert "retired"[0] != "eod"[0];
    assert rows[0].hash != c.hash;
    var k := StepSettlesIff(rows, c, 0);
    HeldHashIsUpdated(after, k, c, c, 0);
  }

  // ----- The deployed specs -----

  /** The letters that tell the five specs apart. */
  lemma SpecLetters(k: nat)
    requires k < 5
    ensures var name, source := SOURCE_SPECS[k].name, SOURCE_SPECS[k].sourceName;
            && |name| > 9 && [name[8], name[9]] == ["tw", "fi", "sh", "ta", "fa"][k]
            && |source| > 1 && [source[0], source[1]] == ["tw", "fi", "sh", "ta", "fa"][k]
  {
  }

  /** The results above apply to every session of the deployed specs. */
  lemma DeployedSpecsQualify(hashesByEnv: map<string, string>, now: Instant, newIds: seq<Id>)
    requires |newIds| == 5 && InputsMatch(hashesByEnv, SOURCE_SPECS)
    ensures DistinctSources(SOURCE_SPECS)
    ensures DistinctNames(SessionCalls(hashesByEnv, SOURCE_SPECS, now, newIds))
    ensures forall spec :: spec in SOURCE_SPECS ==> Distinct(spec.allowedDatasets)
    ensures forall c :: c in SessionCalls(hashesByEnv, SOURCE_SPECS, now, newIds) ==> Qualified(c)
  {
    forall i, j | 0 <= i < j < 5
      ensures SOURCE_SPECS[i].sourceName != SOURCE_SPECS[j].sourceName && SOURCE_SPECS[i].name != SOURCE_SPECS[j].name
    {
      SpecLetters(i);
      SpecLetters(j);
    }
    assert "tw_equity_eod"[4] != "tw_etf_eod"[4] && "tw_equity_minute"[4] != "tw_etf_minute"[4];
  }
}
