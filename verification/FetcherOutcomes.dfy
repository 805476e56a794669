/** What a caller of the fetcher reconciler observes, said of the rows alone: when a call succeeds and with which action,
    which error it gets otherwise, and every field of the policy that a row ends up with. */
module FetcherOutcomes {
  import opened SequenceFacts
  import opened Results
  import opened Selections
  import opened CredentialRows
  import opened Sorting
  import opened FetcherCredentials
  import opened FetcherCredentialsTheory

  // ----- Rows -----

  /** Not revoked, and not past its expiry, if it has one. */
  ghost predicate Alive(row: Row, now: Instant) {
    row.revokedAt == None && forall x :: row.expiresAt == Some(x) ==> now < x
  }

  ghost predicate OnlyHolder(rows: seq<Row>, hash: string, i: nat) {
    i < |rows| && forall k :: 0 <= k < |rows| ==> (rows[k].hash == hash <==> k == i)
  }

  ghost predicate NoHolder(rows: seq<Row>, hash: string) {
    forall k :: 0 <= k < |rows| ==> rows[k].hash != hash
  }

  ghost predicate NamedAlive(rows: seq<Row>, name: string, now: Instant, k: nat) {
    k < |rows| && rows[k].name == name && Alive(rows[k], now)
  }

  ghost predicate TwoHolders(rows: seq<Row>, hash: string) {
    exists j, k :: 0 <= j < k < |rows| && rows[j].hash == hash && rows[k].hash == hash
  }

  ghost predicate TwoAlive(rows: seq<Row>, name: string, now: Instant) {
    exists j: nat, k: nat :: j < k && NamedAlive(rows, name, now, j) && NamedAlive(rows, name, now, k)
  }

  ghost predicate FreshId(rows: seq<Row>, id: Id) {
    forall k :: 0 <= k < |rows| ==> rows[k].id != id
  }

  /** 64 hexadecimal digits in lower case. */
  ghost predicate HexText(hash: string) {
    |hash| == 64 && forall k :: 0 <= k < 64 ==> hash[k] in "0123456789abcdef"
  }

  lemma HashesAreHex(hash: string)
    ensures ValidHash(hash) <==> HexText(hash)
  {
    if ValidHash(hash) {
      forall k | 0 <= k < 64 ensures hash[k] in "0123456789abcdef" {
        assert hash[k] in hash;
        HexDigit(hash[k]);
      }
    }
    if HexText(hash) {
      forall c | c in hash ensures '0' <= c <= '9' || 'a' <= c <= 'f' {
        var k :| 0 <= k < 64 && hash[k] == c;
        HexDigit(c);
      }
    }
  }

  lemma HexDigit(c: char)
    ensures c in "0123456789abcdef" <==> '0' <= c <= '9' || 'a' <= c <= 'f'
  {
    var digits := "0123456789abcdef";
    if '0' <= c <= '9' {
      assert digits[c as int - '0' as int] == c;
    } else if 'a' <= c <= 'f' {
      assert digits[c as int - 'a' as int + 10] == c;
    }
  }

  // ----- Policies -----

  /** What the policy sets from the spec and the hash alone. */
  ghost predicate CarriesSpec(policy: Policy, spec: Spec, hash: string) {
    && policy.owner == Some("deployment") && policy.description == Some(spec.description) && policy.rateLimitWindow == 60
    && policy.fingerprint.Some? && policy.fingerprint.value <= hash
    && |policy.fingerprint.value| == (if |hash| < 16 then |hash| else 16)
    && policy.allowedDatasets.Some? && forall d :: d in spec.allowedDatasets ==> d in policy.allowedDatasets.value
  }

  /** The spec's limit or the previous row's, whichever is larger. */
  ghost predicate LargerLimit(limit: int, spec: Spec, previous: Row) {
    && spec.rateLimitRequests <= limit && previous.policy.rateLimitRequests <= limit
    && (limit == spec.rateLimitRequests || limit == previous.policy.rateLimitRequests)
  }

  /** The row listed the dataset. */
  ghost predicate Had(row: Row, d: Dataset) {
    row.policy.allowedDatasets.Some? && d in row.policy.allowedDatasets.value
  }

  /** The profile's first entry for the source lists the dataset; without an entry, the spec does. */
  ghost predicate InProfile(profile: seq<Spec>, spec: Spec, d: Dataset) {
    || (exists k :: 0 <= k < |profile| && profile[k].sourceName == spec.sourceName && d in profile[k].allowedDatasets
         && forall j :: 0 <= j < k ==> profile[j].sourceName != spec.sourceName)
    || (d in spec.allowedDatasets && forall j :: 0 <= j < |profile| ==> profile[j].sourceName != spec.sourceName)
  }

  /** The scopes of an updated row: the spec's, in its order, then what the row had beside them and the profile still
      knows, sorted and without repetitions. */
  ghost predicate UpdatedScopes(scopes: seq<Dataset>, row: Row, c: Call) {
    && c.spec.allowedDatasets <= scopes
    && var rest := scopes[|c.spec.allowedDatasets|..];
       && Distinct(rest) && Sorted(rest, DatasetLeq)
       && forall d :: d in rest <==> Had(row, d) && InProfile(c.profile, c.spec, d) && d !in c.spec.allowedDatasets
  }

  ghost predicate UpdatedPolicy(policy: Policy, row: Row, c: Call) {
    && CarriesSpec(policy, c.spec, row.hash) && LargerLimit(policy.rateLimitRequests, c.spec, row)
    && UpdatedScopes(policy.allowedDatasets.value, row, c)
  }

  lemma {:induction false} MaximumIs(profile: seq<Spec>, spec: Spec, d: Dataset)
    ensures d in Maximum(profile, spec) <==> InProfile(profile, spec, d)
  {
    if profile != [] {
      var rest := profile[1..];
      MaximumIs(rest, spec, d);
      assert forall j :: 0 <= j < |rest| ==> rest[j] == profile[j + 1];
      if profile[0].sourceName != spec.sourceName {
        if InProfile(rest, spec, d) {
          if k :| 0 <= k < |rest| && rest[k].sourceName == spec.sourceName && d in rest[k].allowedDatasets
                  && forall j :: 0 <= j < k ==> rest[j].sourceName != spec.sourceName {
            assert profile[k + 1].sourceName == spec.sourceName;
            assert forall j :: 0 < j < k + 1 ==> profile[j] == rest[j - 1];
          }
        }
        if InProfile(profile, spec, d) {
          if k :| 0 <= k < |profile| && profile[k].sourceName == spec.sourceName && d in profile[k].allowedDatasets
                  && forall j :: 0 <= j < k ==> profile[j].sourceName != spec.sourceName {
            assert rest[k - 1].sourceName == spec.sourceName;
          }
        }
      }
    }
  }

  lemma DesiredIsUpdated(row: Row, c: Call)
    ensures UpdatedPolicy(DesiredPolicy(row, c), row, c)
  {
    var own, maximum, held := c.spec.allowedDatasets, Maximum(c.profile, c.spec), Listed(row.policy.allowedDatasets);
    var found := FirstOccurrences(Without(Within(held, maximum), own));
    var tail := Sort(found, DatasetLeq);
    SortedTail(held, own, maximum, tail);
    PermutationFacts(tail, found);
    assert DesiredDatasets(held, c.spec, maximum)[|own|..] == tail;
    forall d ensures d in tail <==> Had(row, d) && InProfile(c.profile, c.spec, d) && d !in own {
      MaximumIs(c.profile, c.spec, d);
      assert d in tail <==> d in Elements(tail);
      assert d in found <==> d in Elements(found);
    }
  }

  /** The scopes of a row that replaces another one: the spec's and the replaced row's, each once, in the order of their
      first mention. */
  ghost predicate CarriedScopes(scopes: seq<Dataset>, previous: Row, spec: Spec) {
    && Distinct(scopes)
    && (forall d :: d in scopes <==> d in spec.allowedDatasets || Had(previous, d))
    && (Distinct(spec.allowedDatasets) ==> spec.allowedDatasets <= scopes)
    && InOrderOf(scopes, spec.allowedDatasets + Listed(previous.policy.allowedDatasets))
  }

  /** x is mentioned before the first mention of y. */
  ghost predicate MentionedBefore(list: seq<Dataset>, x: Dataset, y: Dataset) {
    exists k :: 0 <= k < |list| && list[k] == x && y !in list[..k + 1]
  }

  ghost predicate InOrderOf(scopes: seq<Dataset>, list: seq<Dataset>) {
    forall i, j :: 0 <= i < j < |scopes| ==> MentionedBefore(list, scopes[i], scopes[j])
  }

  lemma {:induction false} WithoutKeepsOrder(list: seq<Dataset>, z: Dataset, x: Dataset, y: Dataset)
    requires MentionedBefore(Without(list, [z]), x, y) && y != z
    ensures MentionedBefore(list, x, y)
  {
    if list != [] {
      var kept, rest := Without(list, [z]), list[1..];
      if list[0] == z {
        WithoutKeepsOrder(rest, z, x, y);
        LaterMention(list, x, y);
      } else if x == list[0] {
        var k :| 0 <= k < |kept| && kept[k] == x && y !in kept[..k + 1];
        assert kept[0] in kept[..k + 1];
        assert list[0] == x && y !in list[..0 + 1];
      } else {
        var k :| 0 <= k < |kept| && kept[k] == x && y !in kept[..k + 1];
        var after := Without(rest, [z]);
        assert kept == [list[0]] + after;
        assert after[k - 1] == x && kept[..k + 1] == [list[0]] + after[..k];
        assert MentionedBefore(after, x, y);
        WithoutKeepsOrder(rest, z, x, y);
        LaterMention(list, x, y);
      }
    }
  }

  lemma LaterMention(list: seq<Dataset>, x: Dataset, y: Dataset)
    requires list != [] && list[0] != y && MentionedBefore(list[1..], x, y)
    ensures MentionedBefore(list, x, y)
  {
    var rest := list[1..];
    var k :| 0 <= k < |rest| && rest[k] == x && y !in rest[..k + 1];
    assert list[k + 1] == x && list[..k + 2] == [list[0]] + rest[..k + 1];
  }

  lemma {:induction false} FirstOccurrencesInOrder(list: seq<Dataset>)
    ensures InOrderOf(FirstOccurrences(list), list)
    decreases |list|
  {
    if list != [] {
      var rest := Without(list[1..], [list[0]]);
      var tail := FirstOccurrences(rest);
      FirstOccurrencesInOrder(rest);
      forall i, j | 0 <= i < j < |tail| + 1
        ensures MentionedBefore(list, ([list[0]] + tail)[i], ([list[0]] + tail)[j])
      {
        TailInOrder(list, tail, i, j);
      }
    }
  }

  lemma TailInOrder(list: seq<Dataset>, tail: seq<Dataset>, i: nat, j: nat)
    requires list != [] && i < j < |tail| + 1
    requires forall d :: d in tail ==> d != list[0]
    requires InOrderOf(tail, Without(list[1..], [list[0]]))
    ensures MentionedBefore(list, ([list[0]] + tail)[i], ([list[0]] + tail)[j])
  {
    var y := tail[j - 1];
    assert y in tail;
    if i == 0 {
      assert list[..0 + 1] == [list[0]];
    } else {
      assert MentionedBefore(Without(list[1..], [list[0]]), tail[i - 1], y);
      WithoutKeepsOrder(list[1..], list[0], tail[i - 1], y);
      LaterMention(list, tail[i - 1], y);
    }
  }

  lemma {:induction false} DistinctPrefixStays(a: seq<Dataset>, b: seq<Dataset>)
    requires Distinct(a)
    ensures a <= FirstOccurrences(a + b)
    decreases |a|
  {
    if a != [] {
      var x, rest := [a[0]], a[1..];
      assert (a + b)[1..] == rest + b;
      WithoutSplits(rest, b, x);
      WithoutNone(rest, x);
      DistinctPrefixStays(rest, Without(b, x));
    }
  }

  lemma CarriedOverIs(spec: Spec, previous: Row)
    ensures CarriedScopes(CarriedOver(spec, previous).allowedDatasets, previous, spec)
    ensures LargerLimit(CarriedOver(spec, previous).rateLimitRequests, spec, previous)
  {
    var own, held := spec.allowedDatasets, Listed(previous.policy.allowedDatasets);
    FirstOccurrencesDistinct(own + held);
    FirstOccurrencesInOrder(own + held);
    if Distinct(own) {
      DistinctPrefixStays(own, held);
    }
    assert forall d :: d in own + held <==> d in own || d in held;
  }

  // ----- Counting the selections -----

  lemma ActiveIsAlive(rows: seq<Row>, name: string, now: Instant, k: nat)
    ensures k in ActiveNamed(rows, name, now) <==> NamedAlive(rows, name, now, k)
  {
    if k < |rows| && rows[k].expiresAt.Some? {
      assert rows[k].expiresAt == Some(rows[k].expiresAt.value);
    }
  }

  lemma AtMostOneHolder(rows: seq<Row>, hash: string)
    ensures |Holders(rows, hash)| > 1 <==> TwoHolders(rows, hash)
  {
    var s := Holders(rows, hash);
    AtMostOne(s);
    if TwoHolders(rows, hash) {
      var j, k :| 0 <= j < k < |rows| && rows[j].hash == hash && rows[k].hash == hash;
      assert j in s && k in s;
    }
  }

  lemma AtMostOneAlive(rows: seq<Row>, name: string, now: Instant)
    ensures |ActiveNamed(rows, name, now)| > 1 <==> TwoAlive(rows, name, now)
  {
    var s := ActiveNamed(rows, name, now);
    AtMostOne(s);
    forall k: nat ensures k in s <==> NamedAlive(rows, name, now, k) {
      ActiveIsAlive(rows, name, now, k);
    }
  }

  lemma HoldersAre(rows: seq<Row>, hash: string, i: nat)
    ensures OnlyHolder(rows, hash, i) <==> i < |rows| && Holders(rows, hash) == {i}
    ensures NoHolder(rows, hash) <==> Holders(rows, hash) == {}
  {
    if Holders(rows, hash) == {i} {
      forall k | 0 <= k < |rows| ensures rows[k].hash == hash <==> k == i {
        assert k in Holders(rows, hash) <==> k == i;
      }
    }
    if Holders(rows, hash) == {} {
      forall k | 0 <= k < |rows| ensures rows[k].hash != hash {
        assert k !in Holders(rows, hash);
      }
    }
  }

  lemma IdsAre(rows: seq<Row>, id: Id)
    ensures id in IdsOf(rows) <==> !FreshId(rows, id)
  {
    if !FreshId(rows, id) {
      var k :| 0 <= k < |rows| && rows[k].id == id;
      assert rows[k].id in IdsOf(rows);
    }
  }

  // ----- Which outcome -----

  /** Before any row is looked at more closely. */
  lemma UndecidedOutcome(rows: seq<Row>, c: Call)
    ensures Reconciled(rows, c).1 == Err(HashInvalid) <==> !HexText(c.hash)
    ensures Reconciled(rows, c).1 == Err(StateAmbiguous) <==>
      HexText(c.hash) && (TwoHolders(rows, c.hash) || TwoAlive(rows, c.spec.name, c.now))
  {
    HashesAreHex(c.hash);
    AtMostOneHolder(rows, c.hash);
    AtMostOneAlive(rows, c.spec.name, c.now);
  }

  ghost predicate AnotherAlive(rows: seq<Row>, c: Call, i: nat) {
    exists k: nat :: k != i && NamedAlive(rows, c.spec.name, c.now, k)
  }

  lemma OthersAre(rows: seq<Row>, c: Call, i: nat)
    ensures ActiveNamed(rows, c.spec.name, c.now) - {i} != {} <==> AnotherAlive(rows, c, i)
  {
    var s := ActiveNamed(rows, c.spec.name, c.now);
    forall k: nat ensures k in s <==> NamedAlive(rows, c.spec.name, c.now, k) {
      ActiveIsAlive(rows, c.spec.name, c.now, k);
    }
    if AnotherAlive(rows, c, i) {
      var k: nat :| k != i && NamedAlive(rows, c.spec.name, c.now, k);
      assert k in s - {i};
    }
    if s - {i} != {} {
      var k :| k in s - {i};
      assert NamedAlive(rows, c.spec.name, c.now, k);
    }
  }

  /** A hash that one row holds: success, action and error, each if and only if. */
  lemma KnownHashOutcome(rows: seq<Row>, c: Call, i: nat)
    requires HexText(c.hash) && OnlyHolder(rows, c.hash, i) && !TwoAlive(rows, c.spec.name, c.now)
    ensures var row, (after, result) := rows[i], Reconciled(rows, c);
            var own := row.name == c.spec.name && row.sourceName == c.spec.sourceName;
            var endless := row.revokedAt.None? && row.expiresAt.None?;
            && (result.Ok? <==> own && endless && !AnotherAlive(rows, c, i))
            && (result == Ok(Unchanged) <==> result.Ok? && after == rows)
            && (result == Ok(Updated) <==> result.Ok? && after != rows)
            && (result == Err(UsedByAnotherIdentity) <==> !own)
            && (result == Err(RevokedOrExpiring) <==> own && !endless)
            && (result == Err(AnotherActive) <==> own && endless && AnotherAlive(rows, c, i))
  {
    HashesAreHex(c.hash);
    HoldersAre(rows, c.hash, i);
    AtMostOneHolder(rows, c.hash);
    AtMostOneAlive(rows, c.spec.name, c.now);
    SingletonIsTheOne(i);
    OthersAre(rows, c, i);
    UpdateShows(rows, i, c);
  }

  lemma UpdateShows(rows: seq<Row>, i: nat, c: Call)
    requires i < |rows|
    ensures ApplySourcePolicy(rows[i], c).policy == rows[i].policy <==> rows[i := ApplySourcePolicy(rows[i], c)] == rows
  {
    var after := rows[i := ApplySourcePolicy(rows[i], c)];
    assert after[i] == ApplySourcePolicy(rows[i], c);
    assert rows[i := rows[i]] == rows;
  }

  /** A hash that no row holds. */
  lemma NewHashOutcome(rows: seq<Row>, c: Call)
    requires HexText(c.hash) && NoHolder(rows, c.hash) && !TwoAlive(rows, c.spec.name, c.now)
    ensures var result := Reconciled(rows, c).1;
            var named := exists k: nat :: NamedAlive(rows, c.spec.name, c.now, k);
            && (result == Ok(Rotated) <==> FreshId(rows, c.newId) && named)
            && (result == Ok(Created) <==> FreshId(rows, c.newId) && !named)
            && (result == Err(IntegrityViolation) <==> !FreshId(rows, c.newId))
  {
    var active := ActiveNamed(rows, c.spec.name, c.now);
    HashesAreHex(c.hash);
    HoldersAre(rows, c.hash, 0);
    AtMostOneAlive(rows, c.spec.name, c.now);
    IdsAre(rows, c.newId);
    forall k: nat ensures k in active <==> NamedAlive(rows, c.spec.name, c.now, k) {
      ActiveIsAlive(rows, c.spec.name, c.now, k);
    }
    if active != {} {
      var k :| k in active;
      assert NamedAlive(rows, c.spec.name, c.now, k);
    }
  }

  // ----- What the rows are afterwards -----

  ghost predicate OnlyChangedAt(before: seq<Row>, after: seq<Row>, i: nat) {
    |before| <= |after| && forall k :: 0 <= k < |before| && k != i ==> after[k] == before[k]
  }

  /** The same row but for its policy, and the time of the change where there is one. */
  ghost predicate BroughtUpToDate(before: Row, after: Row, c: Call) {
    && UpdatedPolicy(after.policy, before, c)
    && after == before.(policy := after.policy, updatedAt := after.updatedAt)
    && after.updatedAt == (if after.policy == before.policy then before.updatedAt else c.now)
  }

  ghost predicate Fresh(row: Row, c: Call, rotatedFrom: Option<Id>) {
    && row.id == c.newId && row.hash == c.hash && row.name == c.spec.name && row.sourceName == c.spec.sourceName
    && row.createdAt == c.now && row.updatedAt == c.now && row.revokedAt == None && row.expiresAt == None
    && row.rotatedFrom == rotatedFrom && CarriesSpec(row.policy, c.spec, c.hash)
  }

  /** The new row that takes over from a rotated one. */
  ghost predicate TakesOver(row: Row, previous: Row, c: Call) {
    && Fresh(row, c, Some(previous.id)) && LargerLimit(row.policy.rateLimitRequests, c.spec, previous)
    && CarriedScopes(row.policy.allowedDatasets.value, previous, c.spec)
  }

  ghost predicate FromSpec(row: Row, c: Call) {
    && Fresh(row, c, None) && row.policy.rateLimitRequests == c.spec.rateLimitRequests
    && row.policy.allowedDatasets == Some(c.spec.allowedDatasets)
  }

  ghost predicate RotatedAt(rows: seq<Row>, after: seq<Row>, c: Call, i: nat) {
    && NamedAlive(rows, c.spec.name, c.now, i) && OnlyChangedAt(rows, after, i)
    && after[i] == rows[i].(revokedAt := Some(c.now), updatedAt := c.now)
    && |after| == |rows| + 1 && TakesOver(after[|rows|], rows[i], c)
  }

  ghost predicate UpdatedAt(rows: seq<Row>, after: seq<Row>, c: Call, i: nat) {
    && OnlyHolder(rows, c.hash, i) && OnlyChangedAt(rows, after, i) && |after| == |rows|
    && BroughtUpToDate(rows[i], after[i], c)
  }

  lemma ResultingRows(rows: seq<Row>, c: Call)
    ensures var (after, result) := Reconciled(rows, c);
            match result
            case Err(_) => after == rows
            case Ok(Rotated) => exists i: nat :: RotatedAt(rows, after, c, i)
            case Ok(Created) => |after| == |rows| + 1 && after[..|rows|] == rows && FromSpec(after[|rows|], c)
            case Ok(_) => exists i: nat :: UpdatedAt(rows, after, c, i)
  {
    StepCases(rows, c);
    var (after, result) := Reconciled(rows, c);
    if result.Ok? {
      if result.value.Rotated? {
        RotatedRows(rows, c);
      } else if result.value.Created? {
        FingerprintIs(c.hash);
      } else {
        UpdatedRows(rows, c);
      }
    }
  }

  lemma FingerprintIs(hash: string)
    ensures Fingerprint(hash) <= hash && |Fingerprint(hash)| == if |hash| < 16 then |hash| else 16
  {
  }

  lemma RotatedRows(rows: seq<Row>, c: Call)
    requires Reconciled(rows, c).1 == Ok(Rotated)
    ensures exists i: nat :: RotatedAt(rows, Reconciled(rows, c).0, c, i)
  {
    StepCases(rows, c);
    var after := Reconciled(rows, c).0;
    var i: nat :| Rotates(rows, after, i, c);
    assert i in ActiveNamed(rows, c.spec.name, c.now);
    ActiveIsAlive(rows, c.spec.name, c.now, i);
    FingerprintIs(c.hash);
    CarriedOverIs(c.spec, rows[i]);
    assert RotatedAt(rows, after, c, i);
  }

  lemma UpdatedRows(rows: seq<Row>, c: Call)
    requires Reconciled(rows, c).1.Ok? && Reconciled(rows, c).1.value in {Updated, Unchanged}
    ensures exists i: nat :: UpdatedAt(rows, Reconciled(rows, c).0, c, i)
  {
    StepCases(rows, c);
    var after := Reconciled(rows, c).0;
    var i: nat :| Updates(rows, after, i, c);
    KnownHolder(rows, c, i);
    DesiredIsUpdated(rows[i], c);
    assert UpdatedAt(rows, after, c, i);
  }

  lemma KnownHolder(rows: seq<Row>, c: Call, i: nat)
    requires Reconciled(rows, c).1.Ok? && Reconciled(rows, c).1.value in {Updated, Unchanged}
    requires i < |rows| && c.hash == rows[i].hash
    ensures OnlyHolder(rows, rows[i].hash, i)
  {
    var holders := Holders(rows, rows[i].hash);
    assert i in holders && |holders| == 1;
    SingletonSet(holders);
    HoldersAre(rows, rows[i].hash, i);
  }

  // ----- Sessions -----

  /** Where the row of a call comes from in the table that the session started with: the row of the same hash, a row of
      the same name that it took over from, or nowhere. */
  ghost predicate CameFrom(rows: seq<Row>, row: Row, c: Call) {
    || (exists k: nat :: SameCredential(rows, c, k) && BroughtUpToDate(rows[k], row, c))
    || (exists k: nat :: NamedAlive(rows, c.spec.name, c.now, k) && rows[k].hash != c.hash && TakesOver(row, rows[k], c))
    || ((forall k: nat :: !NamedAlive(rows, c.spec.name, c.now, k)) && FromSpec(row, c))
  }

  ghost predicate SameCredential(rows: seq<Row>, c: Call, k: nat) {
    k < |rows| && rows[k].hash == c.hash && rows[k].name == c.spec.name && rows[k].sourceName == c.spec.sourceName
  }

  lemma StepCameFrom(rows: seq<Row>, c: Call, t: Instant) returns (i: nat)
    requires Inv(rows, t) && t <= c.now && Reconciled(rows, c).1.Ok?
    ensures var after := Reconciled(rows, c).0;
            Holds(after, i, c, c.now) && CameFrom(rows, after[i], c)
  {
    i := SuccessHolds(rows, c, t);
    StepCases(rows, c);
    ResultingRows(rows, c);
    var (after, result) := Reconciled(rows, c);
    if result.value.Rotated? {
      var k: nat :| RotatedAt(rows, after, c, k);
      var m: nat :| Rotates(rows, after, m, c);
      UnknownIsNew(rows, c, k);
    } else if result.value.Created? {
      forall k: nat ensures !NamedAlive(rows, c.spec.name, c.now, k) {
        ActiveIsAlive(rows, c.spec.name, c.now, k);
      }
    } else {
      var k: nat :| Updates(rows, after, k, c);
      UpdatedHere(rows, after, c, i, k);
    }
  }

  lemma UpdatedHere(rows: seq<Row>, after: seq<Row>, c: Call, i: nat, k: nat)
    requires Updates(rows, after, k, c) && Holds(after, i, c, c.now)
    ensures i == k && SameCredential(rows, c, k) && BroughtUpToDate(rows[k], after[i], c)
  {
    assert k in Holders(after, c.hash);
    DesiredIsUpdated(rows[k], c);
  }

  /** Where a row comes from does not depend on a successful call for a different name. */
  lemma CameFromEarlier(rows: seq<Row>, d: Call, row: Row, c: Call)
    requires Reconciled(rows, d).1.Ok? && d.spec.name != c.spec.name && CameFrom(Reconciled(rows, d).0, row, c)
    ensures CameFrom(rows, row, c)
  {
    OtherNamesUntouched(rows, d);
    var next := Reconciled(rows, d).0;
    if k: nat :| SameCredential(next, c, k) && BroughtUpToDate(next[k], row, c) {
      assert SameCredential(rows, c, k);
    } else if k: nat :| NamedAlive(next, c.spec.name, c.now, k) && next[k].hash != c.hash && TakesOver(row, next[k], c) {
      assert NamedAlive(rows, c.spec.name, c.now, k);
    } else {
      forall k: nat ensures !NamedAlive(rows, c.spec.name, c.now, k) {
        assert !NamedAlive(next, c.spec.name, c.now, k);
      }
    }
  }

  lemma {:induction false} SessionOrigin(rows: seq<Row>, calls: seq<Call>, t: Instant, c: Call) returns (i: nat)
    requires Inv(rows, t) && Clocked(calls, t) && DistinctNames(calls) && Transaction(rows, calls).1.Ok? && c in calls
    ensures var after, now := Transaction(rows, calls).0, EndTime(calls, t);
            && Holds(after, i, c, now) && CameFrom(rows, after[i], c)
    decreases |calls|
  {
    var d, rest := calls[0], calls[1..];
    assert calls == [d] + rest;
    var next := Reconciled(rows, d).0;
    StepKeepsInvariant(rows, d, t);
    if c == d {
      i := StepCameFrom(rows, c, t);
      KeptThroughTransaction(next, i, c, rest, c.now);
    } else {
      i := SessionOrigin(next, rest, d.now, c);
      var k :| 0 <= k < |rest| && rest[k] == c;
      assert calls[0].spec.name != calls[k + 1].spec.name;
      CameFromEarlier(rows, d, Transaction(next, rest).0[i], c);
    }
  }

  /** What a committed session leaves for each of its specs, in plain terms: one live row, without expiry, with the call's
      hash, every field of the policy, and scopes and a limit that the spec and the starting table determine. */
  lemma CommittedSessionInPlainTerms(rows: seq<Row>, calls: seq<Call>, t: Instant, c: Call) returns (i: nat)
    requires Inv(rows, t) && Clocked(calls, t) && DistinctNames(calls) && Transaction(rows, calls).1.Ok? && c in calls
    ensures var after, now := Transaction(rows, calls).0, EndTime(calls, t);
            && OnlyHolder(after, c.hash, i) && after[i].name == c.spec.name && after[i].sourceName == c.spec.sourceName
            && after[i].revokedAt.None? && after[i].expiresAt.None?
            && (forall k: nat :: NamedAlive(after, c.spec.name, now, k) <==> k == i)
            && CarriesSpec(after[i].policy, c.spec, c.hash)
            && c.spec.rateLimitRequests <= after[i].policy.rateLimitRequests
            && CameFrom(rows, after[i], c)
  {
    i := SessionOrigin(rows, calls, t, c);
    var after, now := Transaction(rows, calls).0, EndTime(calls, t);
    HoldersAre(after, c.hash, i);
    OriginCarriesSpec(rows, after[i], c);
    forall k: nat ensures NamedAlive(after, c.spec.name, now, k) <==> k == i {
      ActiveIsAlive(after, c.spec.name, now, k);
    }
  }

  lemma OriginCarriesSpec(rows: seq<Row>, row: Row, c: Call)
    requires CameFrom(rows, row, c)
    ensures CarriesSpec(row.policy, c.spec, c.hash) && c.spec.rateLimitRequests <= row.policy.rateLimitRequests
  {
  }

  /** A session succeeds if and only if every call does on the table that the calls before it leave, and then it reports
      their actions; otherwise it reports the first error. */
  lemma {:induction false} SessionInSteps(rows: seq<Row>, calls: seq<Call>)
    ensures var run := Transaction(rows, calls);
            && (run.1.Ok? <==> forall k :: 0 <= k < |calls| ==> Succeeds(rows, calls, k))
            && (run.1.Ok? ==> |run.1.value| == |calls| && run.0 == Run(rows, calls))
            && (run.1.Ok? ==> forall k :: 0 <= k < |calls| ==> CallResult(rows, calls, k) == Ok(run.1.value[k]))
            && (run.1.Err? ==> exists k: nat :: FirstFailure(rows, calls, k) && CallResult(rows, calls, k) == Err(run.1.error))
    decreases |calls|
  {
    if calls != [] {
      var next := Reconciled(rows, calls[0]).0;
      SessionInSteps(next, calls[1..]);
      forall k: nat | 0 < k < |calls| ensures CallResult(rows, calls, k) == CallResult(next, calls[1..], k - 1) {
        assert calls[..k][1..] == calls[1..][..k - 1];
      }
      StepsShift(rows, calls);
    }
  }

  ghost function CallResult(rows: seq<Row>, calls: seq<Call>, k: nat): Result<Action, Error>
    requires k < |calls|
  {
    Reconciled(Run(rows, calls[..k]), calls[k]).1
  }

  ghost predicate Succeeds(rows: seq<Row>, calls: seq<Call>, k: nat)
    requires k < |calls|
  {
    CallResult(rows, calls, k).Ok?
  }

  ghost predicate FirstFailure(rows: seq<Row>, calls: seq<Call>, k: nat) {
    k < |calls| && !Succeeds(rows, calls, k) && forall j :: 0 <= j < k ==> Succeeds(rows, calls, j)
  }

  lemma StepsShift(rows: seq<Row>, calls: seq<Call>)
    requires calls != []
    requires var next := Reconciled(rows, calls[0]).0;
             forall k: nat :: 0 < k < |calls| ==> CallResult(rows, calls, k) == CallResult(next, calls[1..], k - 1)
    ensures CallResult(rows, calls, 0) == Reconciled(rows, calls[0]).1
    ensures var next := Reconciled(rows, calls[0]).0;
            && ((forall k :: 0 <= k < |calls| ==> Succeeds(rows, calls, k)) <==>
                 Succeeds(rows, calls, 0) && forall k :: 0 <= k < |calls| - 1 ==> Succeeds(next, calls[1..], k))
            && forall k: nat :: FirstFailure(next, calls[1..], k) && Succeeds(rows, calls, 0) ==>
                 FirstFailure(rows, calls, k + 1)
  {
    var next := Reconciled(rows, calls[0]).0;
    assert calls[..0] == [];
    assert forall k: nat :: k < |calls| - 1 ==> Succeeds(next, calls[1..], k) == Succeeds(rows, calls, k + 1);
    forall k | 0 <= k < |calls| && k > 0 ensures Succeeds(rows, calls, k) == Succeeds(next, calls[1..], k - 1) {
    }
  }

  // ----- The inputs of a session -----

  ghost predicate Injective(m: map<string, string>) {
    forall a, b :: a in m && b in m && a != b ==> m[a] != m[b]
  }

  lemma OneMoreValue(m: map<string, string>, a: string)
    requires a in m
    ensures m.Values == (m - {a}).Values + {m[a]}
  {
    var rest := m - {a};
    forall v ensures v in m.Values <==> v in rest.Values + {m[a]} {
      if v in m.Values {
        var b :| b in m && m[b] == v;
        assert b != a ==> b in rest && rest[b] == v;
      }
      if v in rest.Values {
        var b :| b in rest && rest[b] == v;
        assert m[b] == v;
      }
    }
  }

  lemma OneMoreKey(m: map<string, string>, a: string)
    requires a in m
    ensures Injective(m) <==> Injective(m - {a}) && m[a] !in (m - {a}).Values
  {
    var rest := m - {a};
    assert forall b :: b in rest ==> b in m && b != a && rest[b] == m[b];
    if Injective(rest) && m[a] !in rest.Values {
      forall b, c | b in m && c in m && b != c ensures m[b] != m[c] {
        assert b != a ==> b in rest && rest[b] == m[b] && rest[b] in rest.Values;
        assert c != a ==> c in rest && rest[c] == m[c] && rest[c] in rest.Values;
      }
    }
  }

  lemma {:induction false} ValuesCount(m: map<string, string>)
    ensures |m.Values| <= |m.Keys|
    ensures |m.Values| == |m.Keys| <==> Injective(m)
    decreases |m|
  {
    if m.Keys != {} {
      var a :| a in m;
      var rest := m - {a};
      assert rest.Keys == m.Keys - {a};
      ValuesCount(rest);
      OneMoreValue(m, a);
      OneMoreKey(m, a);
      assert m[a] in rest.Values ==> m.Values == rest.Values;
    }
  }

  /** The inputs are accepted if and only if there is a hash for each spec and for nothing else, and no two are equal. */
  lemma InputsMatchIff(hashesByEnv: map<string, string>, specs: seq<Spec>)
    ensures InputsMatch(hashesByEnv, specs) <==>
      && Injective(hashesByEnv)
      && (forall spec :: spec in specs ==> spec.envName in hashesByEnv)
      && (forall env :: env in hashesByEnv ==> exists spec :: spec in specs && spec.envName == env)
  {
    ValuesCount(hashesByEnv);
    if (forall spec :: spec in specs ==> spec.envName in hashesByEnv)
       && (forall env :: env in hashesByEnv ==> exists spec :: spec in specs && spec.envName == env) {
      assert hashesByEnv.Keys == Required(specs);
    }
  }

  ghost predicate NamesDiffer(specs: seq<Spec>) {
    forall i, j :: 0 <= i < j < |specs| ==> specs[i].name != specs[j].name
  }

  lemma {:induction false} OneReading(calls: seq<Call>, t: Instant, now: Instant)
    requires t <= now && forall k :: 0 <= k < |calls| ==> calls[k].now == now
    ensures Clocked(calls, t) && (calls != [] ==> EndTime(calls, t) == now)
  {
    if calls != [] {
      OneReading(calls[1..], now, now);
    }
  }

  /** What a session leaves, said of its own inputs: each spec has one live row, and it carries the hash that came under
      the spec's variable. */
  lemma SessionHoldsItsInputs(rows: seq<Row>, hashesByEnv: map<string, string>, specs: seq<Spec>, t: Instant, now: Instant,
                              newIds: seq<Id>, k: nat) returns (i: nat)
    requires |newIds| == |specs| && InputsMatch(hashesByEnv, specs) && NamesDiffer(specs) && k < |specs|
    requires Inv(rows, t) && t <= now && Transaction(rows, SessionCalls(hashesByEnv, specs, now, newIds)).1.Ok?
    ensures specs[k].envName in hashesByEnv
    ensures var after := Transaction(rows, SessionCalls(hashesByEnv, specs, now, newIds)).0;
            && OnlyHolder(after, hashesByEnv[specs[k].envName], i)
            && after[i].name == specs[k].name && after[i].sourceName == specs[k].sourceName
            && (forall j: nat :: NamedAlive(after, specs[k].name, now, j) <==> j == i)
            && CarriesSpec(after[i].policy, specs[k], hashesByEnv[specs[k].envName])
            && specs[k].rateLimitRequests <= after[i].policy.rateLimitRequests
  {
    var calls := SessionCalls(hashesByEnv, specs, now, newIds);
    OneReading(calls, t, now);
    assert calls[k] in calls && specs[k] in specs;
    i := CommittedSessionInPlainTerms(rows, calls, t, calls[k]);
  }
}
