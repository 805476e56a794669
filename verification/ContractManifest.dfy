/** The selected contract manifest: entries, their schema paths as text, and an identity that ignores their order. */
module ContractManifest {
  import opened SequenceFacts
  import opened Results
  import opened Sorting

  datatype Contract = Contract(path: string, schemaId: string, version: int, sha256: string)

  // ----- Decimal numerals -----

  predicate IsDigit(c: char) { '0' <= c <= '9' }

  function DigitOf(d: nat): char
    requires d < 10
  {
    '0' + d as char
  }

  function ValueOf(c: char): nat
    requires IsDigit(c)
  {
    (c - '0') as nat
  }

  function Decimal(n: nat): string {
    if n < 10 then [DigitOf(n)] else Decimal(n / 10) + [DigitOf(n % 10)]
  }

  predicate AllDigits(s: string) { forall i :: 0 <= i < |s| ==> IsDigit(s[i]) }

  function Numeral(s: string): nat
    requires AllDigits(s)
  {
    if s == [] then 0 else 10 * Numeral(s[..|s| - 1]) + ValueOf(s[|s| - 1])
  }

  lemma {:induction false} DecimalIsNumeral(n: nat)
    ensures Decimal(n) != [] && AllDigits(Decimal(n)) && Numeral(Decimal(n)) == n
    ensures n > 0 ==> Decimal(n)[0] != '0'
  {
    if n >= 10 {
      DecimalIsNumeral(n / 10);
      assert Decimal(n)[..|Decimal(n)| - 1] == Decimal(n / 10);
    } else {
      assert Decimal(n)[..0] == [];
    }
  }

  lemma {:induction false} NumeralIsDecimal(s: string)
    requires s != [] && AllDigits(s) && s[0] != '0'
    ensures Numeral(s) > 0 && Decimal(Numeral(s)) == s
  {
    var init, last := s[..|s| - 1], s[|s| - 1];
    assert s == init + [last];
    if init == [] {
      assert Numeral(init) == 0;
    } else {
      NumeralIsDecimal(init);
    }
  }

  // ----- Schema paths -----

  predicate IsIdStart(c: char) { 'a' <= c <= 'z' }

  predicate IsIdChar(c: char) { IsIdStart(c) || IsDigit(c) || c == '_' }

  predicate ValidId(id: string) {
    id != "" && IsIdStart(id[0]) && forall i :: 0 <= i < |id| ==> IsIdChar(id[i])
  }

  const BEFORE_VERSION := "/v"
  const AFTER_VERSION := ".schema.json"

  /** The one path of a schema: id, version and a fixed frame. */
  function SchemaPath(id: string, version: nat): string {
    id + BEFORE_VERSION + Decimal(version) + AFTER_VERSION
  }

  function IndexOf(s: string, c: char): nat {
    if s == "" || s[0] == c then 0 else 1 + IndexOf(s[1..], c)
  }

  lemma {:induction false} IndexOfIs(s: string, c: char)
    ensures IndexOf(s, c) <= |s|
    ensures IndexOf(s, c) < |s| ==> s[IndexOf(s, c)] == c
    ensures forall i :: 0 <= i < IndexOf(s, c) ==> s[i] != c
  {
    if s != "" && s[0] != c {
      IndexOfIs(s[1..], c);
      assert forall i :: 0 < i < |s| ==> s[i] == s[1..][i - 1];
    }
  }

  predicate ValidVersionText(digits: string) {
    digits != "" && AllDigits(digits) && digits[0] != '0'
  }

  /** The match of the path pattern: the id is everything before the first slash. */
  function ParsePath(path: string): Option<(string, nat)> {
    IndexOfIs(path, '/');
    var k := IndexOf(path, '/');
    var id, rest := path[..k], path[k..];
    var frame := |BEFORE_VERSION| + |AFTER_VERSION|;
    if |rest| < frame || !(BEFORE_VERSION <= rest) || rest[|rest| - |AFTER_VERSION|..] != AFTER_VERSION then None
    else
      var digits := rest[|BEFORE_VERSION|..|rest| - |AFTER_VERSION|];
      if ValidId(id) && ValidVersionText(digits) then Some((id, Numeral(digits))) else None
  }

  lemma NoSlashInId(id: string, rest: string)
    requires ValidId(id) && rest != "" && rest[0] == '/'
    ensures IndexOf(id + rest, '/') == |id|
  {
    IndexOfIs(id + rest, '/');
    assert (id + rest)[|id|] == '/';
    assert forall i :: 0 <= i < |id| ==> (id + rest)[i] == id[i] && IsIdChar(id[i]);
  }

  /** Parsing inverts printing, on every id and version. */
  lemma ParsePrinted(id: string, version: nat)
    requires ValidId(id) && version >= 1
    ensures ParsePath(SchemaPath(id, version)) == Some((id, version))
  {
    var digits := Decimal(version);
    var rest := BEFORE_VERSION + digits + AFTER_VERSION;
    DecimalIsNumeral(version);
    NoSlashInId(id, rest);
    Framed(id, BEFORE_VERSION, digits, AFTER_VERSION);
  }

  lemma Framed(id: string, before: string, middle: string, after: string)
    ensures var rest := before + middle + after;
            id + before + middle + after == id + rest
            && (id + rest)[..|id|] == id && (id + rest)[|id|..] == rest
            && before <= rest && rest[|rest| - |after|..] == after && rest[|before|..|rest| - |after|] == middle
  {
  }

  /** Printing inverts parsing: no other text is accepted for an id and a version. */
  lemma PrintParsed(path: string)
    requires ParsePath(path).Some?
    ensures var (id, version) := ParsePath(path).value;
            ValidId(id) && version >= 1 && path == SchemaPath(id, version)
  {
    IndexOfIs(path, '/');
    var k := IndexOf(path, '/');
    var rest := path[k..];
    var digits := rest[|BEFORE_VERSION|..|rest| - |AFTER_VERSION|];
    NumeralIsDecimal(digits);
    Reframe(rest, BEFORE_VERSION, AFTER_VERSION);
    Rejoin(path, k, BEFORE_VERSION, digits, AFTER_VERSION);
  }

  lemma Reframe(s: string, before: string, after: string)
    requires |s| >= |before| + |after| && before <= s && s[|s| - |after|..] == after
    ensures s == before + s[|before|..|s| - |after|] + after
  {
  }

  lemma Rejoin(s: string, k: nat, a: string, b: string, c: string)
    requires k <= |s| && s[k..] == a + b + c
    ensures s == s[..k] + a + b + c
  {
    assert s == s[..k] + s[k..];
  }

  /** Schema paths are injective in id and version. */
  lemma SchemaPathsAreInjective(id: string, version: nat, id': string, version': nat)
    requires ValidId(id) && ValidId(id') && version >= 1 && version' >= 1
    requires SchemaPath(id, version) == SchemaPath(id', version')
    ensures id == id' && version == version'
  {
    ParsePrinted(id, version);
    ParsePrinted(id', version');
  }

  // ----- Entries -----

  predicate IsSha256(s: string) {
    |s| == 64 && forall i :: 0 <= i < |s| ==> IsDigit(s[i]) || 'a' <= s[i] <= 'f'
  }

  predicate EntryOk(c: Contract) {
    && ValidId(c.schemaId) && c.version >= 1
    && ParsePath(c.path) == Some((c.schemaId, c.version))
    && IsSha256(c.sha256)
  }

  ghost predicate DistinctIdentities(contracts: seq<Contract>) {
    forall i, j :: 0 <= i < j < |contracts| ==>
      contracts[i].schemaId != contracts[j].schemaId || contracts[i].version != contracts[j].version
  }

  /** The lists that the parser accepts. */
  ghost predicate Acceptable(contracts: seq<Contract>) {
    contracts != [] && AllOk(contracts) && DistinctIdentities(contracts)
  }

  function Formatted(n: int): string { if n < 0 then "-" + Decimal(-n) else Decimal(n) }

  function VersionName(c: Contract): string { c.schemaId + ".v" + Formatted(c.version) }

  function VersionNames(contracts: seq<Contract>): (names: seq<string>)
    ensures |names| == |contracts|
  {
    if contracts == [] then []
    else VersionNames(contracts[..|contracts| - 1]) + [VersionName(contracts[|contracts| - 1])]
  }

  /** By id, then version; path and checksum make it total and never decide between accepted entries. */
  predicate ContractLeq(a: Contract, b: Contract) {
    if a.schemaId != b.schemaId then TextLeq(a.schemaId, b.schemaId)
    else if a.version != b.version then a.version <= b.version
    else if a.path != b.path then TextLeq(a.path, b.path)
    else TextLeq(a.sha256, b.sha256)
  }

  predicate KeyLeq(a: Contract, b: Contract) {
    if a.schemaId != b.schemaId then TextLeq(a.schemaId, b.schemaId) else a.version <= b.version
  }

  lemma ContractOrder()
    ensures TotalOrder(ContractLeq)
  {
    TextOrder();
    forall a, b, c | ContractLeq(a, b) && ContractLeq(b, c) ensures ContractLeq(a, c) {
      OrderIsTransitive(a, b, c);
    }
    forall a, b ensures (ContractLeq(a, b) || ContractLeq(b, a)) && (ContractLeq(a, b) && ContractLeq(b, a) ==> a == b) {
    }
  }

  lemma OrderIsTransitive(a: Contract, b: Contract, c: Contract)
    requires TotalOrder(TextLeq) && ContractLeq(a, b) && ContractLeq(b, c)
    ensures ContractLeq(a, c)
  {
  }

  // ----- Parsing -----

  datatype Identity = Identity(versions: seq<string>, sha256: string)

  datatype Digest = Digest(hash: seq<Contract> -> string)

  function IdentityOf(contracts: seq<Contract>, digest: Digest): Identity
  {
    Identity(Sort(VersionNames(contracts), TextLeq), digest.hash(Sort(contracts, ContractLeq)))
  }

  /** The loop over the entries: accepted exactly if every entry is well-formed and no identity repeats. */
  method ParseContracts(contracts: seq<Contract>, digest: Digest) returns (identity: Option<Identity>)
    ensures identity.Some? <==> Acceptable(contracts)
    ensures identity.Some? ==> identity.value == IdentityOf(contracts, digest)
  {
    if contracts == [] {
      return None;
    }
    var versions: seq<string> := [];
    var seen: set<SchemaKey> := {};
    assert contracts[..0] == [];
    for n := 0 to |contracts|
      invariant Scanned(contracts[..n], seen)
      invariant versions == VersionNames(contracts[..n])
    {
      var contract := contracts[n];
      ScanStep(contracts, n, seen);
      if !EntryOk(contract) || KeyOf(contract) in seen {
        return None;
      }
      seen := seen + {KeyOf(contract)};
      versions := versions + [VersionName(contract)];
    }
    assert contracts[..|contracts|] == contracts;
    identity := Some(Identity(Sort(versions, TextLeq), digest.hash(Sort(contracts, ContractLeq))));
  }

  datatype SchemaKey = SchemaKey(schemaId: string, version: int)

  function KeyOf(c: Contract): SchemaKey { SchemaKey(c.schemaId, c.version) }

  ghost predicate AllOk(contracts: seq<Contract>) {
    forall c :: c in contracts ==> EntryOk(c)
  }

  /** What the loop knows of the entries that it has passed. */
  ghost predicate Scanned(passed: seq<Contract>, seen: set<SchemaKey>) {
    && AllOk(passed) && DistinctIdentities(passed)
    && seen == set c | c in passed :: KeyOf(c)
  }

  lemma ScanStep(contracts: seq<Contract>, n: nat, seen: set<SchemaKey>)
    requires n < |contracts| && Scanned(contracts[..n], seen)
    ensures var c := contracts[n];
            EntryOk(c) && KeyOf(c) !in seen ==>
              Scanned(contracts[..n + 1], seen + {KeyOf(c)})
              && VersionNames(contracts[..n + 1]) == VersionNames(contracts[..n]) + [VersionName(c)]
    ensures !EntryOk(contracts[n]) || KeyOf(contracts[n]) in seen ==> !Acceptable(contracts)
  {
    var passed, c := contracts[..n], contracts[n];
    assert contracts[..n + 1] == passed + [c];
    assert forall x :: x in passed + [c] <==> x in passed || x == c;
    if KeyOf(c) in seen {
      var x :| x in passed && KeyOf(x) == KeyOf(c);
      var i :| 0 <= i < n && passed[i] == x;
      assert contracts[i] == x;
    } else {
      FreshKeyIsDistinct(passed, c);
    }
  }

  lemma FreshKeyIsDistinct(passed: seq<Contract>, c: Contract)
    requires DistinctIdentities(passed) && forall x :: x in passed ==> KeyOf(x) != KeyOf(c)
    ensures DistinctIdentities(passed + [c])
  {
    assert forall i :: 0 <= i < |passed| ==> passed[i] in passed;
  }

  // ----- Order is irrelevant -----

  /** The names of a list without their order. */
  ghost function NameBag(s: seq<Contract>): multiset<string> {
    if s == [] then multiset{} else multiset{VersionName(s[0])} + NameBag(s[1..])
  }

  lemma {:induction false} BagOfLast(s: seq<Contract>, x: Contract)
    ensures NameBag(s + [x]) == NameBag(s) + multiset{VersionName(x)}
  {
    if s == [] {
      assert s + [x] == [x] && [x][1..] == [];
    } else {
      BagOfLast(s[1..], x);
      assert (s + [x])[1..] == s[1..] + [x];
    }
  }

  lemma {:induction false} NamesAreBag(s: seq<Contract>)
    ensures multiset(VersionNames(s)) == NameBag(s)
  {
    if s != [] {
      var init, last := s[..|s| - 1], s[|s| - 1];
      SplitLast(s);
      NamesAreBag(init);
      OneMoreName(init, last);
    }
  }

  lemma OneMoreName(init: seq<Contract>, last: Contract)
    requires multiset(VersionNames(init)) == NameBag(init)
    ensures multiset(VersionNames(init + [last])) == NameBag(init + [last])
  {
    var s := init + [last];
    assert s[..|s| - 1] == init;
    BagOfLast(init, last);
    MultisetOfLast(VersionNames(init), VersionName(last));
  }

  lemma MultisetOfLast(s: seq<string>, x: string)
    ensures multiset(s + [x]) == multiset(s) + multiset{x}
  {
  }

  lemma BagOfHead(x: Contract, s: seq<Contract>)
    ensures NameBag([x] + s) == multiset{VersionName(x)} + NameBag(s)
  {
    assert ([x] + s)[1..] == s;
  }

  lemma {:induction false} BagOfInsert(x: Contract, s: seq<Contract>)
    ensures NameBag(Insert(x, s, ContractLeq)) == multiset{VersionName(x)} + NameBag(s)
  {
    if s == [] || ContractLeq(x, s[0]) {
      BagOfHead(x, s);
      assert [x] + s == if s == [] then [x] else [x] + s;
    } else {
      BagOfInsert(x, s[1..]);
      BagOfHead(s[0], Insert(x, s[1..], ContractLeq));
    }
  }

  lemma {:induction false} NamesOfSorted(s: seq<Contract>)
    ensures NameBag(Sort(s, ContractLeq)) == NameBag(s)
  {
    if s != [] {
      NamesOfSorted(s[1..]);
      BagOfInsert(s[0], Sort(s[1..], ContractLeq));
    }
  }

  /** Any permutation of a list has the same versions and the same digest. */
  lemma IdentityIgnoresOrder(a: seq<Contract>, b: seq<Contract>, digest: Digest)
    requires multiset(a) == multiset(b)
    ensures IdentityOf(a, digest) == IdentityOf(b, digest)
  {
    TextOrder();
    ContractOrder();
    SortForgetsOrder(a, b, ContractLeq);
    NamesOfSorted(a);
    NamesOfSorted(b);
    NamesAreBag(a);
    NamesAreBag(b);
    SortForgetsOrder(VersionNames(a), VersionNames(b), TextLeq);
  }

  lemma AcceptanceIgnoresOrder(a: seq<Contract>, b: seq<Contract>)
    requires Acceptable(a) && multiset(a) == multiset(b)
    ensures Acceptable(b)
  {
    PermutationFacts(a, b);
    assert Distinct(a);
    forall c | c in b ensures c in a {
      assert c in Elements(b);
    }
    forall i, j | 0 <= i < j < |b| ensures KeyOf(b[i]) != KeyOf(b[j]) {
      assert b[i] != b[j] && b[i] in b && b[j] in b;
      var k :| 0 <= k < |a| && a[k] == b[i];
      var l :| 0 <= l < |a| && a[l] == b[j];
    }
  }

  /** The canonical list is the one arrangement that is sorted by id and version. */
  lemma CanonicalListIsSortedByKey(contracts: seq<Contract>, s: seq<Contract>)
    requires Acceptable(contracts) && multiset(s) == multiset(contracts)
    requires forall i, j :: 0 <= i < j < |s| ==> KeyLeq(s[i], s[j])
    ensures s == Sort(contracts, ContractLeq)
  {
    AcceptanceIgnoresOrder(contracts, s);
    assert Sorted(s, ContractLeq);
    ContractOrder();
    SortSorted(contracts, ContractLeq);
    SortedIsUnique(s, Sort(contracts, ContractLeq), ContractLeq);
  }

  ghost predicate InjectiveDigest(digest: Digest) {
    forall a, b :: digest.hash(a) == digest.hash(b) ==> a == b
  }

  /** Without hash collisions, equal digests mean the same contracts. */
  lemma EqualDigestsMeanEqualContracts(a: seq<Contract>, b: seq<Contract>, digest: Digest)
    requires Acceptable(a) && Acceptable(b) && InjectiveDigest(digest)
    ensures IdentityOf(a, digest).sha256 == IdentityOf(b, digest).sha256 <==> multiset(a) == multiset(b)
  {
    if multiset(a) == multiset(b) {
      IdentityIgnoresOrder(a, b, digest);
    }
    if Sort(a, ContractLeq) == Sort(b, ContractLeq) {
      assert multiset(a) == multiset(Sort(a, ContractLeq)) == multiset(b);
    }
  }
}
