/** Release bundles in plain terms: which contract entries, which sets of files and which archives are accepted. */
module BundleOutcomes {
  import opened SequenceFacts
  import opened Results
  import opened Sorting
  import opened ContractManifest
  import opened BundlePaths
  import opened SourcePins
  import opened ReleaseBundle
  import opened ReleaseBundleTheory
  import opened SourceDigestTheory

  // ----- Entries -----

  const SMALL_LETTERS := "abcdefghijklmnopqrstuvwxyz"

  /** 64 hexadecimal digits in lower case. */
  ghost predicate Hex64(s: string) { |s| == 64 && forall i :: 0 <= i < 64 ==> s[i] in "0123456789abcdef" }

  lemma HexDigit(c: char)
    ensures c in "0123456789abcdef" <==> IsDigit(c) || 'a' <= c <= 'f'
  {
    var digits := "0123456789abcdef";
    if IsDigit(c) {
      assert digits[c as int - '0' as int] == c;
    } else if 'a' <= c <= 'f' {
      assert digits[c as int - 'a' as int + 10] == c;
    }
  }

  lemma ShaIs(s: string)
    ensures IsSha256(s) <==> Hex64(s)
  {
    forall i | 0 <= i < |s| ensures s[i] in "0123456789abcdef" <==> IsDigit(s[i]) || 'a' <= s[i] <= 'f' {
      HexDigit(s[i]);
    }
  }

  /** A small letter, then small letters, digits and underscores. */
  ghost predicate Identifier(id: string) {
    && id != "" && id[0] in SMALL_LETTERS
    && forall i :: 0 <= i < |id| ==> id[i] in SMALL_LETTERS || id[i] in "0123456789" || id[i] == '_'
  }

  lemma LetterIs(c: char)
    ensures c in SMALL_LETTERS <==> 'a' <= c <= 'z'
    ensures c in "0123456789" <==> '0' <= c <= '9'
  {
    if 'a' <= c <= 'z' {
      assert SMALL_LETTERS[c as int - 'a' as int] == c;
    }
    if '0' <= c <= '9' {
      assert "0123456789"[c as int - '0' as int] == c;
    }
  }

  lemma IdentifierIs(id: string)
    ensures ValidId(id) <==> Identifier(id)
  {
    forall i | 0 <= i < |id|
      ensures id[i] in SMALL_LETTERS <==> 'a' <= id[i] <= 'z'
      ensures id[i] in "0123456789" <==> '0' <= id[i] <= '9'
    {
      LetterIs(id[i]);
    }
  }

  /** The digits of a number, the last one first: the decimal numeral and nothing else. */
  ghost predicate IsNumeralOf(s: string, n: nat) {
    && s != ""
    && (n < 10 ==> |s| == 1)
    && (n >= 10 ==> IsNumeralOf(s[..|s| - 1], n / 10))
    && "0123456789"[n % 10] == s[|s| - 1]
  }

  lemma {:induction false} DecimalIs(n: nat)
    ensures IsNumeralOf(Decimal(n), n)
  {
    DigitIs(n % 10);
    if n >= 10 {
      DecimalIs(n / 10);
      assert Decimal(n)[..|Decimal(n)| - 1] == Decimal(n / 10);
    }
  }

  lemma DigitIs(d: nat)
    requires d < 10
    ensures "0123456789"[d] == DigitOf(d)
  {
  }

  /** An entry names its schema by id and version, the path is built from both, and the checksum is well-formed. */
  ghost predicate Entry(c: Contract) {
    && Identifier(c.schemaId) && c.version >= 1 && Hex64(c.sha256)
    && c.path == c.schemaId + "/v" + Decimal(c.version) + ".schema.json"
  }

  lemma EntryIs(c: Contract)
    ensures EntryOk(c) <==> Entry(c)
  {
    IdentifierIs(c.schemaId);
    ShaIs(c.sha256);
    if EntryOk(c) {
      PrintParsed(c.path);
    }
    if Entry(c) {
      ParsePrinted(c.schemaId, c.version);
    }
  }

  /** Which manifests of contracts are accepted: some entries, all in order, no id with the same version twice. */
  lemma AcceptableIs(contracts: seq<Contract>)
    ensures Acceptable(contracts) <==>
      && |contracts| > 0 && (forall i :: 0 <= i < |contracts| ==> Entry(contracts[i]))
      && forall i, j :: 0 <= i < j < |contracts| && contracts[i].schemaId == contracts[j].schemaId ==>
           contracts[i].version != contracts[j].version
  {
    forall i | 0 <= i < |contracts| ensures EntryOk(contracts[i]) <==> Entry(contracts[i]) {
      EntryIs(contracts[i]);
    }
    if AllOk(contracts) {
      forall i | 0 <= i < |contracts| ensures EntryOk(contracts[i]) {
        assert contracts[i] in contracts;
      }
    }
  }

  // ----- The identity -----

  /** The entries arranged by id and version. */
  ghost predicate Arranged(s: seq<Contract>, contracts: seq<Contract>) {
    && multiset(s) == multiset(contracts)
    && forall i, j :: 0 <= i < j < |s| ==>
         TextLeq(s[i].schemaId, s[j].schemaId) && (s[i].schemaId == s[j].schemaId ==> s[i].version <= s[j].version)
  }

  function Labels(contracts: seq<Contract>): (names: seq<string>)
    requires forall i :: 0 <= i < |contracts| ==> contracts[i].version >= 0
    ensures |names| == |contracts|
    ensures forall i :: 0 <= i < |contracts| ==> names[i] == contracts[i].schemaId + ".v" + Decimal(contracts[i].version)
  {
    seq(|contracts|, i requires 0 <= i < |contracts| => contracts[i].schemaId + ".v" + Decimal(contracts[i].version))
  }

  lemma {:induction false} LabelsAre(contracts: seq<Contract>)
    requires forall i :: 0 <= i < |contracts| ==> contracts[i].version >= 0
    ensures VersionNames(contracts) == Labels(contracts)
  {
    if contracts != [] {
      var n := |contracts| - 1;
      LabelsAre(contracts[..n]);
      assert Labels(contracts) == Labels(contracts[..n]) + [VersionName(contracts[n])];
    }
  }

  /** The identity of an accepted manifest: its labels in ascending order, and the hash of the arranged entries. */
  lemma IdentityIs(contracts: seq<Contract>, digest: Digest, arranged: seq<Contract>, labels: seq<string>)
    requires Acceptable(contracts) && Arranged(arranged, contracts)
    requires forall i :: 0 <= i < |contracts| ==> contracts[i].version >= 0
    requires Sorted(labels, TextLeq) && multiset(labels) == multiset(Labels(contracts))
    ensures IdentityOf(contracts, digest) == Identity(labels, digest.hash(arranged))
  {
    LabelsAre(contracts);
    TextOrder();
    SortSorted(Labels(contracts), TextLeq);
    SortedIsUnique(labels, Sort(Labels(contracts), TextLeq), TextLeq);
    CanonicalListIsSortedByKey(contracts, arranged);
  }

  // ----- Safe names -----

  /** The characters from i to j stand between two slashes, or between a slash and an end. */
  ghost predicate Segment(s: string, i: int, j: int) {
    && 0 <= i <= j <= |s| && (i == 0 || s[i - 1] == '/') && (j == |s| || s[j] == '/')
    && forall k :: i <= k < j ==> s[k] != '/'
  }

  ghost predicate HasSegment(s: string, part: string) { exists i, j :: Segment(s, i, j) && s[i..j] == part }

  /** What follows the first slash, segment by segment. */
  lemma LaterSegments(s: string, k: int, i: int, j: int)
    requires 0 <= k < |s| && s[k] == '/' && forall m :: 0 <= m < k ==> s[m] != '/'
    ensures Segment(s[k + 1..], i, j) ==> Segment(s, i + k + 1, j + k + 1) && s[i + k + 1..j + k + 1] == s[k + 1..][i..j]
    ensures Segment(s, i, j) && i > 0 ==>
      && i > k && Segment(s[k + 1..], i - k - 1, j - k - 1)
      && s[k + 1..][i - k - 1..j - k - 1] == s[i..j]
    ensures Segment(s, 0, j) ==> j == k
  {
  }

  lemma SplitSegments(s: string, k: int, part: string)
    requires 0 <= k < |s| && s[k] == '/' && forall m :: 0 <= m < k ==> s[m] != '/'
    ensures HasSegment(s, part) <==> part == s[..k] || HasSegment(s[k + 1..], part)
  {
    var rest := s[k + 1..];
    assert Segment(s, 0, k) && s[0..k] == s[..k];
    if i, j :| Segment(rest, i, j) && rest[i..j] == part {
      LaterSegments(s, k, i, j);
      assert Segment(s, i + k + 1, j + k + 1);
    }
    if i, j :| Segment(s, i, j) && s[i..j] == part {
      LaterSegments(s, k, i, j);
    }
  }

  lemma {:induction false} SegmentsAre(s: string, part: string)
    ensures part in Components(s) <==> HasSegment(s, part)
    decreases |s|
  {
    IndexOfIs(s, '/');
    var k := IndexOf(s, '/');
    if k == |s| {
      assert Segment(s, 0, k) && s[0..k] == s;
    } else {
      SegmentsAre(s[k + 1..], part);
      SplitSegments(s, k, part);
    }
  }

  /** A safe name: no backslash, and nothing between slashes that is empty, one dot or two dots; so it is neither empty
      nor absolute. */
  lemma SafeIs(s: string)
    ensures SafeRelative(s) <==>
      && (forall k :: 0 <= k < |s| ==> s[k] != '\\')
      && forall i, j :: Segment(s, i, j) ==> s[i..j] != "" && s[i..j] != "." && s[i..j] != ".."
  {
    if SafeRelative(s) {
      forall i, j | Segment(s, i, j) ensures s[i..j] != "" && s[i..j] != "." && s[i..j] != ".." {
        SegmentsAre(s, s[i..j]);
      }
    }
    if forall i, j :: Segment(s, i, j) ==> s[i..j] != "" && s[i..j] != "." && s[i..j] != ".." {
      forall part | part in Components(s) ensures part != "" && part != "." && part != ".." {
        SegmentsAre(s, part);
      }
      if s == "" || s[0] == '/' {
        assert Segment(s, 0, 0);
      }
    }
  }

  // ----- A manifest and the files that it describes -----

  ghost predicate NonNegative(contracts: seq<Contract>) { forall i :: 0 <= i < |contracts| ==> contracts[i].version >= 0 }

  /** The manifest's own fields are in order and it names these contracts. */
  ghost predicate NamesContracts(codec: Codec, m: ReleaseManifest, contracts: seq<Contract>)
    requires NonNegative(contracts)
  {
    && codec.fieldsOk(m) && Hex64(m.contractDigest) && Hex64(m.sourceDigest)
    && (forall labels :: Sorted(labels, TextLeq) && multiset(labels) == multiset(Labels(contracts)) ==> m.versions == labels)
    && (forall arranged :: Arranged(arranged, contracts) ==> m.contractDigest == codec.digest.hash(arranged))
  }

  lemma AcceptableIsNonNegative(contracts: seq<Contract>)
    requires Acceptable(contracts)
    ensures NonNegative(contracts)
  {
    forall i | 0 <= i < |contracts| ensures contracts[i].version >= 0 {
      assert contracts[i] in contracts;
    }
  }

  lemma SortIsArranged(contracts: seq<Contract>)
    ensures Arranged(Sort(contracts, ContractLeq), contracts)
  {
    ContractOrder();
    TextOrder();
    SortSorted(contracts, ContractLeq);
  }

  lemma ContractsNamed(codec: Codec, m: ReleaseManifest, contracts: seq<Contract>)
    requires Acceptable(contracts) && NonNegative(contracts)
    ensures ManifestOk(codec, m, IdentityOf(contracts, codec.digest)) <==> NamesContracts(codec, m, contracts)
  {
    ShaIs(m.contractDigest);
    ShaIs(m.sourceDigest);
    var arranged, labels := Sort(contracts, ContractLeq), Sort(Labels(contracts), TextLeq);
    TextOrder();
    SortIsArranged(contracts);
    SortSorted(Labels(contracts), TextLeq);
    forall s, l | Arranged(s, contracts) && Sorted(l, TextLeq) && multiset(l) == multiset(Labels(contracts))
      ensures IdentityOf(contracts, codec.digest) == Identity(l, codec.digest.hash(s))
    {
      IdentityIs(contracts, codec.digest, s, l);
    }
  }

  ghost predicate HasAll(contents: map<string, Bytes>, names: seq<string>) { forall name :: name in names ==> name in contents }

  /** Every schema is there with the checksum that its entry declares. */
  ghost predicate SchemasAsDeclared(codec: Codec, contracts: seq<Contract>, contents: map<string, Bytes>) {
    forall i :: 0 <= i < |contracts| ==>
      && "contracts/" + contracts[i].path in contents
      && codec.sha256(contents["contracts/" + contracts[i].path]) == contracts[i].sha256
  }

  /** The manifest's digest is that of the listing of the fixed files. */
  ghost predicate DigestsFiles(codec: Codec, m: ReleaseManifest, contents: map<string, Bytes>) {
    forall records :: Listing(codec, FixedNames(m.unit), contents, records) ==>
      m.sourceDigest == codec.sha256(codec.encodeRecords(records))
  }

  lemma SchemasDeclared(codec: Codec, contracts: seq<Contract>, contents: map<string, Bytes>)
    ensures SchemasMatch(codec, contracts, contents) <==> SchemasAsDeclared(codec, contracts, contents)
  {
    if SchemasMatch(codec, contracts, contents) {
      forall i | 0 <= i < |contracts| ensures SchemaMatches(codec, contracts[i], contents) {
        assert contracts[i] in contracts;
      }
    }
    if SchemasAsDeclared(codec, contracts, contents) {
      forall c | c in contracts ensures SchemaMatches(codec, c, contents) {
        var i :| 0 <= i < |contracts| && contracts[i] == c;
      }
    }
  }

  lemma SortedRecordsList(codec: Codec, names: seq<string>, contents: map<string, Bytes>)
    requires Distinct(names) && Holds(contents, Sort(names, TextLeq))
    ensures Listing(codec, names, contents, Records(codec, Sort(names, TextLeq), contents))
  {
    var sorted := Sort(names, TextLeq);
    var records := Records(codec, sorted, contents);
    TextOrder();
    SortSorted(names, TextLeq);
    SortKeepsElements(names);
    RecordsAre(codec, sorted, contents);
    forall name ensures name in sorted <==> name in names {
      InSorted(names, name);
    }
    ListingOfSorted(codec, names, sorted, contents, records);
  }

  lemma ListingOfSorted(codec: Codec, names: seq<string>, sorted: seq<string>, contents: map<string, Bytes>,
                        records: seq<Record>)
    requires Distinct(sorted) && Sorted(sorted, TextLeq) && forall name :: name in sorted <==> name in names
    requires |records| == |sorted| && forall i :: 0 <= i < |records| ==>
               sorted[i] in contents && records[i] == Record(sorted[i], codec.sha256(contents[sorted[i]]))
    ensures Listing(codec, names, contents, records)
  {
    forall i | 0 <= i < |records| ensures records[i].path in names {
      assert sorted[i] in sorted;
    }
    forall name | name in names ensures exists i :: 0 <= i < |records| && records[i].path == name {
      var i :| 0 <= i < |sorted| && sorted[i] == name;
      assert records[i].path == name;
    }
  }

  lemma FilesDigested(codec: Codec, m: ReleaseManifest, contents: map<string, Bytes>)
    requires Holds(contents, SortedFixed(m.unit))
    ensures m.sourceDigest == SourceDigest(codec, m.unit, contents) <==> DigestsFiles(codec, m, contents)
  {
    FixedNamesAreDistinct(m.unit);
    SortedRecordsList(codec, FixedNames(m.unit), contents);
    forall records | Listing(codec, FixedNames(m.unit), contents, records)
      ensures SourceDigest(codec, m.unit, contents) == codec.sha256(codec.encodeRecords(records))
    {
      SourceDigestOfListing(codec, m.unit, contents, records);
    }
  }

  lemma AllAreSorted(contents: map<string, Bytes>, names: seq<string>)
    ensures Holds(contents, Sort(names, TextLeq)) <==> HasAll(contents, names)
  {
    forall name ensures name in Sort(names, TextLeq) <==> name in names {
      InSorted(names, name);
    }
  }

  /** Main result: when a manifest, contracts and files fit together, in plain terms: the contracts are those of the
      contract file, each schema has its declared checksum, the manifest names the contracts and digests the fixed files,
      and a fetcher release is of the second version exactly if its deployment script knows the newer consumers. */
  lemma ConsistentIs(codec: Codec, m: ReleaseManifest, contracts: seq<Contract>, contents: map<string, Bytes>)
    ensures Consistent(codec, m, contracts, contents) <==>
      && Acceptable(contracts) && NonNegative(contracts)
      && HasAll(contents, FixedNames(m.unit)) && CONTRACTS_NAME in contents
      && codec.decodeContracts(contents[CONTRACTS_NAME]) == Some(contracts)
      && SchemasAsDeclared(codec, contracts, contents)
      && NamesContracts(codec, m, contracts) && DigestsFiles(codec, m, contents)
      && (m.unit == Fetcher ==>
           && Text(DEPLOY_FETCHER) in contents
           && (codec.marksFactset(contents[Text(DEPLOY_FETCHER)]) <==> m.bundleVersion == 2))
  {
    SchemasDeclared(codec, contracts, contents);
    AllAreSorted(contents, FixedNames(m.unit));
    if Acceptable(contracts) {
      AcceptableIsNonNegative(contracts);
      ContractsNamed(codec, m, contracts);
      SchemasAreHeld(codec, contracts, contents);
      AllNamesArePinned(m.unit, contracts, contents);
    }
    if Holds(contents, SortedFixed(m.unit)) {
      FilesDigested(codec, m, contents);
    }
  }

  lemma SchemasAreHeld(codec: Codec, contracts: seq<Contract>, contents: map<string, Bytes>)
    ensures SchemasAsDeclared(codec, contracts, contents) ==> Holds(contents, SchemaNames(contracts))
  {
    if SchemasAsDeclared(codec, contracts, contents) {
      forall name | name in SchemaNames(contracts) ensures name in contents {
        var i :| 0 <= i < |contracts| && SchemaNames(contracts)[i] == name;
      }
    }
  }

  // ----- Archives -----

  ghost predicate NamesDiffer(members: seq<Member>) {
    forall i, j :: 0 <= i < j < |members| ==> members[i].name != members[j].name
  }

  /** The archive's files by name. */
  ghost predicate FilesOf(members: seq<Member>, contents: map<string, Bytes>) {
    && (forall i :: 0 <= i < |members| ==> members[i].name in contents && contents[members[i].name] == members[i].content)
    && (forall name :: name in contents ==> exists i :: 0 <= i < |members| && members[i].name == name)
  }

  lemma FilesAre(members: seq<Member>, contents: map<string, Bytes>)
    requires NamesDiffer(members)
    ensures FilesOf(members, contents) <==> contents == Contents(members)
  {
    DifferIs(members);
    ContentsKeys(members);
    forall i | 0 <= i < |members|
      ensures members[i].name in Contents(members) && Contents(members)[members[i].name] == members[i].content
    {
      ContentsAt(members, i);
    }
    forall name ensures name in Contents(members) <==> exists i :: 0 <= i < |members| && members[i].name == name {
      NamedMember(members, name);
    }
    if FilesOf(members, contents) {
      assert contents.Keys == Contents(members).Keys;
    }
  }

  lemma NamedMember(members: seq<Member>, name: string)
    ensures name in Elements(MemberNames(members)) <==> exists i :: 0 <= i < |members| && members[i].name == name
  {
    var names := MemberNames(members);
    if name in names {
      var i :| 0 <= i < |names| && names[i] == name;
      assert members[i].name == name;
    }
    if i :| 0 <= i < |members| && members[i].name == name {
      assert names[i] == name;
    }
  }

  lemma DifferIs(members: seq<Member>)
    ensures NamesDiffer(members) <==> DistinctNames(members)
  {
    var names := MemberNames(members);
    assert forall i :: 0 <= i < |members| ==> names[i] == members[i].name;
  }

  /** Sizes: at most 128 members of at most four mebibytes, twelve mebibytes in all. */
  ghost predicate SizesInBounds(members: seq<Member>) {
    && |members| <= 128 && TotalSize(members) <= 12 * 1_048_576
    && forall i :: 0 <= i < |members| ==> |members[i].content| <= 4 * 1_048_576
  }

  /** The sizes add up, member by member. */
  lemma {:induction false} SizesAddUp(a: seq<Member>, b: seq<Member>)
    ensures TotalSize(a + b) == TotalSize(a) + TotalSize(b)
    decreases |b|
  {
    if b == [] {
      assert a + b == a;
    } else {
      var n := |b| - 1;
      SizesAddUp(a, b[..n]);
      assert (a + b)[..|a + b| - 1] == a + b[..n] && (a + b)[|a + b| - 1] == b[n];
    }
  }

  lemma SizeOfOne(member: Member)
    ensures TotalSize([member]) == |member.content| && TotalSize([]) == 0
  {
    assert [member][..0] == [];
  }

  /** A regular file with the one mode that its name has, under a safe name. */
  ghost predicate ProperMembers(members: seq<Member>) {
    forall i :: 0 <= i < |members| ==>
      members[i].plain && members[i].mode == FileMode(members[i].name) && SafeRelative(members[i].name)
  }

  lemma SafeMembers(members: seq<Member>)
    ensures (forall name :: name in MemberNames(members) ==> SafeRelative(name)) <==>
      forall i :: 0 <= i < |members| ==> SafeRelative(members[i].name)
  {
    var names := MemberNames(members);
    forall i | 0 <= i < |members| ensures names[i] == members[i].name && names[i] in names {
    }
  }

  /** The manifest describes these contracts and files. */
  ghost predicate Describes(codec: Codec, m: ReleaseManifest, contracts: seq<Contract>, contents: map<string, Bytes>) {
    && Acceptable(contracts) && NonNegative(contracts)
    && SchemasAsDeclared(codec, contracts, contents)
    && NamesContracts(codec, m, contracts) && DigestsFiles(codec, m, contents)
  }

  /** Main result: the accepted archives in plain terms.  members, contents and contracts are what the archive holds. */
  lemma {:induction false} AcceptsIs(codec: Codec, raw: Bytes, expected: string, unit: Unit, m: ReleaseManifest,
                                     members: seq<Member>, contents: map<string, Bytes>, contracts: seq<Contract>)
    requires codec.unpack(raw) == Some(members) && NamesDiffer(members) && FilesOf(members, contents)
    requires CONTRACTS_NAME in contents && codec.decodeContracts(contents[CONTRACTS_NAME]) == Some(contracts)
    ensures Accepts(codec, raw, expected, unit, m) <==>
      && |raw| <= 16 * 1_048_576 && Hex64(expected) && codec.sha256(raw) == expected
      && SizesInBounds(members) && ProperMembers(members)
      && contents.Keys == {MANIFEST_NAME} + Elements(FixedNames(unit)) + Elements(SchemaNames(contracts))
      && codec.decodeManifest(contents[MANIFEST_NAME]) == Some(m) && m.unit == unit
      && Describes(codec, m, contracts, contents)
  {
    FilesAre(members, contents);
    DifferIs(members);
    AcceptsInSteps(codec, raw, expected, unit, m, members, contents, contracts);
    StepsAre(codec, raw, expected, unit, m, members, contents, contracts);
    NamesAreBoth(unit, contracts);
  }

  /** What the validator's steps ask of the archive. */
  ghost predicate Steps(codec: Codec, raw: Bytes, expected: string, unit: Unit, m: ReleaseManifest,
                        members: seq<Member>, contents: map<string, Bytes>, contracts: seq<Contract>) {
    && |raw| <= MAX_BUNDLE_BYTES && IsSha256(expected) && codec.sha256(raw) == expected
    && WithinBudgets(members) && (forall name :: name in MemberNames(members) ==> SafeRelative(name))
    && MANIFEST_NAME in contents && codec.decodeManifest(contents[MANIFEST_NAME]) == Some(m) && m.unit == unit
    && BodyOk(codec, members, m, contracts)
  }

  lemma {:induction false} StepsAre(codec: Codec, raw: Bytes, expected: string, unit: Unit, m: ReleaseManifest,
                                    members: seq<Member>, contents: map<string, Bytes>, contracts: seq<Contract>)
    requires contents == Contents(members)
    ensures Steps(codec, raw, expected, unit, m, members, contents, contracts) <==>
      && |raw| <= 16 * 1_048_576 && Hex64(expected) && codec.sha256(raw) == expected
      && SizesInBounds(members) && ProperMembers(members)
      && contents.Keys == {MANIFEST_NAME} + Elements(Names(unit, contracts))
      && codec.decodeManifest(contents[MANIFEST_NAME]) == Some(m) && m.unit == unit
      && Describes(codec, m, contracts, contents)
  {
    ShaIs(expected);
    ProperIs(members);
    SizesAre(members);
    BodyIs(codec, members, m, contents, contracts);
  }

  lemma ProperIs(members: seq<Member>)
    ensures ProperMembers(members) <==>
      && (forall name :: name in MemberNames(members) ==> SafeRelative(name))
      && (forall i :: 0 <= i < |members| ==> Canonical(members[i]))
  {
    SafeMembers(members);
  }

  lemma SizesAre(members: seq<Member>)
    ensures SizesInBounds(members) <==> WithinBudgets(members)
  {
  }

  lemma NamesAreBoth(unit: Unit, contracts: seq<Contract>)
    ensures Elements(Names(unit, contracts)) == Elements(FixedNames(unit)) + Elements(SchemaNames(contracts))
  {
  }

  /** The order of the validator's steps does not matter. */
  lemma {:induction false} AcceptsInSteps(codec: Codec, raw: Bytes, expected: string, unit: Unit, m: ReleaseManifest,
                                          members: seq<Member>, contents: map<string, Bytes>, contracts: seq<Contract>)
    requires codec.unpack(raw) == Some(members) && DistinctNames(members) && contents == Contents(members)
    requires CONTRACTS_NAME in contents && codec.decodeContracts(contents[CONTRACTS_NAME]) == Some(contracts)
    ensures Accepts(codec, raw, expected, unit, m) <==> Steps(codec, raw, expected, unit, m, members, contents, contracts)
  {
    SetSize(MemberNames(members));
    HeadsAre(codec, members, contents, m);
    HeadCanonical(members, contents, MANIFEST_NAME);
    HeadCanonical(members, contents, CONTRACTS_NAME);
  }

  lemma {:induction false} HeadCanonical(members: seq<Member>, contents: map<string, Bytes>, name: string)
    requires DistinctNames(members) && contents == Contents(members)
    ensures name in contents && (forall i :: 0 <= i < |members| ==> Canonical(members[i])) ==> CanonicalAt(members, name)
    ensures CanonicalAt(members, name) ==> name in contents
  {
    ContentsKeys(members);
    NamedMember(members, name);
    if name in contents {
      var i :| 0 <= i < |members| && members[i].name == name;
      FindsItsMember(members, i);
    }
    if Find(members, name).Some? {
      FoundIsMember(members, name);
      var i :| 0 <= i < |members| && members[i] == Find(members, name).value;
      ContentsAt(members, i);
    }
  }

  lemma {:induction false} HeadsAre(codec: Codec, members: seq<Member>, contents: map<string, Bytes>, m: ReleaseManifest)
    requires DistinctNames(members) && contents == Contents(members)
    ensures forall name :: name in contents ==>
      Find(members, name).Some? && Find(members, name).value.content == contents[name]
  {
    ContentsKeys(members);
    forall name | name in contents
      ensures Find(members, name).Some? && Find(members, name).value.content == contents[name]
    {
      NamedMember(members, name);
      var i :| 0 <= i < |members| && members[i].name == name;
      FindsItsMember(members, i);
      ContentsAt(members, i);
    }
  }

  lemma {:induction false} BodyIs(codec: Codec, members: seq<Member>, m: ReleaseManifest, contents: map<string, Bytes>,
                                  contracts: seq<Contract>)
    requires contents == Contents(members)
    ensures BodyOk(codec, members, m, contracts) <==>
      && contents.Keys == {MANIFEST_NAME} + Elements(Names(m.unit, contracts))
      && (forall i :: 0 <= i < |members| ==> Canonical(members[i]))
      && Describes(codec, m, contracts, contents)
  {
    ContentsKeys(members);
    SchemasDeclared(codec, contracts, contents);
    AllAreSorted(contents, FixedNames(m.unit));
    if Acceptable(contracts) {
      AcceptableIsNonNegative(contracts);
      ContractsNamed(codec, m, contracts);
    }
    if contents.Keys == {MANIFEST_NAME} + Elements(Names(m.unit, contracts)) {
      forall name | name in FixedNames(m.unit) ensures name in contents {
        assert name in Names(m.unit, contracts);
      }
    }
    if Holds(contents, SortedFixed(m.unit)) {
      FilesDigested(codec, m, contents);
    }
  }

  /** Every accepted archive has such members, files and contracts. */
  lemma AcceptedArchiveIsReadable(codec: Codec, raw: Bytes, expected: string, m: ReleaseManifest)
    returns (members: seq<Member>, contents: map<string, Bytes>, contracts: seq<Contract>)
    requires Accepts(codec, raw, expected, m.unit, m)
    ensures codec.unpack(raw) == Some(members) && NamesDiffer(members) && FilesOf(members, contents)
    ensures CONTRACTS_NAME in contents && codec.decodeContracts(contents[CONTRACTS_NAME]) == Some(contracts)
  {
    members := codec.unpack(raw).value;
    contents := Contents(members);
    contracts := AcceptedContracts(codec, raw, expected, m);
    SetSize(MemberNames(members));
    DifferIs(members);
    FilesAre(members, contents);
  }
}
