/** What a release manifest pins: its source digest decides the bytes of every fixed file, and an archive accepted with
    it can hold no other bytes. */
module SourceDigestTheory {
  import opened SequenceFacts
  import opened Results
  import opened Sorting
  import opened ContractManifest
  import opened BundlePaths
  import opened SourcePins
  import opened ReleaseBundle
  import opened ReleaseBundleTheory

  // ----- The digest as a list of paths and hashes -----

  /** One record a name, in the order of the names, with the hash of that name's bytes. */
  lemma {:induction false} RecordsAre(codec: Codec, names: seq<string>, contents: map<string, Bytes>)
    requires Holds(contents, names)
    ensures |Records(codec, names, contents)| == |names|
    ensures forall i :: 0 <= i < |names| ==>
      names[i] in contents && Records(codec, names, contents)[i] == Record(names[i], codec.sha256(contents[names[i]]))
  {
    if names != [] {
      RecordsAre(codec, names[1..], contents);
      assert names[0] in names;
      assert forall i :: 0 < i < |names| ==> names[i] == names[1..][i - 1];
    }
  }

  /** The named files, each once, in ascending order of their paths, with the hash of their bytes. */
  ghost predicate Listing(codec: Codec, names: seq<string>, contents: map<string, Bytes>, records: seq<Record>) {
    && (forall i, j :: 0 <= i < j < |records| ==>
         TextLeq(records[i].path, records[j].path) && records[i].path != records[j].path)
    && (forall i :: 0 <= i < |records| ==> records[i].path in names)
    && (forall name :: name in names ==> exists i :: 0 <= i < |records| && records[i].path == name)
    && forall i :: 0 <= i < |records| ==>
         records[i].path in contents && records[i].sha256 == codec.sha256(contents[records[i].path])
  }

  function PathsOf(records: seq<Record>): (paths: seq<string>)
    ensures |paths| == |records|
    ensures forall i :: 0 <= i < |records| ==> paths[i] == records[i].path
  {
    seq(|records|, i requires 0 <= i < |records| => records[i].path)
  }

  lemma FixedNamesAreDistinct(unit: Unit)
    ensures Distinct(FixedNames(unit))
  {
    FixedFilesFacts(unit);
    var paths, names := FixedFiles(unit), FixedNames(unit);
    forall i, j | 0 <= i < j < |names| ensures names[i] != names[j] {
      assert WellFormed(paths[i]) && WellFormed(paths[j]);
      TextIsInjective(paths[i], paths[j]);
    }
  }

  /** Two distinct lists of the same names are permutations of each other. */
  lemma SameElementsSameBag(a: seq<string>, b: seq<string>)
    requires Distinct(a) && Distinct(b) && Elements(a) == Elements(b)
    ensures multiset(a) == multiset(b)
  {
    forall x ensures multiset(a)[x] == multiset(b)[x] {
      DistinctMultiset(a, x);
      DistinctMultiset(b, x);
      assert x in a <==> x in Elements(a);
      assert x in b <==> x in Elements(b);
    }
  }

  lemma RecordsOfListing(codec: Codec, names: seq<string>, contents: map<string, Bytes>, records: seq<Record>)
    requires Distinct(names) && Holds(contents, Sort(names, TextLeq)) && Listing(codec, names, contents, records)
    ensures Records(codec, Sort(names, TextLeq), contents) == records
  {
    var paths := PathsOf(records);
    PathsCover(codec, names, contents, records);
    SameElementsSameBag(paths, names);
    TextOrder();
    SortSorted(names, TextLeq);
    SortedIsUnique(paths, Sort(names, TextLeq), TextLeq);
    RecordsAre(codec, paths, contents);
  }

  lemma PathsCover(codec: Codec, names: seq<string>, contents: map<string, Bytes>, records: seq<Record>)
    requires Listing(codec, names, contents, records)
    ensures Distinct(PathsOf(records)) && Elements(PathsOf(records)) == Elements(names)
    ensures Sorted(PathsOf(records), TextLeq)
  {
    var paths := PathsOf(records);
    forall name ensures name in Elements(paths) <==> name in Elements(names) {
      if name in names {
        var i :| 0 <= i < |records| && records[i].path == name;
        assert paths[i] == name;
      }
      if name in paths {
        var i :| 0 <= i < |paths| && paths[i] == name;
        assert records[i].path in names;
      }
    }
  }

  /** The digest is the hash of that one listing of the unit's files. */
  lemma SourceDigestOfListing(codec: Codec, unit: Unit, contents: map<string, Bytes>, records: seq<Record>)
    requires Holds(contents, SortedFixed(unit)) && Listing(codec, FixedNames(unit), contents, records)
    ensures SourceDigest(codec, unit, contents) == codec.sha256(codec.encodeRecords(records))
  {
    FixedNamesAreDistinct(unit);
    RecordsOfListing(codec, FixedNames(unit), contents, records);
  }

  // ----- The digest decides the bytes -----

  /** No two of these byte strings share a hash. */
  ghost predicate CollisionFree(codec: Codec, texts: set<Bytes>) {
    forall x, y :: x in texts && y in texts && codec.sha256(x) == codec.sha256(y) ==> x == y
  }

  ghost predicate RecordsReadable(codec: Codec) {
    forall r, s :: codec.encodeRecords(r) == codec.encodeRecords(s) ==> r == s
  }

  /** The texts that go into the digest. */
  ghost predicate Hashed(codec: Codec, unit: Unit, contents: map<string, Bytes>, texts: set<Bytes>)
    requires Holds(contents, SortedFixed(unit))
  {
    && codec.encodeRecords(Records(codec, SortedFixed(unit), contents)) in texts
    && forall name :: name in FixedNames(unit) && name in contents ==> contents[name] in texts
  }

  lemma InSorted(names: seq<string>, name: string)
    ensures name in Sort(names, TextLeq) <==> name in names
  {
    SortKeepsElements(names);
    assert name in Sort(names, TextLeq) <==> name in Elements(Sort(names, TextLeq));
    assert name in names <==> name in Elements(names);
  }

  ghost predicate SameFiles(names: seq<string>, a: map<string, Bytes>, b: map<string, Bytes>) {
    forall name :: name in names ==> name in a && name in b && a[name] == b[name]
  }

  /** Two lists of records over the same names are equal exactly if the files are. */
  lemma RecordsDecide(codec: Codec, names: seq<string>, a: map<string, Bytes>, b: map<string, Bytes>, texts: set<Bytes>)
    requires Holds(a, names) && Holds(b, names) && CollisionFree(codec, texts)
    requires forall name :: name in names ==> a[name] in texts && b[name] in texts
    ensures Records(codec, names, a) == Records(codec, names, b) <==> SameFiles(names, a, b)
  {
    RecordsAre(codec, names, a);
    RecordsAre(codec, names, b);
    if Records(codec, names, a) == Records(codec, names, b) {
      forall name | name in names ensures a[name] == b[name] {
        var i :| 0 <= i < |names| && names[i] == name;
        assert Records(codec, names, a)[i] == Records(codec, names, b)[i];
      }
    }
    if SameFiles(names, a, b) {
      RecordsAgree(codec, names, a, b);
    }
  }

  lemma SortedFilesAgree(names: seq<string>, a: map<string, Bytes>, b: map<string, Bytes>)
    ensures SameFiles(Sort(names, TextLeq), a, b) <==> SameFiles(names, a, b)
  {
    forall name ensures name in Sort(names, TextLeq) <==> name in names {
      InSorted(names, name);
    }
  }

  /** Main result: short of a hash collision, two sets of files have one digest if and only if they agree on every fixed
      file of the unit. */
  lemma SourceDigestIffSameFiles(codec: Codec, unit: Unit, a: map<string, Bytes>, b: map<string, Bytes>, texts: set<Bytes>)
    requires Holds(a, SortedFixed(unit)) && Holds(b, SortedFixed(unit))
    requires RecordsReadable(codec) && CollisionFree(codec, texts)
    requires Hashed(codec, unit, a, texts) && Hashed(codec, unit, b, texts)
    ensures SourceDigest(codec, unit, a) == SourceDigest(codec, unit, b) <==> SameFiles(FixedNames(unit), a, b)
  {
    var names := SortedFixed(unit);
    forall name | name in names ensures a[name] in texts && b[name] in texts {
      InSorted(FixedNames(unit), name);
    }
    RecordsDecide(codec, names, a, b, texts);
    SortedFilesAgree(FixedNames(unit), a, b);
  }

  // ----- Accepted archives -----

  /** Everything an archive holds whose hash the validator compares. */
  ghost predicate HashedArchive(codec: Codec, m: ReleaseManifest, members: seq<Member>, texts: set<Bytes>) {
    && Holds(Contents(members), SortedFixed(m.unit)) && Hashed(codec, m.unit, Contents(members), texts)
    && forall name :: name in Contents(members) ==> Contents(members)[name] in texts
  }

  ghost predicate ContractsHeld(codec: Codec, unit: Unit, contents: map<string, Bytes>, contracts: seq<Contract>) {
    && CONTRACTS_NAME in contents && codec.decodeContracts(contents[CONTRACTS_NAME]) == Some(contracts)
    && SchemasMatch(codec, contracts, contents)
    && contents.Keys == {MANIFEST_NAME} + Elements(Names(unit, contracts))
  }

  lemma AcceptedContracts(codec: Codec, raw: Bytes, expected: string, m: ReleaseManifest) returns (contracts: seq<Contract>)
    requires Accepts(codec, raw, expected, m.unit, m)
    ensures ContractsHeld(codec, m.unit, Contents(codec.unpack(raw).value), contracts)
    ensures m.sourceDigest == SourceDigest(codec, m.unit, Contents(codec.unpack(raw).value))
  {
    var members := codec.unpack(raw).value;
    contracts := codec.decodeContracts(Find(members, CONTRACTS_NAME).value.content).value;
    SetSize(MemberNames(members));
    FoundContent(members, CONTRACTS_NAME);
    ContentsKeys(members);
  }

  lemma FoundContent(members: seq<Member>, name: string)
    requires DistinctNames(members) && Find(members, name).Some?
    ensures name in Contents(members) && Contents(members)[name] == Find(members, name).value.content
  {
    FoundIsMember(members, name);
    var i :| 0 <= i < |members| && members[i] == Find(members, name).value;
    ContentsAt(members, i);
  }

  lemma {:induction false} FoundIsMember(members: seq<Member>, name: string)
    requires Find(members, name).Some?
    ensures Find(members, name).value in members && Find(members, name).value.name == name
  {
    if members[0].name != name {
      FoundIsMember(members[1..], name);
    }
  }

  /** Main result: short of a hash collision, two accepted archives with the same manifest have the same files with the
      same bytes, the manifest's own text aside. */
  lemma AcceptedArchivesHoldTheSameFiles(codec: Codec, m: ReleaseManifest, raw: Bytes, expected: string, raw': Bytes,
                                         expected': string, texts: set<Bytes>)
    requires Accepts(codec, raw, expected, m.unit, m) && Accepts(codec, raw', expected', m.unit, m)
    requires RecordsReadable(codec) && CollisionFree(codec, texts)
    requires HashedArchive(codec, m, codec.unpack(raw).value, texts)
    requires HashedArchive(codec, m, codec.unpack(raw').value, texts)
    ensures var a, b := Contents(codec.unpack(raw).value), Contents(codec.unpack(raw').value);
            a.Keys == b.Keys && forall name :: name in a && name != MANIFEST_NAME ==> a[name] == b[name]
  {
    var a, b := Contents(codec.unpack(raw).value), Contents(codec.unpack(raw').value);
    var contracts := AcceptedContracts(codec, raw, expected, m);
    var contracts' := AcceptedContracts(codec, raw', expected', m);
    SourceDigestIffSameFiles(codec, m.unit, a, b, texts);
    AgreeOnAllNames(codec, m.unit, contracts, contracts', a, b, texts);
  }

  lemma AgreeOnAllNames(codec: Codec, unit: Unit, contracts: seq<Contract>, contracts': seq<Contract>,
                        a: map<string, Bytes>, b: map<string, Bytes>, texts: set<Bytes>)
    requires SameFiles(FixedNames(unit), a, b) && CollisionFree(codec, texts)
    requires ContractsHeld(codec, unit, a, contracts) && ContractsHeld(codec, unit, b, contracts')
    requires forall x :: x in a ==> a[x] in texts
    requires forall x :: x in b ==> b[x] in texts
    ensures a.Keys == b.Keys && forall name :: name in a && name != MANIFEST_NAME ==> a[name] == b[name]
  {
    ContractsAreFixed(unit);
    forall name | name in a && name != MANIFEST_NAME ensures name in b && a[name] == b[name] {
      SameBytesUnder(codec, unit, contracts, a, b, texts, name);
    }
  }

  lemma ContractsAreFixed(unit: Unit)
    ensures CONTRACTS_NAME in FixedNames(unit)
  {
    assert FixedFiles(unit)[0] == CONTRACTS_MANIFEST;
    assert FixedNames(unit)[0] == CONTRACTS_NAME;
  }

  lemma SameBytesUnder(codec: Codec, unit: Unit, contracts: seq<Contract>, a: map<string, Bytes>, b: map<string, Bytes>,
                       texts: set<Bytes>, name: string)
    requires SameFiles(FixedNames(unit), a, b) && CollisionFree(codec, texts) && name in Names(unit, contracts)
    requires SchemasMatch(codec, contracts, a) && SchemasMatch(codec, contracts, b)
    requires forall x :: x in a ==> a[x] in texts
    requires forall x :: x in b ==> b[x] in texts
    ensures name in a && name in b && a[name] == b[name]
  {
    if name !in FixedNames(unit) {
      var i :| 0 <= i < |contracts| && SchemaNames(contracts)[i] == name;
      assert SchemaMatches(codec, contracts[i], a) && SchemaMatches(codec, contracts[i], b);
    }
  }
}
