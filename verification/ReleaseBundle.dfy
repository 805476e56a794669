/** Release bundles: building one from a source tree that may change between reads, validating its bytes, and writing
    the validated members to an empty directory.

    Hashing, JSON text and tar bytes come as a Codec; an archive is the list of its members. */
module ReleaseBundle {
  import opened SequenceFacts
  import opened Results
  import opened Sorting
  import opened ContractManifest
  import opened BundlePaths
  import opened SourcePins

  /** The fields that validation relates to other data, and the rest. */
  datatype ReleaseManifest = ReleaseManifest(unit: Unit, versions: seq<string>, contractDigest: string,
                                             sourceDigest: string, bundleVersion: int, rest: string)

  /** plain: a regular file without a link target, owner and time zero. */
  datatype Member = Member(name: string, content: Bytes, mode: nat, plain: bool)

  datatype Record = Record(path: string, sha256: string)

  datatype Codec = Codec(
    sha256: Bytes -> string,
    encodeManifest: ReleaseManifest -> Bytes, decodeManifest: Bytes -> Option<ReleaseManifest>,
    decodeContracts: Bytes -> Option<seq<Contract>>, digest: Digest,
    encodeRecords: seq<Record> -> Bytes,
    fieldsOk: ReleaseManifest -> bool, marksFactset: Bytes -> bool,
    pack: seq<Member> -> Bytes, unpack: Bytes -> Option<seq<Member>>)

  /** Regular files in their canonical modes under plain relative paths. */
  ghost predicate Packable(members: seq<Member>) {
    forall i :: 0 <= i < |members| ==> Canonical(members[i]) && NamesAPath(members[i].name)
  }

  /** Reading inverts writing, for archives of such members; a digest is 64 hexadecimal characters. */
  ghost predicate Lawful(codec: Codec) {
    && (forall m :: codec.decodeManifest(codec.encodeManifest(m)) == Some(m))
    && (forall members | Packable(members) :: codec.unpack(codec.pack(members)) == Some(members))
    && (forall bytes :: IsSha256(codec.sha256(bytes)))
  }

  const MAX_BUNDLE_BYTES: nat := 16 * 1024 * 1024
  const MAX_MEMBERS: nat := 128
  const MAX_MEMBER_BYTES: nat := 4 * 1024 * 1024
  const MAX_CONTENT_BYTES: nat := 12 * 1024 * 1024

  // ----- Source digest and manifest checks -----

  function Records(codec: Codec, names: seq<string>, contents: map<string, Bytes>): seq<Record>
    requires Holds(contents, names)
  {
    if names == [] then []
    else
      assert names[0] in names;
      [Record(names[0], codec.sha256(contents[names[0]]))] + Records(codec, names[1..], contents)
  }

  function SortedFixed(unit: Unit): seq<string> { Sort(FixedNames(unit), TextLeq) }

  function SourceDigest(codec: Codec, unit: Unit, contents: map<string, Bytes>): string
    requires Holds(contents, SortedFixed(unit))
  {
    codec.sha256(codec.encodeRecords(Records(codec, SortedFixed(unit), contents)))
  }

  predicate ManifestOk(codec: Codec, m: ReleaseManifest, identity: Identity) {
    && codec.fieldsOk(m)
    && m.versions == identity.versions
    && IsSha256(m.contractDigest) && m.contractDigest == identity.sha256
    && IsSha256(m.sourceDigest)
  }

  predicate SchemasMatch(codec: Codec, contracts: seq<Contract>, contents: map<string, Bytes>) {
    forall c :: c in contracts ==> SchemaMatches(codec, c, contents)
  }

  predicate SchemaMatches(codec: Codec, c: Contract, contents: map<string, Bytes>) {
    SchemaName(c) in contents && codec.sha256(contents[SchemaName(c)]) == c.sha256
  }

  /** A fetcher release says of its deployment script whether it knows the newer consumers. */
  predicate TopologyOk(codec: Codec, m: ReleaseManifest, contents: map<string, Bytes>) {
    m.unit.Fetcher? ==>
      && Text(DEPLOY_FETCHER) in contents
      && codec.marksFactset(contents[Text(DEPLOY_FETCHER)]) == (m.bundleVersion == 2)
  }

  // ----- The reader -----

  /** Every file is read from disk at most once; later reads see the pinned bytes. */
  class SourceBundleReader {
    var snapshot: map<string, Bytes>
    var readCount: nat
    const disk: Disk

    ghost function State(): Pins
      reads this
    {
      Pins(snapshot, readCount)
    }

    ghost predicate Valid()
      reads this
    {
      AllSafe(State())
    }

    constructor (disk: Disk)
      ensures Valid() && State() == Pins(map[], 0) && this.disk == disk
    {
      this.disk := disk;
      snapshot, readCount := map[], 0;
    }

    method Read(relative: string) returns (content: Option<Bytes>)
      requires Valid()
      modifies this
      ensures Valid() && Extends(old(snapshot), snapshot)
      ensures content.Some? <==>
        SafeRelative(relative) && (relative in old(snapshot) || disk(relative, old(readCount)).Some?)
      ensures content.Some? ==> relative in snapshot && content.value == snapshot[relative]
      ensures relative in old(snapshot) ==> content == Some(old(snapshot)[relative]) && State() == old(State())
      ensures relative !in old(snapshot) && content.Some? ==>
        && content == disk(relative, old(readCount)) && readCount == old(readCount) + 1
        && snapshot == old(snapshot)[relative := content.value]
      ensures PinOne(disk, old(State()), relative) == if content.Some? then Some(State()) else None
    {
      if !SafeRelative(relative) {
        return None;
      }
      if relative !in snapshot {
        var bytes := disk(relative, readCount);
        readCount := readCount + 1;
        if bytes.None? {
          return None;
        }
        snapshot := snapshot[relative := bytes.value];
      }
      content := Some(snapshot[relative]);
    }

    /** Reads all names; fails exactly if one of them cannot be read. */
    method ReadAll(names: seq<string>) returns (ok: bool)
      requires Valid()
      modifies this
      ensures Valid()
      ensures Pin(disk, old(State()), names) == if ok then Some(State()) else None
    {
      assert names[..0] == [];
      for n := 0 to |names|
        invariant Valid()
        invariant Pin(disk, old(State()), names[..n]) == Some(State())
      {
        PinNext(disk, old(State()), names, n);
        var content := Read(names[n]);
        if content.None? {
          return false;
        }
      }
      assert names[..|names|] == names;
      ok := true;
    }

    /** Defined exactly if every fixed file can be read. */
    method DeploymentDigest(codec: Codec, unit: Unit) returns (digest: Option<string>)
      requires Valid()
      modifies this
      ensures Valid()
      ensures Pin(disk, old(State()), SortedFixed(unit)) == if digest.Some? then Some(State()) else None
      ensures digest.Some? ==> Holds(snapshot, SortedFixed(unit)) && digest.value == SourceDigest(codec, unit, snapshot)
    {
      var ok := ReadAll(SortedFixed(unit));
      if !ok {
        return None;
      }
      PinKeeps(disk, old(State()), SortedFixed(unit));
      digest := Some(codec.sha256(codec.encodeRecords(Records(codec, SortedFixed(unit), snapshot))));
    }

    /** The selected contract manifest, with the checksum of every schema compared to the pinned bytes. */
    method LoadContracts(codec: Codec) returns (contracts: Option<seq<Contract>>)
      requires Valid()
      modifies this
      ensures Valid()
      ensures contracts.Some? ==> Loads(codec, disk, old(State()), contracts.value, State())
      ensures contracts.None? ==> forall c, end :: !Loads(codec, disk, old(State()), c, end)
    {
      LoadsInSteps(codec, disk, old(State()));
      var raw := Read(CONTRACTS_NAME);
      if raw.None? {
        return None;
      }
      contracts := codec.decodeContracts(raw.value);
      if contracts.None? {
        return;
      }
      var identity := ParseContracts(contracts.value, codec.digest);
      if identity.None? {
        return None;
      }
      var matched := ReadSchemas(codec, contracts.value);
      if !matched {
        return None;
      }
    }

    method ReadSchemas(codec: Codec, contracts: seq<Contract>) returns (ok: bool)
      requires Valid()
      modifies this
      ensures Valid()
      ensures ok <==> SchemasLoad(codec, disk, old(State()), contracts)
      ensures ok ==> Pin(disk, old(State()), SchemaNames(contracts)) == Some(State())
    {
      ghost var names := SchemaNames(contracts);
      assert names[..0] == [];
      for n := 0 to |contracts|
        invariant Valid()
        invariant Pin(disk, old(State()), names[..n]) == Some(State())
        invariant MatchUpTo(codec, contracts, n, snapshot)
      {
        PinNext(disk, old(State()), names, n);
        ghost var before := snapshot;
        var schema := Read(SchemaName(contracts[n]));
        if schema.None? {
          return false;
        }
        if codec.sha256(schema.value) != contracts[n].sha256 {
          MismatchStays(codec, disk, old(State()), contracts, n);
          return false;
        }
        MatchNext(codec, contracts, n, before, snapshot);
      }
      assert names[..|contracts|] == names;
      AllMatch(codec, contracts, snapshot);
      ok := true;
    }
  }

  /** One more name: if it cannot be read, the whole list cannot. */
  lemma PinNext(disk: Disk, start: Pins, names: seq<string>, n: nat)
    requires n < |names| && Pin(disk, start, names[..n]).Some?
    ensures Pin(disk, start, names[..n + 1]) == PinOne(disk, Pin(disk, start, names[..n]).value, names[n])
    ensures PinOne(disk, Pin(disk, start, names[..n]).value, names[n]).None? ==> Pin(disk, start, names).None?
  {
    PinInParts(disk, start, names[..n], names[n..]);
    assert names[..n] + names[n..] == names && names[n..][0] == names[n];
    PinInParts(disk, start, names[..n], [names[n]]);
    assert names[..n] + [names[n]] == names[..n + 1];
    PinSingle(disk, Pin(disk, start, names[..n]).value, names[n]);
  }

  // ----- Loading the contracts -----

  ghost predicate SchemasLoad(codec: Codec, disk: Disk, start: Pins, contracts: seq<Contract>) {
    var end := Pin(disk, start, SchemaNames(contracts));
    end.Some? && SchemasMatch(codec, contracts, end.value.files)
  }

  ghost predicate MatchUpTo(codec: Codec, contracts: seq<Contract>, n: nat, contents: map<string, Bytes>) {
    n <= |contracts| && forall i :: 0 <= i < n ==> SchemaMatches(codec, contracts[i], contents)
  }

  lemma MatchNext(codec: Codec, contracts: seq<Contract>, n: nat, before: map<string, Bytes>, after: map<string, Bytes>)
    requires MatchUpTo(codec, contracts, n, before) && Extends(before, after)
    requires n < |contracts| && SchemaMatches(codec, contracts[n], after)
    ensures MatchUpTo(codec, contracts, n + 1, after)
  {
  }

  lemma AllMatch(codec: Codec, contracts: seq<Contract>, contents: map<string, Bytes>)
    requires MatchUpTo(codec, contracts, |contracts|, contents)
    ensures SchemasMatch(codec, contracts, contents)
  {
  }

  /** The contract manifest and then every schema are pinned, and all of them fit together. */
  ghost predicate Loads(codec: Codec, disk: Disk, start: Pins, contracts: seq<Contract>, end: Pins) {
    && Acceptable(contracts)
    && Pin(disk, start, [CONTRACTS_NAME] + SchemaNames(contracts)) == Some(end)
    && CONTRACTS_NAME in end.files && codec.decodeContracts(end.files[CONTRACTS_NAME]) == Some(contracts)
    && SchemasMatch(codec, contracts, end.files)
  }

  lemma MismatchStays(codec: Codec, disk: Disk, start: Pins, contracts: seq<Contract>, n: nat)
    requires n < |contracts|
    requires var read := Pin(disk, start, SchemaNames(contracts)[..n + 1]);
             read.Some? && SchemaName(contracts[n]) in read.value.files
             && codec.sha256(read.value.files[SchemaName(contracts[n])]) != contracts[n].sha256
    ensures !SchemasLoad(codec, disk, start, contracts)
  {
    var names := SchemaNames(contracts);
    var read := Pin(disk, start, names[..n + 1]).value;
    PinInParts(disk, start, names[..n + 1], names[n + 1..]);
    assert names[..n + 1] + names[n + 1..] == names;
    if Pin(disk, start, names).Some? {
      PinKeeps(disk, read, names[n + 1..]);
      assert contracts[n] in contracts;
      assert !SchemaMatches(codec, contracts[n], Pin(disk, start, names).value.files);
    }
  }

  /** Loading in steps: the first file decides which contracts are meant. */
  lemma LoadsInSteps(codec: Codec, disk: Disk, start: Pins)
    ensures var first := PinOne(disk, start, CONTRACTS_NAME);
            forall c, end :: Loads(codec, disk, start, c, end) <==>
              && first.Some? && codec.decodeContracts(first.value.files[CONTRACTS_NAME]) == Some(c)
              && Acceptable(c) && SchemasLoad(codec, disk, first.value, c)
              && Pin(disk, first.value, SchemaNames(c)) == Some(end)
  {
    var first := PinOne(disk, start, CONTRACTS_NAME);
    forall c, end
      ensures Loads(codec, disk, start, c, end) <==>
        && first.Some? && codec.decodeContracts(first.value.files[CONTRACTS_NAME]) == Some(c)
        && Acceptable(c) && SchemasLoad(codec, disk, first.value, c)
        && Pin(disk, first.value, SchemaNames(c)) == Some(end)
    {
      LoadsInStepsAt(codec, disk, start, c, end);
    }
  }

  lemma LoadsInStepsAt(codec: Codec, disk: Disk, start: Pins, c: seq<Contract>, end: Pins)
    ensures var first := PinOne(disk, start, CONTRACTS_NAME);
            Loads(codec, disk, start, c, end) <==>
              && first.Some? && codec.decodeContracts(first.value.files[CONTRACTS_NAME]) == Some(c)
              && Acceptable(c) && SchemasLoad(codec, disk, first.value, c)
              && Pin(disk, first.value, SchemaNames(c)) == Some(end)
  {
    PinInParts(disk, start, [CONTRACTS_NAME], SchemaNames(c));
    PinSingle(disk, start, CONTRACTS_NAME);
    var first := PinOne(disk, start, CONTRACTS_NAME);
    if first.Some? && Pin(disk, first.value, SchemaNames(c)).Some? {
      PinKeeps(disk, first.value, SchemaNames(c));
    }
  }

  // ----- Building -----

  function MemberOf(name: string, content: Bytes): Member { Member(name, content, FileMode(name), true) }

  function Members(names: seq<string>, contents: map<string, Bytes>): (members: seq<Member>)
    requires Holds(contents, names)
    ensures |members| == |names|
    ensures forall i :: 0 <= i < |names| ==> members[i] == MemberOf(names[i], contents[names[i]])
  {
    seq(|names|, i requires 0 <= i < |names| => assert names[i] in names; MemberOf(names[i], contents[names[i]]))
  }

  function SortedNames(unit: Unit, contracts: seq<Contract>): seq<string> {
    Sort(Names(unit, contracts), TextLeq)
  }

  /** The release manifest first, then every other file in the order of its name. */
  function BundleMembers(codec: Codec, m: ReleaseManifest, contracts: seq<Contract>, contents: map<string, Bytes>)
    : seq<Member>
    requires Holds(contents, SortedNames(m.unit, contracts))
  {
    [MemberOf(MANIFEST_NAME, codec.encodeManifest(m))] + Members(SortedNames(m.unit, contracts), contents)
  }

  /** The manifest, the contracts and the pinned files fit together. */
  ghost predicate Consistent(codec: Codec, m: ReleaseManifest, contracts: seq<Contract>, contents: map<string, Bytes>) {
    && Acceptable(contracts)
    && Holds(contents, SortedNames(m.unit, contracts)) && Holds(contents, SortedFixed(m.unit))
    && CONTRACTS_NAME in contents && codec.decodeContracts(contents[CONTRACTS_NAME]) == Some(contracts)
    && SchemasMatch(codec, contracts, contents)
    && ManifestOk(codec, m, IdentityOf(contracts, codec.digest))
    && m.sourceDigest == SourceDigest(codec, m.unit, contents)
    && TopologyOk(codec, m, contents)
  }

  /** What a finished build guarantees about its bytes and the snapshot behind them. */
  ghost predicate BuiltFrom(codec: Codec, m: ReleaseManifest, contracts: seq<Contract>, contents: map<string, Bytes>,
                            raw: Bytes) {
    && Consistent(codec, m, contracts, contents)
    && raw == codec.pack(BundleMembers(codec, m, contracts, contents))
  }

  /** The order in which a build asks the disk for the first time: the contract manifest, the schemas, the fixed
      files. */
  function ReadOrder(unit: Unit, contracts: seq<Contract>): seq<string> {
    [CONTRACTS_NAME] + SchemaNames(contracts) + SortedFixed(unit)
  }

  /** A build can succeed with these contracts and these pins: the manifest is one for the unit, every file can be read
      in its turn, and what was read fits together. */
  ghost predicate CanBuild(codec: Codec, manifestRaw: Bytes, unit: Unit, disk: Disk, start: Pins,
                           contracts: seq<Contract>, end: Pins) {
    && var manifest := codec.decodeManifest(manifestRaw);
    && manifest.Some? && manifest.value.unit == unit
    && Pin(disk, start, ReadOrder(unit, contracts)) == Some(end)
    && Consistent(codec, manifest.value, contracts, end.files)
  }

  lemma SortKeepsElements(s: seq<string>)
    ensures Elements(Sort(s, TextLeq)) == Elements(s)
    ensures Distinct(s) ==> Distinct(Sort(s, TextLeq))
  {
    PermutationFacts(Sort(s, TextLeq), s);
  }

  /** Once the schemas and the fixed files are pinned, so is every name of the bundle. */
  lemma AllNamesArePinned(unit: Unit, contracts: seq<Contract>, contents: map<string, Bytes>)
    ensures Holds(contents, SchemaNames(contracts)) && Holds(contents, SortedFixed(unit)) <==>
              Holds(contents, SortedNames(unit, contracts))
  {
    var all := Names(unit, contracts);
    SortKeepsElements(all);
    SortKeepsElements(FixedNames(unit));
    assert forall name :: name in SortedNames(unit, contracts) <==> name in Elements(SortedNames(unit, contracts));
    assert forall name :: name in SortedFixed(unit) <==> name in Elements(SortedFixed(unit));
    assert forall name :: name in all <==> name in FixedNames(unit) || name in SchemaNames(contracts);
  }

  lemma ScriptIsFixed()
    ensures Text(DEPLOY_FETCHER) in SortedFixed(Fetcher)
  {
    assert FixedFiles(Fetcher)[8] == DEPLOY_FETCHER;
    assert FixedNames(Fetcher)[8] == Text(DEPLOY_FETCHER);
    SortKeepsElements(FixedNames(Fetcher));
    assert Text(DEPLOY_FETCHER) in Elements(SortedFixed(Fetcher));
  }

  lemma RecordsExtend(codec: Codec, names: seq<string>, before: map<string, Bytes>, after: map<string, Bytes>)
    requires Holds(before, names) && Extends(before, after)
    ensures Holds(after, names) && Records(codec, names, after) == Records(codec, names, before)
  {
  }

  /** The same bytes under the names of all schemas: the same answer. */
  lemma SchemasAgree(codec: Codec, contracts: seq<Contract>, before: map<string, Bytes>, after: map<string, Bytes>)
    requires Holds(before, SchemaNames(contracts)) && Extends(before, after)
    ensures SchemasMatch(codec, contracts, before) <==> SchemasMatch(codec, contracts, after)
  {
    forall c | c in contracts ensures SchemaName(c) in before {
      var i :| 0 <= i < |contracts| && contracts[i] == c;
      assert SchemaNames(contracts)[i] == SchemaName(c);
    }
    forall c | c in contracts ensures SchemaMatches(codec, c, before) <==> SchemaMatches(codec, c, after) {
    }
  }

  /** The checks of the manifest against the contracts and the source files, which are read in their order. */
  ghost predicate Checks(codec: Codec, m: ReleaseManifest, contracts: seq<Contract>, disk: Disk, start: Pins) {
    var end := Pin(disk, start, SortedFixed(m.unit));
    && end.Some? && Holds(end.value.files, SortedFixed(m.unit))
    && ManifestOk(codec, m, IdentityOf(contracts, codec.digest))
    && m.sourceDigest == SourceDigest(codec, m.unit, end.value.files)
    && TopologyOk(codec, m, end.value.files)
  }

  /** A build loads the contracts first and checks the manifest then. */
  lemma BuildInSteps(codec: Codec, manifestRaw: Bytes, m: ReleaseManifest, disk: Disk, start: Pins, c: seq<Contract>,
                     mid: Pins, end: Pins)
    requires codec.decodeManifest(manifestRaw) == Some(m)
    requires Pin(disk, start, [CONTRACTS_NAME] + SchemaNames(c)) == Some(mid)
    ensures CanBuild(codec, manifestRaw, m.unit, disk, start, c, end) <==>
      && Loads(codec, disk, start, c, mid) && Checks(codec, m, c, disk, mid)
      && Pin(disk, mid, SortedFixed(m.unit)) == Some(end)
  {
    PinInParts(disk, start, [CONTRACTS_NAME] + SchemaNames(c), SortedFixed(m.unit));
    PinKeeps(disk, start, [CONTRACTS_NAME] + SchemaNames(c));
    ContractsArePinned(c, mid.files);
    if Pin(disk, mid, SortedFixed(m.unit)).Some? {
      PinKeeps(disk, mid, SortedFixed(m.unit));
      ConsistentInSteps(codec, m, c, mid.files, Pin(disk, mid, SortedFixed(m.unit)).value.files);
    }
  }

  lemma ContractsArePinned(c: seq<Contract>, contents: map<string, Bytes>)
    requires Holds(contents, [CONTRACTS_NAME] + SchemaNames(c))
    ensures CONTRACTS_NAME in contents && Holds(contents, SchemaNames(c))
  {
    assert ([CONTRACTS_NAME] + SchemaNames(c))[0] == CONTRACTS_NAME;
    assert forall name :: name in SchemaNames(c) ==> name in [CONTRACTS_NAME] + SchemaNames(c);
  }

  /** What concerns the contracts is settled once they are pinned; the rest is settled by the fixed files. */
  lemma ConsistentInSteps(codec: Codec, m: ReleaseManifest, c: seq<Contract>, mid: map<string, Bytes>,
                          last: map<string, Bytes>)
    requires CONTRACTS_NAME in mid && Holds(mid, SchemaNames(c)) && Extends(mid, last) && Holds(last, SortedFixed(m.unit))
    ensures Consistent(codec, m, c, last) <==>
      && Acceptable(c) && codec.decodeContracts(mid[CONTRACTS_NAME]) == Some(c) && SchemasMatch(codec, c, mid)
      && ManifestOk(codec, m, IdentityOf(c, codec.digest))
      && m.sourceDigest == SourceDigest(codec, m.unit, last)
      && TopologyOk(codec, m, last)
  {
    SchemasAgree(codec, c, mid, last);
    AllNamesArePinned(m.unit, c, last);
  }

  lemma NoBuildWithoutContracts(codec: Codec, manifestRaw: Bytes, m: ReleaseManifest, disk: Disk, start: Pins)
    requires codec.decodeManifest(manifestRaw) == Some(m)
    requires forall c, end :: !Loads(codec, disk, start, c, end)
    ensures forall c, end :: !CanBuild(codec, manifestRaw, m.unit, disk, start, c, end)
  {
    forall c, end ensures !CanBuild(codec, manifestRaw, m.unit, disk, start, c, end) {
      NoBuildUnlessLoaded(codec, manifestRaw, m, disk, start, c, end);
    }
  }

  lemma NoBuildUnlessLoaded(codec: Codec, manifestRaw: Bytes, m: ReleaseManifest, disk: Disk, start: Pins,
                            c: seq<Contract>, end: Pins)
    requires codec.decodeManifest(manifestRaw) == Some(m)
    ensures CanBuild(codec, manifestRaw, m.unit, disk, start, c, end) ==>
      var mid := Pin(disk, start, [CONTRACTS_NAME] + SchemaNames(c));
      mid.Some? && Loads(codec, disk, start, c, mid.value) && Checks(codec, m, c, disk, mid.value)
  {
    PinInParts(disk, start, [CONTRACTS_NAME] + SchemaNames(c), SortedFixed(m.unit));
    var mid := Pin(disk, start, [CONTRACTS_NAME] + SchemaNames(c));
    if mid.Some? {
      BuildInSteps(codec, manifestRaw, m, disk, start, c, mid.value, end);
    }
  }

  /** The contracts that load are the ones that a build needs. */
  lemma OnlyTheLoadedContractsBuild(codec: Codec, manifestRaw: Bytes, m: ReleaseManifest, disk: Disk, start: Pins,
                                    contracts: seq<Contract>, mid: Pins)
    requires codec.decodeManifest(manifestRaw) == Some(m) && Loads(codec, disk, start, contracts, mid)
    requires !Checks(codec, m, contracts, disk, mid)
    ensures forall c, end :: !CanBuild(codec, manifestRaw, m.unit, disk, start, c, end)
  {
    forall c, end ensures !CanBuild(codec, manifestRaw, m.unit, disk, start, c, end) {
      NoBuildUnlessLoaded(codec, manifestRaw, m, disk, start, c, end);
      LoadsInStepsAt(codec, disk, start, contracts, mid);
      var other := Pin(disk, start, [CONTRACTS_NAME] + SchemaNames(c));
      if other.Some? {
        LoadsInStepsAt(codec, disk, start, c, other.value);
      }
    }
  }

  /** A bundle is returned exactly if the build can succeed.  Whatever the disk answers in between, its bytes come from
      the final snapshot alone. */
  method BuildBundle(codec: Codec, manifestRaw: Bytes, reader: SourceBundleReader, unit: Unit)
    returns (raw: Option<Bytes>, ghost contracts: seq<Contract>)
    requires reader.Valid()
    modifies reader
    ensures raw.Some? ==>
      && CanBuild(codec, manifestRaw, unit, reader.disk, old(reader.State()), contracts, reader.State())
      && BuiltFrom(codec, codec.decodeManifest(manifestRaw).value, contracts, reader.snapshot, raw.value)
    ensures raw.None? ==>
      forall c, end :: !CanBuild(codec, manifestRaw, unit, reader.disk, old(reader.State()), c, end)
  {
    contracts := [];
    var decoded := codec.decodeManifest(manifestRaw);
    if decoded.None? {
      return None, contracts;
    }
    var m := decoded.value;
    var loaded := reader.LoadContracts(codec);
    if loaded.None? {
      NoBuildWithoutContracts(codec, manifestRaw, m, reader.disk, old(reader.State()));
      return None, contracts;
    }
    contracts := loaded.value;
    ghost var mid := reader.State();
    var ok := CheckManifest(codec, m, loaded.value, reader);
    if !ok {
      OnlyTheLoadedContractsBuild(codec, manifestRaw, m, reader.disk, old(reader.State()), contracts, mid);
      return None, contracts;
    }
    if m.unit != unit {
      return None, contracts;
    }
    BuildInSteps(codec, manifestRaw, m, reader.disk, old(reader.State()), contracts, mid, reader.State());
    var bytes := PackBundle(codec, m, loaded.value, reader);
    raw := Some(bytes);
  }

  /** Every name is pinned by now: no read can fail and nothing is read from disk. */
  method PackBundle(codec: Codec, m: ReleaseManifest, contracts: seq<Contract>, reader: SourceBundleReader)
    returns (raw: Bytes)
    requires reader.Valid() && Consistent(codec, m, contracts, reader.snapshot)
    modifies reader
    ensures reader.State() == old(reader.State()) && BuiltFrom(codec, m, contracts, reader.snapshot, raw)
  {
    PinAgain(reader.disk, reader.State(), SortedNames(m.unit, contracts));
    var read := reader.ReadAll(SortedNames(m.unit, contracts));
    raw := codec.pack(BundleMembers(codec, m, contracts, reader.snapshot));
  }

  /** The manifest against the contracts and the source files. */
  method CheckManifest(codec: Codec, m: ReleaseManifest, contracts: seq<Contract>, reader: SourceBundleReader)
    returns (ok: bool)
    requires reader.Valid() && Acceptable(contracts)
    modifies reader
    ensures reader.Valid()
    ensures ok <==> Checks(codec, m, contracts, reader.disk, old(reader.State()))
    ensures ok ==> Pin(reader.disk, old(reader.State()), SortedFixed(m.unit)) == Some(reader.State())
  {
    var identity := ParseContracts(contracts, codec.digest);
    if !ManifestOk(codec, m, identity.value) {
      return false;
    }
    var digest := reader.DeploymentDigest(codec, m.unit);
    if digest != Some(m.sourceDigest) {
      return false;
    }
    if m.unit.Fetcher? {
      ScriptIsFixed();
      var script := reader.Read(Text(DEPLOY_FETCHER));
      if script.None? || codec.marksFactset(script.value) != (m.bundleVersion == 2) {
        return false;
      }
    }
    ok := true;
  }

  // ----- Validating -----

  function TotalSize(members: seq<Member>): nat {
    if members == [] then 0 else TotalSize(members[..|members| - 1]) + |members[|members| - 1].content|
  }

  /** The budgets of an archive. */
  ghost predicate WithinBudgets(members: seq<Member>) {
    && |members| <= MAX_MEMBERS
    && (forall i :: 0 <= i < |members| ==> |members[i].content| <= MAX_MEMBER_BYTES)
    && TotalSize(members) <= MAX_CONTENT_BYTES
  }

  lemma {:induction false} TotalSizeGrows(members: seq<Member>, n: nat)
    requires n <= |members|
    ensures TotalSize(members[..n]) <= TotalSize(members)
  {
    if n < |members| {
      TotalSizeGrows(members[..|members| - 1], n);
      assert members[..|members| - 1][..n] == members[..n];
    } else {
      assert members[..n] == members;
    }
  }

  method CheckBudgets(members: seq<Member>) returns (ok: bool)
    ensures ok <==> WithinBudgets(members)
  {
    if |members| > MAX_MEMBERS {
      return false;
    }
    var total := 0;
    for n := 0 to |members|
      invariant total == TotalSize(members[..n]) && total <= MAX_CONTENT_BYTES
      invariant forall i :: 0 <= i < n ==> |members[i].content| <= MAX_MEMBER_BYTES
    {
      if |members[n].content| > MAX_MEMBER_BYTES {
        return false;
      }
      assert members[..n + 1][..n] == members[..n];
      total := total + |members[n].content|;
      TotalSizeGrows(members, n + 1);
      if total > MAX_CONTENT_BYTES {
        return false;
      }
    }
    assert members[..|members|] == members;
    ok := true;
  }

  function MemberNames(members: seq<Member>): (names: seq<string>)
    ensures |names| == |members|
  {
    seq(|members|, i requires 0 <= i < |members| => members[i].name)
  }

  function Find(members: seq<Member>, name: string): Option<Member> {
    if members == [] then None else if members[0].name == name then Some(members[0]) else Find(members[1..], name)
  }

  predicate Canonical(member: Member) { member.plain && member.mode == FileMode(member.name) }

  /** The contents by name, filled in the order of the archive. */
  function Contents(members: seq<Member>): map<string, Bytes> {
    if members == [] then map[]
    else
      var last := members[|members| - 1];
      Contents(members[..|members| - 1])[last.name := last.content]
  }

  /** Everything that is checked once the manifest and the contracts are known. */
  ghost predicate BodyOk(codec: Codec, members: seq<Member>, m: ReleaseManifest, contracts: seq<Contract>) {
    && Acceptable(contracts)
    && Elements(MemberNames(members)) == {MANIFEST_NAME} + Elements(Names(m.unit, contracts))
    && (forall i :: 0 <= i < |members| ==> Canonical(members[i]))
    && SchemasMatch(codec, contracts, Contents(members))
    && Holds(Contents(members), SortedFixed(m.unit))
    && m.sourceDigest == SourceDigest(codec, m.unit, Contents(members))
    && ManifestOk(codec, m, IdentityOf(contracts, codec.digest))
  }

  predicate NamesOk(members: seq<Member>) {
    && |Elements(MemberNames(members))| == |members|
    && forall name :: name in MemberNames(members) ==> SafeRelative(name)
  }

  predicate CanonicalAt(members: seq<Member>, name: string) {
    Find(members, name).Some? && Canonical(Find(members, name).value)
  }

  ghost predicate Accepts(codec: Codec, raw: Bytes, expected: string, unit: Unit, m: ReleaseManifest) {
    && |raw| <= MAX_BUNDLE_BYTES && IsSha256(expected) && codec.sha256(raw) == expected
    && codec.unpack(raw).Some?
    && var members := codec.unpack(raw).value;
       && WithinBudgets(members) && NamesOk(members)
       && CanonicalAt(members, MANIFEST_NAME) && CanonicalAt(members, CONTRACTS_NAME)
       && codec.decodeManifest(Find(members, MANIFEST_NAME).value.content) == Some(m) && m.unit == unit
       && codec.decodeContracts(Find(members, CONTRACTS_NAME).value.content).Some?
       && BodyOk(codec, members, m, codec.decodeContracts(Find(members, CONTRACTS_NAME).value.content).value)
  }

  method ValidateBundle(codec: Codec, raw: Bytes, expected: string, unit: Unit) returns (manifest: Option<ReleaseManifest>)
    ensures manifest.Some? ==> Accepts(codec, raw, expected, unit, manifest.value)
    ensures manifest.None? ==> forall m :: !Accepts(codec, raw, expected, unit, m)
  {
    if |raw| > MAX_BUNDLE_BYTES || !IsSha256(expected) || codec.sha256(raw) != expected {
      return None;
    }
    var archive := codec.unpack(raw);
    if archive.None? {
      return None;
    }
    var members := archive.value;
    var budgets := CheckBudgets(members);
    if !budgets || !NamesOk(members) {
      return None;
    }
    if !CanonicalAt(members, MANIFEST_NAME) {
      return None;
    }
    var m := codec.decodeManifest(Find(members, MANIFEST_NAME).value.content);
    if m.None? || m.value.unit != unit {
      return None;
    }
    if !CanonicalAt(members, CONTRACTS_NAME) {
      return None;
    }
    var contracts := codec.decodeContracts(Find(members, CONTRACTS_NAME).value.content);
    if contracts.None? {
      return None;
    }
    var body := ValidateBody(codec, members, m.value, contracts.value);
    if !body {
      return None;
    }
    manifest := m;
  }

  method ValidateBody(codec: Codec, members: seq<Member>, m: ReleaseManifest, contracts: seq<Contract>) returns (ok: bool)
    ensures ok <==> BodyOk(codec, members, m, contracts)
  {
    var identity := ParseContracts(contracts, codec.digest);
    if identity.None? {
      return false;
    }
    if Elements(MemberNames(members)) != {MANIFEST_NAME} + Elements(Names(m.unit, contracts)) {
      return false;
    }
    var canonical, contents := CollectContents(members);
    if !canonical {
      return false;
    }
    ok :=
      && SchemasMatch(codec, contracts, contents)
      && Holds(contents, SortedFixed(m.unit))
      && m.sourceDigest == SourceDigest(codec, m.unit, contents)
      && ManifestOk(codec, m, identity.value);
  }

  method CollectContents(members: seq<Member>) returns (ok: bool, contents: map<string, Bytes>)
    ensures ok <==> forall i :: 0 <= i < |members| ==> Canonical(members[i])
    ensures ok ==> contents == Contents(members)
  {
    contents := map[];
    assert members[..0] == [];
    for n := 0 to |members|
      invariant contents == Contents(members[..n])
      invariant forall i :: 0 <= i < n ==> Canonical(members[i])
    {
      if !Canonical(members[n]) {
        return false, contents;
      }
      assert members[..n + 1][..n] == members[..n];
      contents := contents[members[n].name := members[n].content];
    }
    assert members[..|members|] == members;
    ok := true;
  }

  // ----- Materializing -----

  datatype File = File(content: Bytes, mode: nat)

  /** How many bytes the operating system takes from a write at an offset. */
  type Device = (string, nat) -> int

  /** Nothing is at the path, no file is on the way to it, and it is not on the way to another file. */
  predicate CanCreate(files: map<string, File>, name: string) {
    name !in files && forall other :: other in files ==> !(name + "/" <= other) && !(other + "/" <= name)
  }

  ghost predicate Progresses(device: Device) { forall name, offset :: device(name, offset) > 0 }

  class OutputRoot {
    var files: map<string, File>

    constructor ()
      ensures files == map[]
    {
      files := map[];
    }

    /** Short writes are continued until all bytes are written: the file ends up with exactly the content. */
    method WriteFile(name: string, content: Bytes, mode: nat, device: Device) returns (ok: bool)
      modifies this
      ensures ok ==> SafeRelative(name) && CanCreate(old(files), name) && mode == FileMode(name)
      ensures ok ==> name !in old(files)
      ensures ok ==> forall other :: other in old(files) ==> !(name + "/" <= other) && !(other + "/" <= name)
      ensures ok ==> files == old(files)[name := File(content, mode)]
      ensures SafeRelative(name) && CanCreate(old(files), name) && mode == FileMode(name) && Progresses(device) ==> ok
    {
      if !SafeRelative(name) || mode != FileMode(name) || !CanCreate(files, name) {
        return false;
      }
      files := files[name := File([], mode)];
      var offset := 0;
      while offset < |content|
        invariant 0 <= offset <= |content|
        invariant files == old(files)[name := File(content[..offset], mode)]
        decreases |content| - offset
      {
        var taken := device(name, offset);
        if taken <= 0 {
          return false;
        }
        var written := if taken < |content| - offset then taken else |content| - offset;
        assert content[..offset] + content[offset..offset + written] == content[..offset + written];
        files := files[name := File(files[name].content + content[offset..offset + written], mode)];
        offset := offset + written;
      }
      assert content[..|content|] == content;
      ok := true;
    }
  }

  /** The tree that a list of validated members becomes. */
  function Tree(members: seq<Member>): map<string, File> {
    map name | name in Contents(members) :: File(Contents(members)[name], FileMode(name))
  }

  function WithoutManifest(members: seq<Member>): seq<Member> {
    if members == [] then []
    else
      var rest := WithoutManifest(members[..|members| - 1]);
      if members[|members| - 1].name == MANIFEST_NAME then rest else rest + [members[|members| - 1]]
  }

  /** The manifest in its canonical text, then all other members. */
  function Materialized(codec: Codec, m: ReleaseManifest, members: seq<Member>): seq<Member> {
    [MemberOf(MANIFEST_NAME, codec.encodeManifest(m))] + WithoutManifest(members)
  }
}
