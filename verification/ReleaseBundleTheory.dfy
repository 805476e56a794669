/** A built bundle passes the independent validator exactly within the budgets, and materializes to the snapshot that
    its manifest covers. */
module ReleaseBundleTheory {
  import opened SequenceFacts
  import opened Results
  import opened Sorting
  import opened ContractManifest
  import opened BundlePaths
  import opened SourcePins
  import opened ReleaseBundle

  // ----- Archives with distinct names -----

  ghost predicate DistinctNames(members: seq<Member>) { Distinct(MemberNames(members)) }

  lemma {:induction false} FindsItsMember(members: seq<Member>, i: nat)
    requires DistinctNames(members) && i < |members|
    ensures Find(members, members[i].name) == Some(members[i])
    decreases |members|
  {
    var names := MemberNames(members);
    if i > 0 {
      assert names[0] != names[i];
      TailNames(members);
      FindsItsMember(members[1..], i - 1);
    }
  }

  lemma TailNames(members: seq<Member>)
    requires DistinctNames(members) && members != []
    ensures DistinctNames(members[1..]) && DistinctNames(members[..|members| - 1])
  {
    var names := MemberNames(members);
    assert MemberNames(members[1..]) == names[1..] && MemberNames(members[..|members| - 1]) == names[..|members| - 1];
  }

  lemma {:induction false} ContentsKeys(members: seq<Member>)
    ensures Contents(members).Keys == Elements(MemberNames(members))
  {
    if members != [] {
      var init, last := members[..|members| - 1], members[|members| - 1];
      ContentsKeys(init);
      assert MemberNames(members) == MemberNames(init) + [last.name];
      assert Elements(MemberNames(members)) == Elements(MemberNames(init)) + {last.name};
    }
  }

  lemma {:induction false} ContentsAt(members: seq<Member>, i: nat)
    requires DistinctNames(members) && i < |members|
    ensures members[i].name in Contents(members) && Contents(members)[members[i].name] == members[i].content
    decreases |members|
  {
    var n := |members| - 1;
    if i < n {
      var names := MemberNames(members);
      assert names[i] != names[n];
      TailNames(members);
      ContentsAt(members[..n], i);
    }
  }

  // ----- The members of a built bundle -----

  lemma BuiltNames(codec: Codec, m: ReleaseManifest, contracts: seq<Contract>, contents: map<string, Bytes>)
    requires Acceptable(contracts) && Holds(contents, SortedNames(m.unit, contracts))
    ensures var members := BundleMembers(codec, m, contracts, contents);
            MemberNames(members) == [MANIFEST_NAME] + SortedNames(m.unit, contracts)
            && DistinctNames(members) && NamesOk(members) && Packable(members)
            && Elements(MemberNames(members)) == {MANIFEST_NAME} + Elements(Names(m.unit, contracts))
  {
    var members := BundleMembers(codec, m, contracts, contents);
    NamesFacts(m.unit, contracts);
    SortedWithHead(MANIFEST_NAME, Names(m.unit, contracts));
    HeadAndMembers(MANIFEST_NAME, codec.encodeManifest(m), SortedNames(m.unit, contracts), contents);
    SetSize(MemberNames(members));
    BuiltCanonical(codec, m, contracts, contents);
    NamedAreNamed(members);
  }

  lemma NamedAreNamed(members: seq<Member>)
    requires forall name :: name in MemberNames(members) ==> NamesAPath(name)
    ensures forall i :: 0 <= i < |members| ==> NamesAPath(members[i].name)
  {
    assert forall i :: 0 <= i < |members| ==> MemberNames(members)[i] == members[i].name;
  }

  lemma HeadAndMembers(head: string, text: Bytes, names: seq<string>, contents: map<string, Bytes>)
    requires Holds(contents, names)
    ensures MemberNames([MemberOf(head, text)] + Members(names, contents)) == [head] + names
  {
  }

  /** Sorting what follows the head keeps the names, their distinctness and their safety. */
  lemma SortedWithHead(head: string, names: seq<string>)
    requires Distinct([head] + names)
    requires forall name :: name in [head] + names ==> SafeRelative(name) && NamesAPath(name)
    ensures var sorted := Sort(names, TextLeq);
            Distinct([head] + sorted) && Elements([head] + sorted) == {head} + Elements(names)
            && forall name :: name in [head] + sorted ==> SafeRelative(name) && NamesAPath(name)
  {
    var sorted := Sort(names, TextLeq);
    HeadIsNew(head, names);
    SortKeepsElements(names);
    assert forall x :: x in sorted <==> x in Elements(sorted);
    HeadIsNew(head, sorted);
    assert Elements([head] + sorted) == {head} + Elements(sorted);
    forall name | name in [head] + sorted ensures name in [head] + names {
      assert name == head || name in Elements(names);
    }
  }

  lemma HeadIsNew(head: string, rest: seq<string>)
    ensures Distinct([head] + rest) <==> Distinct(rest) && head !in rest
  {
    var s := [head] + rest;
    assert forall i :: 0 <= i < |rest| ==> s[i + 1] == rest[i];
    if Distinct(s) {
      forall i, j | 0 <= i < j < |rest| ensures rest[i] != rest[j] {
        assert s[i + 1] != s[j + 1];
      }
      forall i | 0 <= i < |rest| ensures rest[i] != head {
        assert s[0] != s[i + 1];
      }
    }
  }

  lemma BuiltContents(codec: Codec, m: ReleaseManifest, contracts: seq<Contract>, contents: map<string, Bytes>, name: string)
    requires Acceptable(contracts) && Holds(contents, SortedNames(m.unit, contracts))
    requires name in Names(m.unit, contracts)
    ensures var members := BundleMembers(codec, m, contracts, contents);
            name in contents
            && Find(members, name) == Some(MemberOf(name, contents[name]))
            && name in Contents(members) && Contents(members)[name] == contents[name]
  {
    var sorted := SortedNames(m.unit, contracts);
    BuiltNames(codec, m, contracts, contents);
    SortKeepsElements(Names(m.unit, contracts));
    assert name in Elements(sorted);
    ArchiveHolds(MemberOf(MANIFEST_NAME, codec.encodeManifest(m)), sorted, contents, name);
  }

  lemma ArchiveHolds(head: Member, names: seq<string>, contents: map<string, Bytes>, name: string)
    requires Holds(contents, names) && DistinctNames([head] + Members(names, contents)) && name in names
    ensures var members := [head] + Members(names, contents);
            name in contents && Find(members, name) == Some(MemberOf(name, contents[name]))
            && name in Contents(members) && Contents(members)[name] == contents[name]
  {
    var members := [head] + Members(names, contents);
    var i :| 0 <= i < |names| && names[i] == name;
    AfterHead(head, names, contents, i);
    FindsItsMember(members, i + 1);
    ContentsAt(members, i + 1);
  }

  lemma AfterHead(head: Member, names: seq<string>, contents: map<string, Bytes>, i: nat)
    requires Holds(contents, names) && i < |names|
    ensures names[i] in contents && ([head] + Members(names, contents))[i + 1] == MemberOf(names[i], contents[names[i]])
  {
    assert names[i] in names;
  }

  lemma {:induction false} RecordsAgree(codec: Codec, names: seq<string>, a: map<string, Bytes>, b: map<string, Bytes>)
    requires Holds(a, names) && Holds(b, names)
    requires forall name :: name in names ==> a[name] == b[name]
    ensures Records(codec, names, a) == Records(codec, names, b)
  {
    if names != [] {
      RecordsAgree(codec, names[1..], a, b);
    }
  }

  /** The archive holds the snapshot's bytes under every name but the manifest's. */
  ghost predicate Packed(packed: map<string, Bytes>, contents: map<string, Bytes>, names: seq<string>) {
    forall name :: name in names ==> name in packed && name in contents && packed[name] == contents[name]
  }

  lemma BuiltPacks(codec: Codec, m: ReleaseManifest, contracts: seq<Contract>, contents: map<string, Bytes>)
    requires Acceptable(contracts) && Holds(contents, SortedNames(m.unit, contracts))
    ensures Packed(Contents(BundleMembers(codec, m, contracts, contents)), contents, Names(m.unit, contracts))
  {
    forall name | name in Names(m.unit, contracts)
      ensures name in contents && name in Contents(BundleMembers(codec, m, contracts, contents))
              && Contents(BundleMembers(codec, m, contracts, contents))[name] == contents[name]
    {
      BuiltContents(codec, m, contracts, contents, name);
    }
  }

  lemma PackedDigest(codec: Codec, unit: Unit, contracts: seq<Contract>, packed: map<string, Bytes>,
                     contents: map<string, Bytes>)
    requires Packed(packed, contents, Names(unit, contracts))
    ensures Holds(packed, SortedFixed(unit)) && Holds(contents, SortedFixed(unit))
    ensures SourceDigest(codec, unit, packed) == SourceDigest(codec, unit, contents)
  {
    var fixed := FixedNames(unit);
    SortKeepsElements(fixed);
    forall name | name in SortedFixed(unit) ensures name in packed && name in contents && packed[name] == contents[name] {
      assert name in Elements(SortedFixed(unit));
      assert name in fixed;
      assert name in Names(unit, contracts);
    }
    RecordsAgree(codec, SortedFixed(unit), packed, contents);
  }

  lemma PackedSchemas(codec: Codec, unit: Unit, contracts: seq<Contract>, packed: map<string, Bytes>,
                      contents: map<string, Bytes>)
    requires Packed(packed, contents, Names(unit, contracts)) && SchemasMatch(codec, contracts, contents)
    ensures SchemasMatch(codec, contracts, packed)
  {
    forall c | c in contracts ensures SchemaMatches(codec, c, packed) {
      var i :| 0 <= i < |contracts| && contracts[i] == c;
      assert SchemaNames(contracts)[i] == SchemaName(c);
      assert SchemaName(c) in Names(unit, contracts);
      assert SchemaMatches(codec, c, contents);
    }
  }

  lemma BuiltCanonical(codec: Codec, m: ReleaseManifest, contracts: seq<Contract>, contents: map<string, Bytes>)
    requires Holds(contents, SortedNames(m.unit, contracts))
    ensures forall i :: 0 <= i < |BundleMembers(codec, m, contracts, contents)| ==>
      Canonical(BundleMembers(codec, m, contracts, contents)[i])
  {
  }

  lemma BuiltBody(codec: Codec, m: ReleaseManifest, contracts: seq<Contract>, contents: map<string, Bytes>, raw: Bytes)
    requires BuiltFrom(codec, m, contracts, contents, raw)
    ensures BodyOk(codec, BundleMembers(codec, m, contracts, contents), m, contracts)
  {
    var packed := Contents(BundleMembers(codec, m, contracts, contents));
    BuiltNames(codec, m, contracts, contents);
    BuiltCanonical(codec, m, contracts, contents);
    BuiltPacks(codec, m, contracts, contents);
    PackedDigest(codec, m.unit, contracts, packed, contents);
    PackedSchemas(codec, m.unit, contracts, packed, contents);
  }

  lemma BuiltHeads(codec: Codec, m: ReleaseManifest, contracts: seq<Contract>, contents: map<string, Bytes>, raw: Bytes)
    requires Lawful(codec) && BuiltFrom(codec, m, contracts, contents, raw)
    ensures var members := BundleMembers(codec, m, contracts, contents);
            CanonicalAt(members, MANIFEST_NAME) && CanonicalAt(members, CONTRACTS_NAME)
            && codec.decodeManifest(Find(members, MANIFEST_NAME).value.content) == Some(m)
            && codec.decodeContracts(Find(members, CONTRACTS_NAME).value.content) == Some(contracts)
  {
    NamesFacts(m.unit, contracts);
    BuiltContents(codec, m, contracts, contents, CONTRACTS_NAME);
  }

  lemma BuiltUnpacks(codec: Codec, m: ReleaseManifest, contracts: seq<Contract>, contents: map<string, Bytes>, raw: Bytes)
    requires Lawful(codec) && BuiltFrom(codec, m, contracts, contents, raw)
    ensures codec.unpack(raw) == Some(BundleMembers(codec, m, contracts, contents))
    ensures IsSha256(codec.sha256(raw))
  {
    BuiltNames(codec, m, contracts, contents);
  }

  /** Main result: whatever the build returns is accepted by the validator exactly if it keeps the size budgets, and
      the validator reads the manifest back. */
  lemma BuiltBundleIsAcceptedIffWithinBudgets(codec: Codec, m: ReleaseManifest, contracts: seq<Contract>,
                                              contents: map<string, Bytes>, raw: Bytes)
    requires Lawful(codec) && BuiltFrom(codec, m, contracts, contents, raw)
    ensures Accepts(codec, raw, codec.sha256(raw), m.unit, m) <==>
              |raw| <= MAX_BUNDLE_BYTES && WithinBudgets(BundleMembers(codec, m, contracts, contents))
  {
    BuiltUnpacks(codec, m, contracts, contents, raw);
    BuiltNames(codec, m, contracts, contents);
    BuiltHeads(codec, m, contracts, contents, raw);
    BuiltBody(codec, m, contracts, contents, raw);
  }

  // ----- When a build succeeds -----

  /** A part of a tree that has every file of the bundle fits together exactly if the tree does. */
  lemma ConsistencyIsLocal(codec: Codec, m: ReleaseManifest, contracts: seq<Contract>, part: map<string, Bytes>,
                           tree: map<string, Bytes>)
    requires Extends(part, tree) && Holds(part, ReadOrder(m.unit, contracts))
    ensures Consistent(codec, m, contracts, part) <==> Consistent(codec, m, contracts, tree)
  {
    OrderCovers(m.unit, contracts, part);
    OrderCovers(m.unit, contracts, tree);
    SchemasAgree(codec, contracts, part, tree);
    SourcesAgree(codec, m, part, tree);
  }

  lemma SourcesAgree(codec: Codec, m: ReleaseManifest, part: map<string, Bytes>, tree: map<string, Bytes>)
    requires Extends(part, tree) && Holds(part, SortedFixed(m.unit))
    ensures Holds(tree, SortedFixed(m.unit)) && SourceDigest(codec, m.unit, part) == SourceDigest(codec, m.unit, tree)
    ensures TopologyOk(codec, m, part) <==> TopologyOk(codec, m, tree)
  {
    RecordsExtend(codec, SortedFixed(m.unit), part, tree);
    ScriptIsPinned(m.unit, part);
    TopologyAgrees(codec, m, part, tree);
  }

  lemma ScriptIsPinned(unit: Unit, part: map<string, Bytes>)
    requires Holds(part, SortedFixed(unit))
    ensures unit.Fetcher? ==> Text(DEPLOY_FETCHER) in part
  {
    ScriptIsFixed();
    if unit.Fetcher? {
      assert Holds(part, SortedFixed(Fetcher));
    }
  }

  lemma TopologyAgrees(codec: Codec, m: ReleaseManifest, part: map<string, Bytes>, tree: map<string, Bytes>)
    requires Extends(part, tree) && (m.unit.Fetcher? ==> Text(DEPLOY_FETCHER) in part)
    ensures TopologyOk(codec, m, part) <==> TopologyOk(codec, m, tree)
  {
  }

  lemma OrderCovers(unit: Unit, contracts: seq<Contract>, contents: map<string, Bytes>)
    ensures Holds(contents, ReadOrder(unit, contracts)) <==>
      CONTRACTS_NAME in contents && Holds(contents, SchemaNames(contracts)) && Holds(contents, SortedFixed(unit))
    ensures Holds(contents, ReadOrder(unit, contracts)) ==> Holds(contents, SortedNames(unit, contracts))
  {
    AllNamesArePinned(unit, contracts, contents);
    HoldsBoth(contents, [CONTRACTS_NAME] + SchemaNames(contracts), SortedFixed(unit));
    HoldsBoth(contents, [CONTRACTS_NAME], SchemaNames(contracts));
    assert [CONTRACTS_NAME][0] == CONTRACTS_NAME;
  }

  lemma HoldsBoth(contents: map<string, Bytes>, a: seq<string>, b: seq<string>)
    ensures Holds(contents, a + b) <==> Holds(contents, a) && Holds(contents, b)
  {
    assert forall name :: name in a + b <==> name in a || name in b;
  }

  lemma OrderIsSafe(unit: Unit, contracts: seq<Contract>)
    requires Acceptable(contracts)
    ensures forall name :: name in ReadOrder(unit, contracts) ==> SafeRelative(name)
  {
    NamesFacts(unit, contracts);
    SortKeepsElements(FixedNames(unit));
    forall name | name in ReadOrder(unit, contracts) ensures SafeRelative(name) {
      assert name in SortedFixed(unit) <==> name in Elements(SortedFixed(unit));
      assert name in Elements(SortedFixed(unit)) <==> name in FixedNames(unit);
      assert name in [MANIFEST_NAME] + Names(unit, contracts);
    }
  }

  lemma MembersExtend(names: seq<string>, part: map<string, Bytes>, tree: map<string, Bytes>)
    requires Holds(part, names) && Extends(part, tree)
    ensures Holds(tree, names) && Members(names, part) == Members(names, tree)
  {
    forall i | 0 <= i < |names| ensures names[i] in part && names[i] in tree && part[names[i]] == tree[names[i]] {
      assert names[i] in names;
    }
  }

  /** Main result: on a source tree that nobody changes, a build succeeds exactly if the manifest is one for the unit
      and fits together with the contracts and files of the tree; the bundle holds the tree's own bytes. */
  lemma StableTreeBuildsIffConsistent(codec: Codec, manifestRaw: Bytes, unit: Unit, disk: Disk,
                                      tree: map<string, Bytes>, contracts: seq<Contract>)
    requires Serves(disk, tree)
    ensures (exists end :: CanBuild(codec, manifestRaw, unit, disk, Pins(map[], 0), contracts, end)) <==>
      var manifest := codec.decodeManifest(manifestRaw);
      manifest.Some? && manifest.value.unit == unit && Consistent(codec, manifest.value, contracts, tree)
  {
    var manifest := codec.decodeManifest(manifestRaw);
    if manifest.Some? && manifest.value.unit == unit {
      TreeDecides(codec, manifest.value, disk, tree, contracts);
      var end := Pin(disk, Pins(map[], 0), ReadOrder(unit, contracts));
      assert Consistent(codec, manifest.value, contracts, tree) ==>
        CanBuild(codec, manifestRaw, unit, disk, Pins(map[], 0), contracts, end.value);
    }
  }

  lemma TreeDecides(codec: Codec, m: ReleaseManifest, disk: Disk, tree: map<string, Bytes>, contracts: seq<Contract>)
    requires Serves(disk, tree)
    ensures var end := Pin(disk, Pins(map[], 0), ReadOrder(m.unit, contracts));
            Consistent(codec, m, contracts, tree) <==> end.Some? && Consistent(codec, m, contracts, end.value.files)
  {
    PinsOfTree(disk, tree, Pins(map[], 0), ReadOrder(m.unit, contracts));
    OrderCovers(m.unit, contracts, tree);
    var end := Pin(disk, Pins(map[], 0), ReadOrder(m.unit, contracts));
    if end.Some? {
      PinKeeps(disk, Pins(map[], 0), ReadOrder(m.unit, contracts));
      ConsistencyIsLocal(codec, m, contracts, end.value.files, tree);
    } else if Acceptable(contracts) {
      OrderIsSafe(m.unit, contracts);
      if Consistent(codec, m, contracts, tree) {
        ConsistentIsComplete(codec, m, contracts, tree);
      }
    }
  }

  lemma ConsistentIsComplete(codec: Codec, m: ReleaseManifest, contracts: seq<Contract>, tree: map<string, Bytes>)
    requires Consistent(codec, m, contracts, tree)
    ensures Holds(tree, ReadOrder(m.unit, contracts))
  {
    AllNamesArePinned(m.unit, contracts, tree);
    OrderCovers(m.unit, contracts, tree);
  }

  /** What a build from such a tree packs. */
  lemma StableTreeIsPacked(codec: Codec, manifestRaw: Bytes, m: ReleaseManifest, disk: Disk, tree: map<string, Bytes>,
                           contracts: seq<Contract>, end: Pins)
    requires Serves(disk, tree) && codec.decodeManifest(manifestRaw) == Some(m)
    requires CanBuild(codec, manifestRaw, m.unit, disk, Pins(map[], 0), contracts, end)
    ensures Holds(tree, SortedNames(m.unit, contracts))
    ensures BundleMembers(codec, m, contracts, end.files) == BundleMembers(codec, m, contracts, tree)
  {
    PinsOfTree(disk, tree, Pins(map[], 0), ReadOrder(m.unit, contracts));
    MembersExtend(SortedNames(m.unit, contracts), end.files, tree);
  }

  // ----- Materializing -----

  lemma {:induction false} OthersOf(members: seq<Member>, member: Member)
    ensures member in WithoutManifest(members) <==> member in members && member.name != MANIFEST_NAME
  {
    if members != [] {
      OthersOf(members[..|members| - 1], member);
      assert members == members[..|members| - 1] + [members[|members| - 1]];
    }
  }

  lemma {:induction false} OthersAreDistinct(members: seq<Member>)
    requires DistinctNames(members)
    ensures DistinctNames(WithoutManifest(members))
  {
    if members != [] {
      var init, last := members[..|members| - 1], members[|members| - 1];
      var rest := WithoutManifest(init);
      TailNames(members);
      OthersAreDistinct(init);
      forall i | 0 <= i < |rest| ensures rest[i].name != last.name {
        OthersOf(init, rest[i]);
        var k :| 0 <= k < |init| && init[k] == rest[i];
        assert MemberNames(members)[k] != MemberNames(members)[|init|];
      }
      assert MemberNames(rest + [last]) == MemberNames(rest) + [last.name];
    }
  }

  /** Every member can be created in any order: distinct names, all safe, none on the way to another. */
  ghost predicate Creatable(members: seq<Member>) {
    && DistinctNames(members) && NoClash(MemberNames(members))
    && forall name :: name in MemberNames(members) ==> SafeRelative(name)
  }

  lemma AcceptedIsCreatable(codec: Codec, raw: Bytes, expected: string, unit: Unit, m: ReleaseManifest)
    requires Accepts(codec, raw, expected, unit, m)
    ensures Creatable(Materialized(codec, m, codec.unpack(raw).value))
  {
    var members := codec.unpack(raw).value;
    var contracts := codec.decodeContracts(Find(members, CONTRACTS_NAME).value.content).value;
    ListedIsCreatable(codec, members, m, contracts);
  }

  lemma ListedIsCreatable(codec: Codec, members: seq<Member>, m: ReleaseManifest, contracts: seq<Contract>)
    requires Acceptable(contracts) && NamesOk(members)
    requires Elements(MemberNames(members)) == {MANIFEST_NAME} + Elements(Names(m.unit, contracts))
    ensures Creatable(Materialized(codec, m, members))
  {
    var all := [MANIFEST_NAME] + Names(m.unit, contracts);
    NamesFacts(m.unit, contracts);
    SetSize(MemberNames(members));
    OthersAreDistinct(members);
    MaterializedNames(codec, m, members);
    assert Elements(all) == {MANIFEST_NAME} + Elements(Names(m.unit, contracts));
    assert all[0] == MANIFEST_NAME;
    SubsetIsCreatable(members, Materialized(codec, m, members), all);
  }

  lemma SubsetIsCreatable(members: seq<Member>, written: seq<Member>, all: seq<string>)
    requires DistinctNames(written) && NoClash(all) && forall name :: name in all ==> SafeRelative(name)
    requires Elements(MemberNames(members)) == Elements(all) && all != []
    requires forall name :: name in MemberNames(written) ==> name == all[0] || name in MemberNames(members)
    ensures Creatable(written)
  {
    forall name | name in MemberNames(written) ensures name in all {
      if name in MemberNames(members) {
        assert name in Elements(all);
      }
    }
  }

  lemma MaterializedNames(codec: Codec, m: ReleaseManifest, members: seq<Member>)
    requires DistinctNames(WithoutManifest(members))
    ensures DistinctNames(Materialized(codec, m, members))
    ensures forall name :: name in MemberNames(Materialized(codec, m, members)) ==>
      name == MANIFEST_NAME || name in MemberNames(members)
  {
    var rest := WithoutManifest(members);
    var names := MemberNames(Materialized(codec, m, members));
    assert names == [MANIFEST_NAME] + MemberNames(rest);
    forall i | 0 <= i < |rest| ensures rest[i].name != MANIFEST_NAME && rest[i].name in MemberNames(members) {
      OthersOf(members, rest[i]);
      var k :| 0 <= k < |members| && members[k] == rest[i];
      assert MemberNames(members)[k] == rest[i].name;
    }
    HeadIsNew(MANIFEST_NAME, MemberNames(rest));
  }

  /** Validate first, then write every validated member: the output is exactly the tree of the members. */
  method MaterializeBundle(codec: Codec, raw: Bytes, expected: string, unit: Unit, root: OutputRoot, device: Device)
    returns (manifest: Option<ReleaseManifest>)
    requires root.files == map[]
    modifies root
    ensures manifest.Some? ==>
      Accepts(codec, raw, expected, unit, manifest.value)
      && root.files == Tree(Materialized(codec, manifest.value, codec.unpack(raw).value))
    ensures forall m :: Accepts(codec, raw, expected, unit, m) && Progresses(device) ==> manifest == Some(m)
  {
    manifest := ValidateBundle(codec, raw, expected, unit);
    if manifest.None? {
      return;
    }
    var members := Materialized(codec, manifest.value, codec.unpack(raw).value);
    AcceptedIsCreatable(codec, raw, expected, unit, manifest.value);
    var ok := WriteAll(members, root, device);
    if !ok {
      return None;
    }
  }

  method WriteAll(members: seq<Member>, root: OutputRoot, device: Device) returns (ok: bool)
    requires root.files == map[] && Creatable(members)
    modifies root
    ensures ok ==> root.files == Tree(members)
    ensures Progresses(device) ==> ok
  {
    assert members[..0] == [];
    for n := 0 to |members|
      invariant root.files == Tree(members[..n])
    {
      NextCanBeCreated(members, n);
      assert members[..n + 1][..n] == members[..n];
      var written := root.WriteFile(members[n].name, members[n].content, FileMode(members[n].name), device);
      if !written {
        return false;
      }
    }
    assert members[..|members|] == members;
    ok := true;
  }

  lemma NextCanBeCreated(members: seq<Member>, n: nat)
    requires Creatable(members) && n < |members|
    ensures CanCreate(Tree(members[..n]), members[n].name) && SafeRelative(members[n].name)
  {
    var names := MemberNames(members);
    assert MemberNames(members[..n]) == names[..n];
    ContentsKeys(members[..n]);
    assert names[n] == members[n].name && names[n] in names;
    forall other | other in Tree(members[..n])
      ensures other != names[n] && !(names[n] + "/" <= other) && !(other + "/" <= names[n])
    {
      var i :| 0 <= i < n && names[..n][i] == other;
      assert names[i] == other && other in names;
    }
  }

  // ----- The round trip -----

  /** Main result: the files that a built bundle becomes are the manifest's text and, for every other name, exactly the
      pinned bytes, each in its canonical mode, and no other file. */
  lemma MaterializedTreeIsTheSnapshot(codec: Codec, m: ReleaseManifest, contracts: seq<Contract>,
                                      contents: map<string, Bytes>, raw: Bytes)
    requires Lawful(codec) && BuiltFrom(codec, m, contracts, contents, raw)
    ensures codec.unpack(raw).Some?
    ensures var tree := Tree(Materialized(codec, m, codec.unpack(raw).value));
            tree.Keys == {MANIFEST_NAME} + Elements(Names(m.unit, contracts))
            && tree[MANIFEST_NAME] == File(codec.encodeManifest(m), FileMode(MANIFEST_NAME))
            && forall name :: name in Names(m.unit, contracts) ==>
                 name in contents && tree[name] == File(contents[name], FileMode(name))
  {
    var members := BundleMembers(codec, m, contracts, contents);
    BuiltUnpacks(codec, m, contracts, contents, raw);
    BuiltNames(codec, m, contracts, contents);
    NothingToReplace(codec, m, members);
    TreeOfBuilt(codec, m, contracts, contents);
  }

  lemma TreeOfBuilt(codec: Codec, m: ReleaseManifest, contracts: seq<Contract>, contents: map<string, Bytes>)
    requires Acceptable(contracts) && Holds(contents, SortedNames(m.unit, contracts))
    ensures var tree := Tree(BundleMembers(codec, m, contracts, contents));
            tree.Keys == {MANIFEST_NAME} + Elements(Names(m.unit, contracts))
            && tree[MANIFEST_NAME] == File(codec.encodeManifest(m), FileMode(MANIFEST_NAME))
            && forall name :: name in Names(m.unit, contracts) ==>
                 name in contents && tree[name] == File(contents[name], FileMode(name))
  {
    var members := BundleMembers(codec, m, contracts, contents);
    BuiltNames(codec, m, contracts, contents);
    ContentsKeys(members);
    BuiltHead(codec, m, contracts, contents);
    BuiltPacks(codec, m, contracts, contents);
    PackedTree(members, contents, Names(m.unit, contracts));
  }

  lemma BuiltHead(codec: Codec, m: ReleaseManifest, contracts: seq<Contract>, contents: map<string, Bytes>)
    requires Holds(contents, SortedNames(m.unit, contracts)) && DistinctNames(BundleMembers(codec, m, contracts, contents))
    ensures var packed := Contents(BundleMembers(codec, m, contracts, contents));
            MANIFEST_NAME in packed && packed[MANIFEST_NAME] == codec.encodeManifest(m)
  {
    ContentsAt(BundleMembers(codec, m, contracts, contents), 0);
  }

  lemma PackedTree(members: seq<Member>, contents: map<string, Bytes>, names: seq<string>)
    requires Packed(Contents(members), contents, names)
    ensures forall name :: name in names ==>
      name in contents && name in Tree(members) && Tree(members)[name] == File(contents[name], FileMode(name))
    ensures Tree(members).Keys == Contents(members).Keys
  {
  }

  lemma {:induction false} NoManifestInside(members: seq<Member>)
    requires forall i :: 0 <= i < |members| ==> members[i].name != MANIFEST_NAME
    ensures WithoutManifest(members) == members
  {
    if members != [] {
      NoManifestInside(members[..|members| - 1]);
      assert members == members[..|members| - 1] + [members[|members| - 1]];
    }
  }

  lemma {:induction false} WithoutHead(head: Member, rest: seq<Member>)
    requires head.name == MANIFEST_NAME
    ensures WithoutManifest([head] + rest) == WithoutManifest(rest)
    decreases |rest|
  {
    var all := [head] + rest;
    if rest == [] {
      assert all[..|all| - 1] == [];
    } else {
      assert all[..|all| - 1] == [head] + rest[..|rest| - 1];
      WithoutHead(head, rest[..|rest| - 1]);
    }
  }

  /** In a built bundle the first member is the canonical manifest and the only one of its name. */
  lemma NothingToReplace(codec: Codec, m: ReleaseManifest, members: seq<Member>)
    requires members != [] && DistinctNames(members) && members[0] == MemberOf(MANIFEST_NAME, codec.encodeManifest(m))
    ensures Materialized(codec, m, members) == members
  {
    var rest := members[1..];
    var names := MemberNames(members);
    forall i | 0 <= i < |rest| ensures rest[i].name != MANIFEST_NAME {
      assert names[0] != names[i + 1];
    }
    WithoutHead(members[0], rest);
    NoManifestInside(rest);
    assert members == [members[0]] + rest;
  }
}
