/** Pinning files: each name is read from disk at most once, and what was read stays.

    The disk may answer differently on every physical read, so a read is asked for by its name and by how many reads
    came before it. */
module SourcePins {
  import opened Results
  import opened BundlePaths

  type Bytes = seq<bv8>

  type Disk = (string, nat) -> Option<Bytes>

  datatype Pins = Pins(files: map<string, Bytes>, count: nat)

  predicate Holds(contents: map<string, Bytes>, names: seq<string>) {
    forall name :: name in names ==> name in contents
  }

  ghost predicate Extends(before: map<string, Bytes>, after: map<string, Bytes>) {
    forall name :: name in before ==> name in after && after[name] == before[name]
  }

  ghost predicate AllSafe(p: Pins) { forall name :: name in p.files ==> SafeRelative(name) }

  ghost function PinOne(disk: Disk, p: Pins, name: string): Option<Pins> {
    if !SafeRelative(name) then None
    else if name in p.files then Some(p)
    else if disk(name, p.count).None? then None
    else Some(Pins(p.files[name := disk(name, p.count).value], p.count + 1))
  }

  /** The pins after reading all names in order; None if one of them cannot be read. */
  ghost function Pin(disk: Disk, p: Pins, names: seq<string>): Option<Pins>
    decreases |names|
  {
    if names == [] then Some(p)
    else if PinOne(disk, p, names[0]).None? then None
    else Pin(disk, PinOne(disk, p, names[0]).value, names[1..])
  }

  ghost function PinOnward(disk: Disk, p: Option<Pins>, names: seq<string>): Option<Pins> {
    if p.None? then None else Pin(disk, p.value, names)
  }

  lemma {:induction false} PinInParts(disk: Disk, p: Pins, a: seq<string>, b: seq<string>)
    ensures Pin(disk, p, a + b) == PinOnward(disk, Pin(disk, p, a), b)
    decreases |a|
  {
    if a == [] {
      assert a + b == b;
    } else {
      assert (a + b)[0] == a[0] && (a + b)[1..] == a[1..] + b;
      if PinOne(disk, p, a[0]).Some? {
        PinInParts(disk, PinOne(disk, p, a[0]).value, a[1..], b);
      }
    }
  }

  lemma PinSingle(disk: Disk, p: Pins, name: string)
    ensures Pin(disk, p, [name]) == PinOne(disk, p, name)
  {
  }

  /** What is pinned stays, and all names that were read are pinned. */
  lemma {:induction false} PinKeeps(disk: Disk, p: Pins, names: seq<string>)
    requires Pin(disk, p, names).Some?
    ensures Extends(p.files, Pin(disk, p, names).value.files)
    ensures Holds(Pin(disk, p, names).value.files, names)
    ensures AllSafe(p) ==> AllSafe(Pin(disk, p, names).value)
    decreases |names|
  {
    if names != [] {
      PinKeeps(disk, PinOne(disk, p, names[0]).value, names[1..]);
      assert names == [names[0]] + names[1..];
    }
  }

  /** Reading pinned names again changes nothing. */
  lemma {:induction false} PinAgain(disk: Disk, p: Pins, names: seq<string>)
    requires AllSafe(p) && Holds(p.files, names)
    ensures Pin(disk, p, names) == Some(p)
    decreases |names|
  {
    if names != [] {
      assert names[0] in names;
      PinAgain(disk, p, names[1..]);
    }
  }

  // ----- A tree that nobody writes to -----

  function Lookup(tree: map<string, Bytes>, name: string): Option<Bytes> {
    if name in tree then Some(tree[name]) else None
  }

  ghost predicate Serves(disk: Disk, tree: map<string, Bytes>) {
    forall name, n :: disk(name, n) == Lookup(tree, name)
  }

  /** On a tree that does not change, reading succeeds exactly if every name is safe and present, and the pins show a
      part of the tree. */
  lemma {:induction false} PinsOfTree(disk: Disk, tree: map<string, Bytes>, p: Pins, names: seq<string>)
    requires Serves(disk, tree) && Extends(p.files, tree)
    ensures Pin(disk, p, names).Some? <==> Holds(tree, names) && forall name :: name in names ==> SafeRelative(name)
    ensures Pin(disk, p, names).Some? ==> Extends(Pin(disk, p, names).value.files, tree)
    decreases |names|
  {
    if names != [] {
      assert names == [names[0]] + names[1..];
      assert disk(names[0], p.count) == Lookup(tree, names[0]);
      if PinOne(disk, p, names[0]).Some? {
        PinsOfTree(disk, tree, PinOne(disk, p, names[0]).value, names[1..]);
      }
    }
  }
}
