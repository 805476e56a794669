/** The fail-closed guard over an OpenTofu plan: every action list that the plan can hold is inspected, deletes
    are refused, and one narrow retirement exception is allowed.

    A plan is a JSON tree whose objects keep their fields in file order. */
module PlanGuard {
  import opened Results

  datatype Json = Null | Bool(b: bool) | Num(text: string) | Str(s: string) | Arr(items: seq<Json>) | Obj(fields: seq<Field>)

  datatype Field = Field(key: string, value: Json)

  datatype Error = Malformed | Delete

  const MAX_REPORTED_COUNT: nat := 1_000_000

  function BoundedCount(n: nat): nat { if n < MAX_REPORTED_COUNT then n else MAX_REPORTED_COUNT }

  // ----- Lookups -----

  function Find(fields: seq<Field>, key: string): Option<Json> {
    if fields == [] then None else if fields[0].key == key then Some(fields[0].value) else Find(fields[1..], key)
  }

  function Get(v: Json, key: string): Option<Json> {
    if v.Obj? then Find(v.fields, key) else None
  }

  predicate IsObj(v: Option<Json>) { v.Some? && v.value.Obj? }

  predicate IsArr(v: Option<Json>) { v.Some? && v.value.Arr? }

  // ----- Action lists -----

  predicate ValidActions(v: Json) {
    v.Arr? && forall i :: 0 <= i < |v.items| ==> v.items[i].Str?
  }

  predicate HasDelete(v: Json) {
    v.Arr? && Str("delete") in v.items
  }

  function DeletesIn(items: seq<Json>): nat {
    if items == [] then 0 else (if items[0] == Str("delete") then 1 else 0) + DeletesIn(items[1..])
  }

  function Deletes(v: Json): nat {
    if v.Arr? then DeletesIn(v.items) else 0
  }

  /** Every value under the key "actions" in the tree, outermost first, in document order. */
  function ActionLists(v: Json): seq<Json>
    decreases v, 0
  {
    match v
    case Obj(fields) => FieldLists(fields)
    case Arr(items) => ItemLists(items)
    case _ => []
  }

  function FieldLists(fields: seq<Field>): seq<Json>
    decreases fields
  {
    if fields == [] then []
    else (if fields[0].key == "actions" then [fields[0].value] else ActionLists(fields[0].value)) + FieldLists(fields[1..])
  }

  function ItemLists(items: seq<Json>): seq<Json>
    decreases items
  {
    if items == [] then [] else ActionLists(items[0]) + ItemLists(items[1..])
  }

  /** A path of positions from v to an action list, through no other value of the key "actions". */
  predicate LeadsTo(v: Json, path: seq<nat>, actions: Json)
    decreases |path|
  {
    && path != []
    && match v
       case Obj(fields) =>
         && path[0] < |fields|
         && (if fields[path[0]].key == "actions" then |path| == 1 && fields[path[0]].value == actions
             else LeadsTo(fields[path[0]].value, path[1..], actions))
       case Arr(items) =>
         path[0] < |items| && LeadsTo(items[path[0]], path[1..], actions)
       case _ => false
  }

  ghost predicate Reachable(v: Json, actions: Json) {
    exists path: seq<nat> :: LeadsTo(v, path, actions)
  }

  /** The lists of one field. */
  function ListsOfField(field: Field): seq<Json> {
    if field.key == "actions" then [field.value] else ActionLists(field.value)
  }

  lemma {:induction false} InFieldLists(fields: seq<Field>, actions: Json)
    ensures actions in FieldLists(fields) <==> exists i :: 0 <= i < |fields| && actions in ListsOfField(fields[i])
  {
    if fields != [] {
      InFieldLists(fields[1..], actions);
      assert fields == [fields[0]] + fields[1..];
      assert forall i :: 0 <= i < |fields[1..]| ==> fields[1..][i] == fields[i + 1];
    }
  }

  lemma {:induction false} InItemLists(items: seq<Json>, actions: Json)
    ensures actions in ItemLists(items) <==> exists i :: 0 <= i < |items| && actions in ActionLists(items[i])
  {
    if items != [] {
      InItemLists(items[1..], actions);
      assert items == [items[0]] + items[1..];
      assert forall i :: 0 <= i < |items[1..]| ==> items[1..][i] == items[i + 1];
    }
  }

  /** The lists of a tree are those that a path leads to, at any depth. */
  lemma {:induction false} ActionListsAreTheReachableOnes(v: Json, actions: Json)
    ensures actions in ActionLists(v) <==> Reachable(v, actions)
  {
    if actions in ActionLists(v) {
      var path := PathTo(v, actions);
      assert LeadsTo(v, path, actions);
    }
    if Reachable(v, actions) {
      var path: seq<nat> :| LeadsTo(v, path, actions);
      PathIsFollowed(v, path, actions);
    }
  }

  lemma {:induction false} PathTo(v: Json, actions: Json) returns (path: seq<nat>)
    requires actions in ActionLists(v)
    ensures LeadsTo(v, path, actions)
    decreases v
  {
    if v.Obj? {
      InFieldLists(v.fields, actions);
      var i :| 0 <= i < |v.fields| && actions in ListsOfField(v.fields[i]);
      path := [i];
      if v.fields[i].key != "actions" {
        var rest := PathTo(v.fields[i].value, actions);
        path := [i] + rest;
        assert path[1..] == rest;
      }
    } else {
      InItemLists(v.items, actions);
      var i :| 0 <= i < |v.items| && actions in ActionLists(v.items[i]);
      var rest := PathTo(v.items[i], actions);
      path := [i] + rest;
      assert path[1..] == rest;
    }
  }

  lemma {:induction false} PathIsFollowed(v: Json, path: seq<nat>, actions: Json)
    requires LeadsTo(v, path, actions)
    ensures actions in ActionLists(v)
    decreases |path|
  {
    if v.Obj? {
      if v.fields[path[0]].key != "actions" {
        PathIsFollowed(v.fields[path[0]].value, path[1..], actions);
      }
      assert actions in ListsOfField(v.fields[path[0]]);
      InFieldLists(v.fields, actions);
    } else {
      PathIsFollowed(v.items[path[0]], path[1..], actions);
      InItemLists(v.items, actions);
    }
  }

  // ----- Counters -----

  datatype Tally = Tally(actionLists: nat, deleteActions: nat)

  function Recorded(t: Tally, actions: Json): Tally {
    Tally(BoundedCount(t.actionLists + 1), BoundedCount(t.deleteActions + Deletes(actions)))
  }

  class Counts {
    var actionLists: nat
    var deleteActions: nat

    constructor ()
      ensures View() == Tally(0, 0)
    {
      actionLists, deleteActions := 0, 0;
    }

    function View(): Tally
      reads this
    {
      Tally(actionLists, deleteActions)
    }

    method RecordActions(value: Json) returns (ok: bool)
      modifies this
      ensures ok <==> ValidActions(value)
      ensures ok ==> View() == Recorded(old(View()), value)
    {
      if !ValidActions(value) {
        return false;
      }
      actionLists := BoundedCount(actionLists + 1);
      deleteActions := BoundedCount(deleteActions + Deletes(value));
      ok := true;
    }
  }

  /** Specification of any inspection: the lists in order, refusing what is no action list and, if asked to,
      any delete. */
  function Inspected(lists: seq<Json>, t: Tally, rejectDeletes: bool): Result<Tally, Error>
    decreases |lists|
  {
    if lists == [] then Ok(t)
    else if !ValidActions(lists[0]) then Err(Malformed)
    else if rejectDeletes && HasDelete(lists[0]) then Err(Delete)
    else Inspected(lists[1..], Recorded(t, lists[0]), rejectDeletes)
  }

  lemma {:induction false} InspectedSplits(a: seq<Json>, b: seq<Json>, t: Tally, rejectDeletes: bool)
    ensures Inspected(a + b, t, rejectDeletes)
         == var first := Inspected(a, t, rejectDeletes);
            if first.Err? then first else Inspected(b, first.value, rejectDeletes)
    decreases |a|
  {
    if a == [] {
      assert a + b == b;
    } else if ValidActions(a[0]) && !(rejectDeletes && HasDelete(a[0])) {
      InspectedSplits(a[1..], b, Recorded(t, a[0]), rejectDeletes);
      assert (a + b)[1..] == a[1..] + b;
    }
  }

  /** Every list is an action list and, if deletes are refused, holds none. */
  predicate Clean(lists: seq<Json>, rejectDeletes: bool) {
    forall actions :: actions in lists ==> ValidActions(actions) && (rejectDeletes ==> !HasDelete(actions))
  }

  function TotalDeletes(lists: seq<Json>): nat {
    if lists == [] then 0 else Deletes(lists[0]) + TotalDeletes(lists[1..])
  }

  predicate Bounded(t: Tally) { t.actionLists <= MAX_REPORTED_COUNT && t.deleteActions <= MAX_REPORTED_COUNT }

  /** What a saturating counter must show: the true totals, cut off at the maximum. */
  function Counted(t: Tally, lists: seq<Json>): Tally {
    Tally(BoundedCount(t.actionLists + |lists|), BoundedCount(t.deleteActions + TotalDeletes(lists)))
  }

  /** Saturating after every list loses nothing: the inspection accepts exactly the clean lists and its counters are
      the minimum of the true totals and the cap. */
  lemma {:induction false} InspectedIs(lists: seq<Json>, t: Tally, rejectDeletes: bool)
    requires Bounded(t)
    ensures Inspected(lists, t, rejectDeletes).Ok? <==> Clean(lists, rejectDeletes)
    ensures Clean(lists, rejectDeletes) ==> Inspected(lists, t, rejectDeletes) == Ok(Counted(t, lists))
    decreases |lists|
  {
    if lists != [] {
      assert lists[0] in lists && lists == [lists[0]] + lists[1..];
      InspectedIs(lists[1..], Recorded(t, lists[0]), rejectDeletes);
    }
  }

  lemma {:induction false} TotalDeletesSplits(a: seq<Json>, b: seq<Json>)
    ensures TotalDeletes(a + b) == TotalDeletes(a) + TotalDeletes(b)
  {
    if a == [] {
      assert a + b == b;
    } else {
      assert (a + b)[1..] == a[1..] + b;
      TotalDeletesSplits(a[1..], b);
    }
  }

  lemma CountedSplits(t: Tally, a: seq<Json>, b: seq<Json>)
    requires Bounded(t)
    ensures Counted(Counted(t, a), b) == Counted(t, a + b)
  {
    TotalDeletesSplits(a, b);
  }

  lemma {:induction false} NoDeletesIff(items: seq<Json>)
    ensures DeletesIn(items) == 0 <==> Str("delete") !in items
  {
    if items != [] {
      NoDeletesIff(items[1..]);
      assert items == [items[0]] + items[1..];
    }
  }

  /** The zero test on the saturating counter is exact. */
  lemma {:induction false} ZeroTestIsExact(lists: seq<Json>)
    ensures BoundedCount(TotalDeletes(lists)) == 0 <==> forall actions :: actions in lists ==> !HasDelete(actions)
  {
    if lists != [] {
      assert lists[0] in lists && lists == [lists[0]] + lists[1..];
      ZeroTestIsExact(lists[1..]);
      if lists[0].Arr? {
        NoDeletesIff(lists[0].items);
      }
    }
  }

  /** The recursive walk inspects exactly the action lists of the tree. */
  method WalkFutureActions(value: Json, counts: Counts, rejectDeletes: bool) returns (result: Result<Tally, Error>)
    modifies counts
    ensures result == Inspected(ActionLists(value), old(counts.View()), rejectDeletes)
    ensures result.Ok? ==> counts.View() == result.value
    decreases value
  {
    result := Ok(counts.View());
    match value {
      case Obj(fields) =>
        assert fields[0..] == fields;
        for n := 0 to |fields|
          invariant result == Ok(counts.View())
          invariant Inspected(FieldLists(fields), old(counts.View()), rejectDeletes)
                 == Inspected(FieldLists(fields[n..]), counts.View(), rejectDeletes)
        {
          var field := fields[n];
          assert fields[n..][1..] == fields[n + 1..] && fields[n..][0] == field;
          var here := if field.key == "actions" then [field.value] else ActionLists(field.value);
          InspectedSplits(here, FieldLists(fields[n + 1..]), counts.View(), rejectDeletes);
          if field.key == "actions" {
            var ok := counts.RecordActions(field.value);
            if !ok {
              return Err(Malformed);
            }
            if rejectDeletes && HasDelete(field.value) {
              return Err(Delete);
            }
            result := Ok(counts.View());
          } else {
            result := WalkFutureActions(field.value, counts, rejectDeletes);
            if result.Err? {
              return;
            }
          }
        }
      case Arr(items) =>
        assert items[0..] == items;
        for n := 0 to |items|
          invariant result == Ok(counts.View())
          invariant Inspected(ItemLists(items), old(counts.View()), rejectDeletes)
                 == Inspected(ItemLists(items[n..]), counts.View(), rejectDeletes)
        {
          assert items[n..][1..] == items[n + 1..] && items[n..][0] == items[n];
          InspectedSplits(ActionLists(items[n]), ItemLists(items[n + 1..]), counts.View(), rejectDeletes);
          result := WalkFutureActions(items[n], counts, rejectDeletes);
          if result.Err? {
            return;
          }
        }
      case _ =>
    }
  }

  // ----- Sections of the plan -----

  /** The action list of a resource change or drift entry; Null, which is no action list, if the entry is malformed. */
  function ActionsOf(item: Json): Json {
    var change := Get(item, "change");
    var actions := if IsObj(change) then Get(change.value, "actions") else None;
    if actions.Some? then actions.value else Null
  }

  function OutputActions(item: Json): Json {
    var actions := Get(item, "actions");
    if actions.Some? then actions.value else Null
  }

  function ChangeLists(items: seq<Json>): seq<Json> {
    if items == [] then [] else [ActionsOf(items[0])] + ChangeLists(items[1..])
  }

  function OutputLists(fields: seq<Field>): seq<Json> {
    if fields == [] then [] else [OutputActions(fields[0].value)] + OutputLists(fields[1..])
  }

  predicate IsKnownSection(key: string) {
    key in ["checks", "configuration", "deferred_changes", "errored", "format_version", "output_changes", "planned_values",
            "prior_state", "relevant_attributes", "resource_changes", "resource_drift", "terraform_version", "timestamp",
            "variables"]
  }

  function FutureLists(fields: seq<Field>): seq<Json> {
    if fields == [] then []
    else (if IsKnownSection(fields[0].key) then [] else ActionLists(fields[0].value)) + FutureLists(fields[1..])
  }

  predicate NonEmptyText(v: Option<Json>) { v.Some? && v.value.Str? && v.value.s != "" }

  predicate HasRootModule(v: Option<Json>) { IsObj(v) && IsObj(Get(v.value, "root_module")) }

  predicate HeaderOk(plan: Json) {
    && plan.Obj?
    && NonEmptyText(Get(plan, "format_version")) && NonEmptyText(Get(plan, "terraform_version"))
    && HasRootModule(Get(plan, "planned_values")) && HasRootModule(Get(plan, "configuration"))
    && Get(plan, "resource_changes").Some? && Get(plan, "output_changes").Some?
  }

  function Drift(plan: Json): Json {
    var drift := Get(plan, "resource_drift");
    if drift.Some? then drift.value else Arr([])
  }

  /** Absent, or a list of objects. */
  predicate OptionalCollection(v: Option<Json>) {
    v.None? || (v.value.Arr? && forall i :: 0 <= i < |v.value.items| ==> v.value.items[i].Obj?)
  }

  predicate CollectionsOk(plan: Json) {
    && OptionalCollection(Get(plan, "checks"))
    && OptionalCollection(Get(plan, "deferred_changes"))
    && OptionalCollection(Get(plan, "relevant_attributes"))
  }

  ghost predicate StructureOk(plan: Json) {
    && HeaderOk(plan) && IsArr(Get(plan, "resource_changes")) && Drift(plan).Arr?
    && IsObj(Get(plan, "output_changes")) && CollectionsOk(plan)
  }

  ghost function ResourceLists(plan: Json): seq<Json>
    requires StructureOk(plan)
  {
    ChangeLists(Get(plan, "resource_changes").value.items)
  }

  function DeferredLists(plan: Json): seq<Json> {
    var deferred := Get(plan, "deferred_changes");
    if deferred.Some? then ActionLists(deferred.value) else []
  }

  /** Action lists outside the resource changes: drift, outputs, deferred changes, unknown sections. */
  ghost function OtherLists(plan: Json): seq<Json>
    requires StructureOk(plan)
  {
    ChangeLists(Drift(plan).items) + OutputLists(Get(plan, "output_changes").value.fields) + DeferredLists(plan)
      + FutureLists(plan.fields)
  }

  // ----- The retirement exception -----

  predicate Retires(item: Json) { HasDelete(ActionsOf(item)) }

  function AddressOf(item: Json): Json {
    var address := Get(item, "address");
    if address.Some? then address.value else Null
  }

  /** A pure delete of an allowed address: not a move, not a deposed object. */
  predicate PureRetirement(item: Json, allowed: set<string>) {
    && ActionsOf(item) == Arr([Str("delete")])
    && Get(item, "previous_address").None? && Get(item, "deposed").None?
    && AddressOf(item).Str? && AddressOf(item).s in allowed
  }

  /** Every deleting entry is a pure retirement and no two delete the same address. */
  ghost predicate OnlyRetirements(items: seq<Json>, allowed: set<string>) {
    && (forall i :: 0 <= i < |items| && Retires(items[i]) ==> PureRetirement(items[i], allowed))
    && (forall i, j :: 0 <= i < j < |items| && Retires(items[i]) && Retires(items[j]) ==>
          AddressOf(items[i]) != AddressOf(items[j]))
  }

  ghost predicate RetiresAddress(items: seq<Json>, address: string) {
    exists i :: 0 <= i < |items| && Retires(items[i]) && AddressOf(items[i]) == Str(address)
  }

  /** The exception: no deletes at all, or exactly one pure delete for each allowed address. */
  ghost predicate RetirementsOk(items: seq<Json>, allowed: set<string>) {
    && OnlyRetirements(items, allowed)
    && (NoneRetires(items) || AllRetired(items, allowed))
  }

  ghost predicate NoneRetires(items: seq<Json>) {
    forall i :: 0 <= i < |items| ==> !Retires(items[i])
  }

  ghost predicate AllRetired(items: seq<Json>, allowed: set<string>) {
    forall address :: address in allowed ==> RetiresAddress(items, address)
  }

  /** The addresses that the scan of resource changes has seen deleted. */
  ghost predicate Seen(items: seq<Json>, seen: set<string>) {
    && (forall i :: 0 <= i < |items| && Retires(items[i]) ==> AddressOf(items[i]).Str? && AddressOf(items[i]).s in seen)
    && (forall address :: address in seen ==> RetiresAddress(items, address))
  }

  // ----- The loops over the sections -----

  method InspectChanges(items: seq<Json>, counts: Counts, allowed: set<string>) returns (ok: bool, seen: set<string>)
    requires Bounded(counts.View())
    modifies counts
    ensures ok <==> Clean(ChangeLists(items), false) && (allowed != {} ==> OnlyRetirements(items, allowed))
    ensures ok ==> counts.View() == Counted(old(counts.View()), ChangeLists(items))
    ensures ok && allowed != {} ==> Seen(items, seen)
  {
    seen := {};
    assert items[0..] == items && items[..0] == [];
    InspectedIs(ChangeLists(items), counts.View(), false);
    for n := 0 to |items|
      invariant Inspected(ChangeLists(items), old(counts.View()), false)
             == Inspected(ChangeLists(items[n..]), counts.View(), false)
      invariant allowed != {} ==> OnlyRetirements(items[..n], allowed) && Seen(items[..n], seen)
    {
      var item := items[n];
      assert items[n..][1..] == items[n + 1..];
      var recorded := counts.RecordActions(ActionsOf(item));
      if !recorded {
        return false, seen;
      }
      if allowed == {} {
        continue;
      }
      ScanStep(items, n, allowed, seen);
      if !Retires(item) {
        continue;
      }
      if !PureRetirement(item, allowed) || AddressOf(item).s in seen {
        return false, seen;
      }
      seen := seen + {AddressOf(item).s};
    }
    assert items[..|items|] == items;
    ok := true;
  }

  /** One entry of the scan: what is learnt from accepting it, and why refusing it is final. */
  lemma ScanStep(items: seq<Json>, n: nat, allowed: set<string>, seen: set<string>)
    requires n < |items| && OnlyRetirements(items[..n], allowed) && Seen(items[..n], seen)
    ensures !Retires(items[n]) ==> OnlyRetirements(items[..n + 1], allowed) && Seen(items[..n + 1], seen)
    ensures Retires(items[n]) && PureRetirement(items[n], allowed) && AddressOf(items[n]).s !in seen ==>
      OnlyRetirements(items[..n + 1], allowed) && Seen(items[..n + 1], seen + {AddressOf(items[n]).s})
    ensures Retires(items[n]) && !PureRetirement(items[n], allowed) ==> !OnlyRetirements(items, allowed)
    ensures Retires(items[n]) && PureRetirement(items[n], allowed) && AddressOf(items[n]).s in seen ==>
      !OnlyRetirements(items, allowed)
  {
    var before, now := items[..n], items[..n + 1];
    assert now == before + [items[n]];
    forall address | RetiresAddress(before, address) ensures RetiresAddress(now, address) {
      var i :| 0 <= i < |before| && Retires(before[i]) && AddressOf(before[i]) == Str(address);
      assert now[i] == before[i];
    }
    if Retires(items[n]) && PureRetirement(items[n], allowed) {
      assert now[n] == items[n];
      var address := AddressOf(items[n]).s;
      assert RetiresAddress(now, address);
      if address in seen {
        var i :| 0 <= i < |before| && Retires(before[i]) && AddressOf(before[i]) == Str(address);
        assert items[i] == before[i] && AddressOf(items[i]) == AddressOf(items[n]);
      }
    }
  }

  /** Drift entries and output changes: the same inspection on another list of action lists. */
  method InspectLists(lists: seq<Json>, counts: Counts, rejectDeletes: bool) returns (ok: bool)
    requires Bounded(counts.View())
    modifies counts
    ensures ok <==> Clean(lists, rejectDeletes)
    ensures ok ==> counts.View() == Counted(old(counts.View()), lists)
  {
    assert lists[0..] == lists;
    InspectedIs(lists, counts.View(), rejectDeletes);
    for n := 0 to |lists|
      invariant Inspected(lists, old(counts.View()), rejectDeletes) == Inspected(lists[n..], counts.View(), rejectDeletes)
    {
      assert lists[n..][1..] == lists[n + 1..];
      var recorded := counts.RecordActions(lists[n]);
      if !recorded || (rejectDeletes && HasDelete(lists[n])) {
        return false;
      }
    }
    ok := true;
  }

  method InspectFutureSections(fields: seq<Field>, counts: Counts, rejectDeletes: bool) returns (ok: bool)
    requires Bounded(counts.View())
    modifies counts
    ensures ok <==> Clean(FutureLists(fields), rejectDeletes)
    ensures ok ==> counts.View() == Counted(old(counts.View()), FutureLists(fields))
  {
    assert fields[0..] == fields;
    InspectedIs(FutureLists(fields), counts.View(), rejectDeletes);
    for n := 0 to |fields|
      invariant Inspected(FutureLists(fields), old(counts.View()), rejectDeletes)
             == Inspected(FutureLists(fields[n..]), counts.View(), rejectDeletes)
    {
      assert fields[n..][1..] == fields[n + 1..];
      if IsKnownSection(fields[n].key) {
        assert [] + FutureLists(fields[n + 1..]) == FutureLists(fields[n + 1..]);
        continue;
      }
      InspectedSplits(ActionLists(fields[n].value), FutureLists(fields[n + 1..]), counts.View(), rejectDeletes);
      var result := WalkFutureActions(fields[n].value, counts, rejectDeletes);
      if result.Err? {
        return false;
      }
    }
    ok := true;
  }

  /** Deferred changes, if any, then the sections whose names are unknown. */
  method InspectRest(plan: Json, counts: Counts, rejectDeletes: bool) returns (ok: bool)
    requires Bounded(counts.View()) && plan.Obj?
    modifies counts
    ensures ok <==> Clean(DeferredLists(plan) + FutureLists(plan.fields), rejectDeletes)
    ensures ok ==> counts.View() == Counted(old(counts.View()), DeferredLists(plan) + FutureLists(plan.fields))
  {
    InspectedIs(DeferredLists(plan), counts.View(), rejectDeletes);
    CountedSplits(counts.View(), DeferredLists(plan), FutureLists(plan.fields));
    if Get(plan, "deferred_changes").Some? {
      var walked := WalkFutureActions(Get(plan, "deferred_changes").value, counts, rejectDeletes);
      if walked.Err? {
        return false;
      }
    }
    ok := InspectFutureSections(plan.fields, counts, rejectDeletes);
  }

  /** Shape and deletes, section by section; None rejects the plan. */
  method ValidateShape(plan: Json, allowed: set<string>) returns (tally: Option<Tally>)
    ensures tally.Some? <==>
              && StructureOk(plan)
              && Clean(ResourceLists(plan), false)
              && Clean(OtherLists(plan), allowed != {})
              && (allowed != {} ==> RetirementsOk(Get(plan, "resource_changes").value.items, allowed))
    ensures tally.Some? ==> tally.value == Counted(Tally(0, 0), ResourceLists(plan) + OtherLists(plan))
  {
    if !HeaderOk(plan) || !IsArr(Get(plan, "resource_changes")) {
      return None;
    }
    var counts := new Counts();
    var items := Get(plan, "resource_changes").value.items;
    var ok, seen := InspectChanges(items, counts, allowed);
    if !ok {
      return None;
    }
    if allowed != {} {
      SeenDecides(items, allowed, seen);
      if seen != {} && seen != allowed {
        return None;
      }
    }
    var rest := InspectOthers(plan, counts, allowed != {});
    if !rest {
      return None;
    }
    CountedSplits(Tally(0, 0), ResourceLists(plan), OtherLists(plan));
    tally := Some(counts.View());
  }

  lemma SeenDecides(items: seq<Json>, allowed: set<string>, seen: set<string>)
    requires OnlyRetirements(items, allowed) && Seen(items, seen)
    ensures RetirementsOk(items, allowed) <==> seen == {} || seen == allowed
  {
    assert seen <= allowed by {
      forall address | address in seen ensures address in allowed {
        var i :| 0 <= i < |items| && Retires(items[i]) && AddressOf(items[i]) == Str(address);
      }
    }
    if AllRetired(items, allowed) {
      assert allowed <= seen;
    }
    if address :| address in seen {
      assert RetiresAddress(items, address);
    }
  }

  /** Everything after the resource changes. */
  method InspectOthers(plan: Json, counts: Counts, rejectDeletes: bool) returns (ok: bool)
    requires HeaderOk(plan) && IsArr(Get(plan, "resource_changes")) && Bounded(counts.View())
    modifies counts
    ensures ok <==> StructureOk(plan) && Clean(OtherLists(plan), rejectDeletes)
    ensures ok ==> counts.View() == Counted(old(counts.View()), OtherLists(plan))
  {
    if !Drift(plan).Arr? {
      return false;
    }
    ghost var drift := ChangeLists(Drift(plan).items);
    ok := InspectLists(ChangeLists(Drift(plan).items), counts, rejectDeletes);
    if !ok || !IsObj(Get(plan, "output_changes")) {
      return false;
    }
    ghost var outputs := OutputLists(Get(plan, "output_changes").value.fields);
    ok := InspectLists(OutputLists(Get(plan, "output_changes").value.fields), counts, rejectDeletes);
    if !ok || !CollectionsOk(plan) {
      return false;
    }
    ok := InspectRest(plan, counts, rejectDeletes);
    ghost var rest := DeferredLists(plan) + FutureLists(plan.fields);
    assert OtherLists(plan) == drift + outputs + rest;
    CountedSplits(old(counts.View()), drift, outputs);
    CountedSplits(old(counts.View()), drift + outputs, rest);
  }

  // ----- The decision -----

  /** Default mode accepts exactly the well-shaped plans in which no inspected action list deletes; retirement mode
      exactly those whose deletes are none, or one pure delete for each allowed address, all among the resource
      changes. */
  method Accepts(plan: Json, allowed: set<string>) returns (accepted: bool)
    ensures allowed == {} ==>
      (accepted <==> StructureOk(plan) && Clean(ResourceLists(plan) + OtherLists(plan), true))
    ensures allowed != {} ==>
      (accepted <==>
         && StructureOk(plan)
         && Clean(ResourceLists(plan), false) && Clean(OtherLists(plan), true)
         && RetirementsOk(Get(plan, "resource_changes").value.items, allowed))
  {
    var tally := ValidateShape(plan, allowed);
    if tally.None? {
      return false;
    }
    ZeroTestIsExact(ResourceLists(plan) + OtherLists(plan));
    if allowed == {} && tally.value.deleteActions != 0 {
      return false;
    }
    accepted := true;
  }

  // ----- The command line -----

  const FLAG := "--allow-delete-address"
  const FINDB_SECRET := "aws_secretsmanager_secret.runtime[\"findb/registry/ghcr-pull\"]"
  const FETCHER_SECRET := "aws_secretsmanager_secret.runtime[\"fetcher/registry/ghcr-pull\"]"

  const ALLOWED_ADDRESSES: set<string> := {FINDB_SECRET, FETCHER_SECRET}

  datatype Arguments = Arguments(path: string, allowed: set<string>)

  /** The two command lines that are understood: the plan alone, or both retirements and then the plan. */
  predicate DefaultCommand(argv: seq<string>) { |argv| == 2 }

  predicate RetirementCommand(argv: seq<string>) {
    |argv| == 6 && argv[1] == argv[3] == FLAG && {argv[2], argv[4]} == ALLOWED_ADDRESSES
  }

  lemma TwoAddresses()
    ensures FINDB_SECRET != FETCHER_SECRET
  {
    assert FINDB_SECRET[36] != FETCHER_SECRET[36];
  }

  method ParseArgs(argv: seq<string>) returns (parsed: Option<Arguments>)
    ensures parsed == if DefaultCommand(argv) then Some(Arguments(argv[1], {}))
                      else if RetirementCommand(argv) then Some(Arguments(argv[5], ALLOWED_ADDRESSES))
                      else None
  {
    TwoAddresses();
    var allowed: set<string> := {};
    var index := 1;
    while index < |argv| - 1
      invariant 1 <= index && (index <= |argv| - 1 || index == 1)
      invariant index in {1, 3, 5} && allowed <= ALLOWED_ADDRESSES
      invariant index == 1 ==> allowed == {}
      invariant index >= 3 ==> argv[1] == FLAG
      invariant index == 3 ==> allowed == {argv[2]}
      invariant index == 5 ==> argv[3] == FLAG && argv[2] != argv[4] && allowed == {argv[2], argv[4]}
    {
      assert index == 3 && argv[4] == argv[2] ==> !RetirementCommand(argv);
      if argv[index] != FLAG || index + 1 >= |argv| - 1 {
        return None;
      }
      var address := argv[index + 1];
      if address in allowed || address !in ALLOWED_ADDRESSES {
        return None;
      }
      allowed := allowed + {address};
      index := index + 2;
    }
    if index != |argv| - 1 {
      return None;
    }
    if allowed != {} && allowed != ALLOWED_ADDRESSES {
      return None;
    }
    parsed := Some(Arguments(argv[index], allowed));
  }
}
