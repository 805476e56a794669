/** Which plans the guard lets through, said of the plan's own fields and of the paths into it. */
module PlanGuardTheory {
  import opened Results
  import opened PlanGuard

  // ----- Fields -----

  /** The object's first field of the name holds x. */
  ghost predicate Has(v: Json, key: string, x: Json) {
    && v.Obj?
    && exists i :: 0 <= i < |v.fields| && v.fields[i] == Field(key, x) && forall j :: 0 <= j < i ==> v.fields[j].key != key
  }

  lemma {:induction false} FindIs(fields: seq<Field>, key: string, x: Json)
    ensures Find(fields, key) == Some(x) <==> Has(Obj(fields), key, x)
  {
    if fields != [] {
      var rest := fields[1..];
      FindIs(rest, key, x);
      assert forall i :: 0 <= i < |rest| ==> rest[i] == fields[i + 1];
      if fields[0].key != key {
        if Has(Obj(rest), key, x) {
          var i :| 0 <= i < |rest| && rest[i] == Field(key, x) && forall j :: 0 <= j < i ==> rest[j].key != key;
          assert fields[i + 1] == Field(key, x);
          assert forall j :: 0 < j < i + 1 ==> fields[j] == rest[j - 1];
        }
        if Has(Obj(fields), key, x) {
          var i :| 0 <= i < |fields| && fields[i] == Field(key, x) && forall j :: 0 <= j < i ==> fields[j].key != key;
          assert rest[i - 1] == Field(key, x);
        }
      }
    }
  }

  lemma GetIs(v: Json, key: string)
    ensures forall x :: Get(v, key) == Some(x) <==> Has(v, key, x)
  {
    forall x ensures Get(v, key) == Some(x) <==> Has(v, key, x) {
      if v.Obj? {
        FindIs(v.fields, key, x);
        assert v == Obj(v.fields);
      }
    }
    if Get(v, key).Some? {
      assert Has(v, key, Get(v, key).value);
    }
  }

  // ----- Action lists -----

  /** A list of texts. */
  ghost predicate TextList(v: Json) { v.Arr? && forall i :: 0 <= i < |v.items| ==> exists s :: v.items[i] == Str(s) }

  ghost predicate DeletesSomething(v: Json) { v.Arr? && exists i :: 0 <= i < |v.items| && v.items[i] == Str("delete") }

  lemma ActionsAre(v: Json)
    ensures ValidActions(v) <==> TextList(v)
    ensures HasDelete(v) <==> DeletesSomething(v)
  {
    if v.Arr? && ValidActions(v) {
      forall i | 0 <= i < |v.items| ensures exists s :: v.items[i] == Str(s) {
        assert v.items[i] == Str(v.items[i].s);
      }
    }
  }

  /** What may stand at an inspected place: a list of texts, without a delete where those are refused. */
  ghost predicate Harmless(v: Json, rejectDeletes: bool) { TextList(v) && (rejectDeletes ==> !DeletesSomething(v)) }

  ghost predicate AllHarmless(lists: seq<Json>, rejectDeletes: bool) {
    forall v :: v in lists ==> Harmless(v, rejectDeletes)
  }

  lemma CleanIs(lists: seq<Json>, rejectDeletes: bool)
    ensures Clean(lists, rejectDeletes) <==> AllHarmless(lists, rejectDeletes)
  {
    forall v ensures ValidActions(v) <==> TextList(v) {
      ActionsAre(v);
    }
    forall v ensures HasDelete(v) <==> DeletesSomething(v) {
      ActionsAre(v);
    }
  }

  /** The action list of a change or drift entry. */
  ghost predicate Entry(item: Json, actions: Json) {
    exists change :: Has(item, "change", change) && Has(change, "actions", actions)
  }

  lemma EntryIs(item: Json)
    ensures forall actions :: Entry(item, actions) ==> ActionsOf(item) == actions
    ensures ActionsOf(item) != Null ==> Entry(item, ActionsOf(item))
  {
    GetIs(item, "change");
    if Get(item, "change").Some? {
      var change := Get(item, "change").value;
      GetIs(change, "actions");
      assert Has(item, "change", change);
    }
    forall change, actions | Has(item, "change", change) && Has(change, "actions", actions)
      ensures ActionsOf(item) == actions
    {
      GetIs(change, "actions");
    }
  }

  ghost predicate HarmlessEntry(item: Json, rejectDeletes: bool) {
    exists actions :: Entry(item, actions) && Harmless(actions, rejectDeletes)
  }

  ghost predicate HarmlessEntries(items: seq<Json>, rejectDeletes: bool) {
    forall i :: 0 <= i < |items| ==> HarmlessEntry(items[i], rejectDeletes)
  }

  lemma {:induction false} ChangesAre(items: seq<Json>, rejectDeletes: bool)
    ensures AllHarmless(ChangeLists(items), rejectDeletes) <==> HarmlessEntries(items, rejectDeletes)
  {
    if items != [] {
      ChangesAre(items[1..], rejectDeletes);
      EntryIs(items[0]);
      assert ChangeLists(items) == [ActionsOf(items[0])] + ChangeLists(items[1..]);
      assert HarmlessEntry(items[0], rejectDeletes) <==> Harmless(ActionsOf(items[0]), rejectDeletes);
      assert HarmlessEntries(items, rejectDeletes) <==>
        HarmlessEntry(items[0], rejectDeletes) && HarmlessEntries(items[1..], rejectDeletes) by {
        assert forall i :: 0 <= i < |items[1..]| ==> items[1..][i] == items[i + 1];
        assert forall i :: 0 < i < |items| ==> items[i] == items[1..][i - 1];
      }
      HeadAndRest(ActionsOf(items[0]), ChangeLists(items[1..]), rejectDeletes);
    }
  }

  lemma HeadAndRest(v: Json, rest: seq<Json>, rejectDeletes: bool)
    ensures AllHarmless([v] + rest, rejectDeletes) <==> Harmless(v, rejectDeletes) && AllHarmless(rest, rejectDeletes)
  {
    assert ([v] + rest)[0] == v;
    assert forall x :: x in [v] + rest <==> x == v || x in rest;
  }

  lemma BothHarmless(a: seq<Json>, b: seq<Json>, rejectDeletes: bool)
    ensures AllHarmless(a + b, rejectDeletes) <==> AllHarmless(a, rejectDeletes) && AllHarmless(b, rejectDeletes)
  {
    assert forall x :: x in a + b <==> x in a || x in b;
  }

  ghost predicate HarmlessOutput(item: Json, rejectDeletes: bool) {
    exists actions :: Has(item, "actions", actions) && Harmless(actions, rejectDeletes)
  }

  ghost predicate HarmlessOutputs(fields: seq<Field>, rejectDeletes: bool) {
    forall i :: 0 <= i < |fields| ==> HarmlessOutput(fields[i].value, rejectDeletes)
  }

  lemma {:induction false} OutputsAre(fields: seq<Field>, rejectDeletes: bool)
    ensures AllHarmless(OutputLists(fields), rejectDeletes) <==> HarmlessOutputs(fields, rejectDeletes)
  {
    if fields != [] {
      var rest := fields[1..];
      OutputsAre(rest, rejectDeletes);
      OutputIs(fields[0].value, rejectDeletes);
      HeadAndRest(OutputActions(fields[0].value), OutputLists(rest), rejectDeletes);
      assert HarmlessOutputs(fields, rejectDeletes) <==>
        HarmlessOutput(fields[0].value, rejectDeletes) && HarmlessOutputs(rest, rejectDeletes) by {
        assert forall i :: 0 <= i < |rest| ==> rest[i] == fields[i + 1];
        assert forall i :: 0 < i < |fields| ==> fields[i] == rest[i - 1];
      }
    }
  }

  lemma OutputIs(item: Json, rejectDeletes: bool)
    ensures Harmless(OutputActions(item), rejectDeletes) <==> HarmlessOutput(item, rejectDeletes)
  {
    GetIs(item, "actions");
    if Get(item, "actions").Some? {
      assert Has(item, "actions", Get(item, "actions").value);
    }
  }

  /** Every action list at the end of a path into the value. */
  ghost predicate HarmlessTree(v: Json, rejectDeletes: bool) {
    forall actions :: Reachable(v, actions) ==> Harmless(actions, rejectDeletes)
  }

  lemma TreeIs(v: Json, rejectDeletes: bool)
    ensures AllHarmless(ActionLists(v), rejectDeletes) <==> HarmlessTree(v, rejectDeletes)
  {
    forall actions ensures actions in ActionLists(v) <==> Reachable(v, actions) {
      ActionListsAreTheReachableOnes(v, actions);
    }
  }

  /** The sections of a plan that are known to the guard. */
  const KNOWN_SECTIONS: set<string> := {
    "checks", "configuration", "deferred_changes", "errored", "format_version", "output_changes", "planned_values",
    "prior_state", "relevant_attributes", "resource_changes", "resource_drift", "terraform_version", "timestamp", "variables"}

  lemma SectionIs(key: string)
    ensures IsKnownSection(key) <==> key in KNOWN_SECTIONS
  {
  }

  ghost predicate HarmlessFuture(fields: seq<Field>, rejectDeletes: bool) {
    forall i :: 0 <= i < |fields| && fields[i].key !in KNOWN_SECTIONS ==> HarmlessTree(fields[i].value, rejectDeletes)
  }

  lemma {:induction false} FutureIs(fields: seq<Field>, rejectDeletes: bool)
    ensures AllHarmless(FutureLists(fields), rejectDeletes) <==> HarmlessFuture(fields, rejectDeletes)
  {
    if fields != [] {
      var rest := fields[1..];
      FutureIs(rest, rejectDeletes);
      SectionIs(fields[0].key);
      TreeIs(fields[0].value, rejectDeletes);
      BothHarmless(if IsKnownSection(fields[0].key) then [] else ActionLists(fields[0].value), FutureLists(rest),
                   rejectDeletes);
      SplitFuture(fields, rejectDeletes);
    }
  }

  lemma SplitFuture(fields: seq<Field>, rejectDeletes: bool)
    requires fields != []
    ensures HarmlessFuture(fields, rejectDeletes) <==>
      && (fields[0].key in KNOWN_SECTIONS || HarmlessTree(fields[0].value, rejectDeletes))
      && HarmlessFuture(fields[1..], rejectDeletes)
  {
    var rest := fields[1..];
    assert forall i :: 0 <= i < |rest| ==> rest[i] == fields[i + 1];
    assert forall i :: 0 < i < |fields| ==> fields[i] == rest[i - 1];
  }

  // ----- The frame of a plan -----

  ghost predicate TextThere(plan: Json, key: string) {
    exists s :: Has(plan, key, Str(s)) && s != ""
  }

  ghost predicate RootThere(plan: Json, key: string) {
    exists v, root :: Has(plan, key, v) && Has(v, "root_module", root) && root.Obj?
  }

  /** Absent, or a list of objects. */
  ghost predicate ObjectsThere(plan: Json, key: string) {
    forall v :: Has(plan, key, v) ==> v.Arr? && forall i :: 0 <= i < |v.items| ==> v.items[i].Obj?
  }

  ghost predicate Framed(plan: Json) {
    && plan.Obj?
    && TextThere(plan, "format_version") && TextThere(plan, "terraform_version")
    && RootThere(plan, "planned_values") && RootThere(plan, "configuration")
    && (exists items :: Has(plan, "resource_changes", Arr(items)))
    && (exists fields :: Has(plan, "output_changes", Obj(fields)))
    && (forall v :: Has(plan, "resource_drift", v) ==> v.Arr?)
    && ObjectsThere(plan, "checks") && ObjectsThere(plan, "deferred_changes") && ObjectsThere(plan, "relevant_attributes")
  }

  lemma TextIs(plan: Json, key: string)
    ensures NonEmptyText(Get(plan, key)) <==> TextThere(plan, key)
  {
    GetIs(plan, key);
    if NonEmptyText(Get(plan, key)) {
      assert Has(plan, key, Str(Get(plan, key).value.s));
    }
  }

  lemma RootIs(plan: Json, key: string)
    ensures HasRootModule(Get(plan, key)) <==> RootThere(plan, key)
  {
    GetIs(plan, key);
    if Get(plan, key).Some? {
      var v := Get(plan, key).value;
      GetIs(v, "root_module");
      if HasRootModule(Get(plan, key)) {
        assert Has(plan, key, v) && Has(v, "root_module", Get(v, "root_module").value);
      }
      forall x | Has(plan, key, x) ensures x == v {
      }
    }
  }

  lemma ObjectsAre(plan: Json, key: string)
    ensures OptionalCollection(Get(plan, key)) <==> ObjectsThere(plan, key)
  {
    GetIs(plan, key);
    if Get(plan, key).Some? {
      assert Has(plan, key, Get(plan, key).value);
    }
  }

  lemma ArrayIs(plan: Json, key: string)
    ensures IsArr(Get(plan, key)) <==> exists items :: Has(plan, key, Arr(items))
    ensures IsObj(Get(plan, key)) <==> exists fields :: Has(plan, key, Obj(fields))
    ensures Get(plan, key).None? || Get(plan, key).value.Arr? <==> forall v :: Has(plan, key, v) ==> v.Arr?
  {
    GetIs(plan, key);
    if Get(plan, key).Some? {
      var v := Get(plan, key).value;
      assert Has(plan, key, v);
      if v.Arr? {
        assert v == Arr(v.items);
      }
      if v.Obj? {
        assert v == Obj(v.fields);
      }
    }
  }

  lemma FrameIs(plan: Json)
    ensures StructureOk(plan) <==> Framed(plan)
  {
    TextIs(plan, "format_version");
    TextIs(plan, "terraform_version");
    RootIs(plan, "planned_values");
    RootIs(plan, "configuration");
    ArrayIs(plan, "resource_changes");
    ArrayIs(plan, "output_changes");
    ArrayIs(plan, "resource_drift");
    ObjectsAre(plan, "checks");
    ObjectsAre(plan, "deferred_changes");
    ObjectsAre(plan, "relevant_attributes");
  }

  // ----- Everything but the resource changes -----

  ghost predicate HarmlessBeside(plan: Json, rejectDeletes: bool)
    requires plan.Obj?
  {
    && (forall items :: Has(plan, "resource_drift", Arr(items)) ==> HarmlessEntries(items, rejectDeletes))
    && (forall fields :: Has(plan, "output_changes", Obj(fields)) ==> HarmlessOutputs(fields, rejectDeletes))
    && (forall v :: Has(plan, "deferred_changes", v) ==> HarmlessTree(v, rejectDeletes))
    && HarmlessFuture(plan.fields, rejectDeletes)
  }

  lemma BesideIs(plan: Json, rejectDeletes: bool)
    requires StructureOk(plan)
    ensures AllHarmless(OtherLists(plan), rejectDeletes) <==> HarmlessBeside(plan, rejectDeletes)
  {
    var drift, outputs := ChangeLists(Drift(plan).items), OutputLists(Get(plan, "output_changes").value.fields);
    BothHarmless(drift, outputs, rejectDeletes);
    BothHarmless(drift + outputs, DeferredLists(plan), rejectDeletes);
    BothHarmless(drift + outputs + DeferredLists(plan), FutureLists(plan.fields), rejectDeletes);
    DriftIs(plan, rejectDeletes);
    OutputSectionIs(plan, rejectDeletes);
    DeferredIs(plan, rejectDeletes);
    FutureIs(plan.fields, rejectDeletes);
  }

  lemma DriftIs(plan: Json, rejectDeletes: bool)
    requires StructureOk(plan)
    ensures AllHarmless(ChangeLists(Drift(plan).items), rejectDeletes) <==>
      forall items :: Has(plan, "resource_drift", Arr(items)) ==> HarmlessEntries(items, rejectDeletes)
  {
    GetIs(plan, "resource_drift");
    ChangesAre(Drift(plan).items, rejectDeletes);
    if Get(plan, "resource_drift").Some? {
      assert Drift(plan) == Arr(Drift(plan).items);
      assert Has(plan, "resource_drift", Arr(Drift(plan).items));
    }
  }

  lemma OutputSectionIs(plan: Json, rejectDeletes: bool)
    requires StructureOk(plan)
    ensures AllHarmless(OutputLists(Get(plan, "output_changes").value.fields), rejectDeletes) <==>
      forall fields :: Has(plan, "output_changes", Obj(fields)) ==> HarmlessOutputs(fields, rejectDeletes)
  {
    GetIs(plan, "output_changes");
    var v := Get(plan, "output_changes").value;
    OutputsAre(v.fields, rejectDeletes);
    assert v == Obj(v.fields);
    assert Has(plan, "output_changes", Obj(v.fields));
  }

  lemma DeferredIs(plan: Json, rejectDeletes: bool)
    ensures AllHarmless(DeferredLists(plan), rejectDeletes) <==>
      forall v :: Has(plan, "deferred_changes", v) ==> HarmlessTree(v, rejectDeletes)
  {
    GetIs(plan, "deferred_changes");
    if Get(plan, "deferred_changes").Some? {
      var v := Get(plan, "deferred_changes").value;
      TreeIs(v, rejectDeletes);
      assert Has(plan, "deferred_changes", v);
    }
  }

  // ----- Default mode -----

  /** Main result: without an exception the guard lets a plan through if and only if its frame is complete and no action
      list that the plan can hold, listed or at the end of any path, is malformed or deletes. */
  lemma DefaultModeIs(plan: Json)
    ensures StructureOk(plan) && Clean(ResourceLists(plan) + OtherLists(plan), true) <==>
      && Framed(plan)
      && (forall items :: Has(plan, "resource_changes", Arr(items)) ==> HarmlessEntries(items, true))
      && HarmlessBeside(plan, true)
  {
    FrameIs(plan);
    if StructureOk(plan) {
      CleanIs(ResourceLists(plan) + OtherLists(plan), true);
      BothHarmless(ResourceLists(plan), OtherLists(plan), true);
      ResourcesAre(plan, true);
      BesideIs(plan, true);
    }
  }

  lemma ResourcesAre(plan: Json, rejectDeletes: bool)
    requires StructureOk(plan)
    ensures AllHarmless(ResourceLists(plan), rejectDeletes) <==>
      forall items :: Has(plan, "resource_changes", Arr(items)) ==> HarmlessEntries(items, rejectDeletes)
  {
    GetIs(plan, "resource_changes");
    var v := Get(plan, "resource_changes").value;
    ChangesAre(v.items, rejectDeletes);
    assert v == Arr(v.items);
    assert Has(plan, "resource_changes", Arr(v.items));
  }

  // ----- The retirement exception -----

  ghost predicate Deleting(item: Json) {
    exists actions :: Entry(item, actions) && DeletesSomething(actions)
  }

  /** The entry deletes and does nothing else, at this address, and is neither a move nor a deposed object. */
  ghost predicate RetiresExactly(item: Json, address: string) {
    && Entry(item, Arr([Str("delete")])) && Has(item, "address", Str(address))
    && forall x :: !Has(item, "previous_address", x) && !Has(item, "deposed", x)
  }

  ghost predicate ShareAddress(a: Json, b: Json) {
    exists address :: Has(a, "address", address) && Has(b, "address", address)
  }

  /** Each deleting entry retires one of the allowed addresses, no two the same one, and all of them are retired or none. */
  ghost predicate RetirementOnly(items: seq<Json>, allowed: set<string>) {
    && (forall i :: 0 <= i < |items| && Deleting(items[i]) ==>
         exists address :: address in allowed && RetiresExactly(items[i], address))
    && (forall i, j :: 0 <= i < j < |items| && Deleting(items[i]) && Deleting(items[j]) ==>
         !ShareAddress(items[i], items[j]))
    && ((forall i :: 0 <= i < |items| ==> !Deleting(items[i]))
        || forall address :: address in allowed ==> exists i :: 0 <= i < |items| && RetiresExactly(items[i], address))
  }

  lemma DeletingIs(item: Json)
    ensures Retires(item) <==> Deleting(item)
  {
    EntryIs(item);
    ActionsAre(ActionsOf(item));
    if Deleting(item) {
      var actions :| Entry(item, actions) && DeletesSomething(actions);
      ActionsAre(actions);
    }
  }

  lemma RetirementIs(item: Json, allowed: set<string>)
    ensures PureRetirement(item, allowed) <==> exists address :: address in allowed && RetiresExactly(item, address)
    ensures forall address :: Has(item, "address", address) && address != Null <==>
      AddressOf(item) == address && address != Null
    ensures forall address :: RetiresExactly(item, address) ==> Deleting(item) && AddressOf(item) == Str(address)
  {
    EntryIs(item);
    GetIs(item, "address");
    GetIs(item, "previous_address");
    GetIs(item, "deposed");
    var only := Arr([Str("delete")]);
    assert DeletesSomething(only) by { assert only.items[0] == Str("delete"); }
    if Get(item, "address").Some? {
      assert Has(item, "address", Get(item, "address").value);
    }
    if Get(item, "previous_address").Some? {
      assert Has(item, "previous_address", Get(item, "previous_address").value);
    }
    if Get(item, "deposed").Some? {
      assert Has(item, "deposed", Get(item, "deposed").value);
    }
    if PureRetirement(item, allowed) {
      assert RetiresExactly(item, AddressOf(item).s);
    }
  }

  lemma RetirementsAre(items: seq<Json>, allowed: set<string>)
    ensures RetirementsOk(items, allowed) <==> RetirementOnly(items, allowed)
  {
    forall i | 0 <= i < |items|
      ensures Retires(items[i]) <==> Deleting(items[i])
      ensures PureRetirement(items[i], allowed) <==>
        exists address :: address in allowed && RetiresExactly(items[i], address)
    {
      DeletingIs(items[i]);
      RetirementIs(items[i], allowed);
    }
    AddressesDiffer(items, allowed);
    AllAreRetired(items, allowed);
  }

  ghost predicate PureOnes(items: seq<Json>, allowed: set<string>) {
    forall i :: 0 <= i < |items| && Retires(items[i]) ==> PureRetirement(items[i], allowed)
  }

  lemma ShareIs(a: Json, b: Json, allowed: set<string>)
    requires PureRetirement(a, allowed) && PureRetirement(b, allowed)
    ensures ShareAddress(a, b) <==> AddressOf(a) == AddressOf(b)
  {
    GetIs(a, "address");
    GetIs(b, "address");
    assert Has(a, "address", AddressOf(a)) && Has(b, "address", AddressOf(b));
  }

  lemma AddressesDiffer(items: seq<Json>, allowed: set<string>)
    ensures PureOnes(items, allowed) ==> forall i, j :: 0 <= i < j < |items| && Retires(items[i]) && Retires(items[j]) ==>
      (AddressOf(items[i]) != AddressOf(items[j]) <==> !ShareAddress(items[i], items[j]))
  {
    if PureOnes(items, allowed) {
      forall i, j | 0 <= i < j < |items| && Retires(items[i]) && Retires(items[j])
        ensures AddressOf(items[i]) != AddressOf(items[j]) <==> !ShareAddress(items[i], items[j])
      {
        ShareIs(items[i], items[j], allowed);
      }
    }
  }

  lemma AllAreRetired(items: seq<Json>, allowed: set<string>)
    ensures PureOnes(items, allowed) ==> forall address :: address in allowed ==>
      (RetiresAddress(items, address) <==> exists i :: 0 <= i < |items| && RetiresExactly(items[i], address))
  {
    if PureOnes(items, allowed) {
      forall address | address in allowed
        ensures RetiresAddress(items, address) <==> exists i :: 0 <= i < |items| && RetiresExactly(items[i], address)
      {
        if RetiresAddress(items, address) {
          var i :| 0 <= i < |items| && Retires(items[i]) && AddressOf(items[i]) == Str(address);
          RetirementIs(items[i], allowed);
          assert RetiresExactly(items[i], address);
        }
        if i :| 0 <= i < |items| && RetiresExactly(items[i], address) {
          RetirementIs(items[i], allowed);
          DeletingIs(items[i]);
        }
      }
    }
  }

  /** Main result: with an exception the guard lets a plan through if and only if its frame is complete, its action lists
      are lists of texts, nothing outside the resource changes deletes, and the resource changes delete nothing or exactly
      the allowed addresses, once each and purely. */
  lemma RetirementModeIs(plan: Json, allowed: set<string>)
    ensures StructureOk(plan) && Clean(ResourceLists(plan), false) && Clean(OtherLists(plan), true)
            && RetirementsOk(Get(plan, "resource_changes").value.items, allowed) <==>
      && Framed(plan)
      && (forall items :: Has(plan, "resource_changes", Arr(items)) ==>
           HarmlessEntries(items, false) && RetirementOnly(items, allowed))
      && HarmlessBeside(plan, true)
  {
    FrameIs(plan);
    if StructureOk(plan) {
      CleanIs(ResourceLists(plan), false);
      CleanIs(OtherLists(plan), true);
      ResourcesAre(plan, false);
      BesideIs(plan, true);
      GetIs(plan, "resource_changes");
      var v := Get(plan, "resource_changes").value;
      assert v == Arr(v.items) && Has(plan, "resource_changes", Arr(v.items));
      RetirementsAre(v.items, allowed);
    }
  }

  // ----- Counters -----

  ghost function DeletePositions(items: seq<Json>): set<int> {
    set i | 0 <= i < |items| && items[i] == Str("delete")
  }

  lemma {:induction false} DeletesInAppend(items: seq<Json>, last: Json)
    ensures DeletesIn(items + [last]) == DeletesIn(items) + (if last == Str("delete") then 1 else 0)
  {
    if items == [] {
      assert items + [last] == [last];
    } else {
      DeletesInAppend(items[1..], last);
      assert (items + [last])[1..] == items[1..] + [last];
    }
  }

  /** A list counts once for each of its deletes. */
  lemma {:induction false} DeletesAreCounted(items: seq<Json>)
    ensures DeletesIn(items) == |DeletePositions(items)|
  {
    if items == [] {
      assert DeletePositions(items) == {};
    } else {
      var init, last := items[..|items| - 1], items[|items| - 1];
      assert items == init + [last];
      DeletesAreCounted(init);
      DeletesInAppend(init, last);
      assert DeletePositions(items) == DeletePositions(init) + if last == Str("delete") then {|init|} else {};
    }
  }

  /** The counters of an accepted plan: the lists and the deletes, each cut off at a million. */
  lemma CountersAre(lists: seq<Json>, v: Json, t: Tally)
    ensures Counted(Tally(0, 0), []) == Tally(0, 0)
    ensures TotalDeletes(lists + [v]) == TotalDeletes(lists) + (if v.Arr? then |DeletePositions(v.items)| else 0)
    ensures t == Counted(Tally(0, 0), lists) ==>
      && t.actionLists == (if |lists| <= 1_000_000 then |lists| else 1_000_000)
      && t.deleteActions == (if TotalDeletes(lists) <= 1_000_000 then TotalDeletes(lists) else 1_000_000)
  {
    TotalDeletesSplits(lists, [v]);
    if v.Arr? {
      DeletesAreCounted(v.items);
    }
  }

  // ----- The command line -----

  /** The two addresses that the command line can allow. */
  lemma CommandLinesAre(argv: seq<string>)
    ensures RetirementCommand(argv) <==>
      && |argv| == 6 && argv[1] == "--allow-delete-address" && argv[3] == "--allow-delete-address"
      && {argv[2], argv[4]} == {"aws_secretsmanager_secret.runtime[\"findb/registry/ghcr-pull\"]",
                                "aws_secretsmanager_secret.runtime[\"fetcher/registry/ghcr-pull\"]"}
  {
  }
}
