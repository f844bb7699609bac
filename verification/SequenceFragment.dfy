/** `apply_sequence_fragment` of `chain.rs`: prepend, append and delete entries of the
    `proxies` or `proxy-groups` list, and keep the groups' references to proxies whole. */
module SequenceFragment {
  import opened Wrappers
  import opened Text
  import opened Yaml

  datatype Fragment =
    | Patch(prepend: seq<Value>, append: seq<Value>, delete: seq<string>)
    | Replace(items: seq<Value>)

  const PROXIES := "proxies"
  const GROUPS := "proxy-groups"

  /** The name of a list entry: the string itself or the `name` of a mapping. */
  function EntryName(value: Value): Option<string> {
    match value
    case Str(s) => Some(s)
    case Map(entries) => GetStr(entries, "name")
    case _ => None
  }

  predicate Deleted(value: Value, delete: seq<string>) {
    EntryName(value).Some? && EntryName(value).value in delete
  }

  /** The old entries that no deleted name applies to, in their order. */
  function Surviving(items: seq<Value>, delete: seq<string>): seq<Value> {
    if items == [] then []
    else (if Deleted(items[0], delete) then [] else [items[0]]) + Surviving(items[1..], delete)
  }

  /** `proxies.retain(..)`: only plain strings are references. */
  function Retained(members: seq<Value>, delete: seq<string>): seq<Value> {
    if members == [] then []
    else (if members[0].Str? && members[0].s in delete then [] else [members[0]]) + Retained(members[1..], delete)
  }

  /** The names of the added entries, each once, in the order they are added. */
  function AddedNames(items: seq<Value>): seq<string> {
    if items == [] then []
    else
      var before := AddedNames(items[..|items| - 1]);
      match EntryName(items[|items| - 1])
      case Some(name) => if name in before then before else before + [name]
      case None => before
  }

  /** Drops every string that already occurred; other values stay. */
  function Deduplicated(members: seq<Value>): seq<Value> {
    if members == [] then []
    else
      var before := Deduplicated(members[..|members| - 1]);
      var last := members[|members| - 1];
      if last.Str? && last in before then before else before + [last]
  }

  function Names(names: seq<string>): seq<Value> {
    seq(|names|, i requires 0 <= i < |names| => Str(names[i]))
  }

  predicate IsSelector(group: Mapping) {
    var kind := GetStr(group, "type");
    kind.Some? && (EqIgnoreCase(kind.value, "select") || EqIgnoreCase(kind.value, "selector"))
  }

  function StripGroup(group: Mapping, delete: seq<string>): Mapping {
    match Get(group, PROXIES)
    case Some(Sequence(members)) => group[Str(PROXIES) := Sequence(Retained(members, delete))]
    case _ => group
  }

  function AddToGroup(group: Mapping, added: seq<string>): Mapping {
    group[Str(PROXIES) := Sequence(Deduplicated(Names(added) + GetSeqOrEmpty(group, PROXIES)))]
  }

  /** One group entry; `first` says whether no selector has been extended yet. */
  function PatchGroup(group: Value, added: seq<string>, delete: seq<string>, first: bool): Value {
    if !group.Map? then group
    else
      var stripped := StripGroup(group.entries, delete);
      if first && added != [] && IsSelector(stripped) then Map(AddToGroup(stripped, added)) else Map(stripped)
  }

  predicate Extends(group: Value, added: seq<string>) {
    added != [] && group.Map? && IsSelector(group.entries)
  }

  /** No selector before index `n` takes the added names. */
  predicate NoneBefore(groups: seq<Value>, added: seq<string>, n: nat)
    requires n <= |groups|
  {
    forall i | 0 <= i < n :: !Extends(groups[i], added)
  }

  /** All groups; only the first selector is extended. */
  function PatchGroups(groups: seq<Value>, added: seq<string>, delete: seq<string>): seq<Value> {
    if groups == [] then []
    else
      var n := |groups| - 1;
      PatchGroups(groups[..n], added, delete)
      + [PatchGroup(groups[n], added, delete, NoneBefore(groups, added, n))]
  }

  /** The configuration `apply_sequence_fragment` leaves. */
  function Applied(config: Mapping, fragment: Fragment, field: string): Mapping {
    match fragment
    case Replace(items) => config[Str(field) := Sequence(items)]
    case Patch(prepend, append, delete) =>
      var listed := config[Str(field) := Sequence(prepend + Surviving(GetSeqOrEmpty(config, field), delete) + append)];
      if field != PROXIES || !(Get(listed, GROUPS).Some? && Get(listed, GROUPS).value.Sequence?) then listed
      else listed[Str(GROUPS) := Sequence(PatchGroups(Get(listed, GROUPS).value.items, AddedNames(prepend + append), delete))]
  }

  lemma StripKeepsKind(group: Mapping, delete: seq<string>)
    ensures IsSelector(StripGroup(group, delete)) == IsSelector(group)
    ensures GetStr(StripGroup(group, delete), "name") == GetStr(group, "name")
  {
    assert |PROXIES| == 7 && |"type"| == |"name"| == 4;
  }

  /** The loop over the groups: strip the deleted names, extend the first selector. */
  method PatchInOrder(groups: seq<Value>, added: seq<string>, delete: seq<string>) returns (patched: seq<Value>)
    ensures patched == PatchGroups(groups, added, delete)
  {
    patched := [];
    var firstSelector := true;
    for i := 0 to |groups|
      invariant patched == PatchGroups(groups[..i], added, delete)
      invariant firstSelector == NoneBefore(groups, added, i)
    {
      assert groups[..i + 1][..i] == groups[..i];
      assert NoneBefore(groups[..i + 1], added, i) == NoneBefore(groups, added, i);
      var group := groups[i];
      if group.Map? {
        StripKeepsKind(group.entries, delete);
        var entries := StripGroup(group.entries, delete);
        if firstSelector && added != [] && IsSelector(entries) {
          entries := AddToGroup(entries, added);
          firstSelector := false;
        }
        group := Map(entries);
      }
      patched := patched + [group];
    }
    assert groups[..|groups|] == groups;
  }

  /** `apply_sequence_fragment`, in place on the configuration. */
  method ApplySequenceFragment(config: Config, fragment: Fragment, field: string)
    modifies config
    ensures config.entries == Applied(old(config.entries), fragment, field)
  {
    if fragment.Replace? {
      config.entries := config.entries[Str(field) := Sequence(fragment.items)];
      return;
    }
    var Patch(prepend, append, delete) := fragment;
    var previous := GetSeqOrEmpty(config.entries, field);
    config.entries := config.entries[Str(field) := Sequence(prepend + Surviving(previous, delete) + append)];
    if field != PROXIES {
      return;
    }
    var listed := Get(config.entries, GROUPS);
    if listed.None? || !listed.value.Sequence? {
      return;
    }
    var groups := PatchInOrder(listed.value.items, AddedNames(prepend + append), delete);
    config.entries := config.entries[Str(GROUPS) := Sequence(groups)];
  }

  // ---------- references stay whole ----------

  function NamesIn(items: seq<Value>): set<string> {
    set v | v in items && EntryName(v).Some? :: EntryName(v).value
  }

  function GroupNames(groups: seq<Value>): set<string> {
    set g | g in groups && g.Map? && GetStr(g.entries, "name").Some? :: GetStr(g.entries, "name").value
  }

  /** Every string member of every group names a proxy, a group or a built-in outbound. */
  ghost predicate WholeReferences(config: Mapping, builtins: set<string>) {
    var groups := GetSeqOrEmpty(config, GROUPS);
    forall g, m | g in groups && g.Map? && m in GetSeqOrEmpty(g.entries, PROXIES) && m.Str? ::
      m.s in NamesIn(GetSeqOrEmpty(config, PROXIES)) + GroupNames(groups) + builtins
  }

  lemma {:induction false} SurvivingExactly(items: seq<Value>, delete: seq<string>)
    ensures forall v :: v in Surviving(items, delete) <==> v in items && !Deleted(v, delete)
  {
    if items != [] {
      SurvivingExactly(items[1..], delete);
    }
  }

  /** An entry is deleted exactly if it is a string, or a mapping named by a string, in the list. */
  lemma DeletedExactly(value: Value, delete: seq<string>)
    ensures Deleted(value, delete)
      <==> exists name :: name in delete
             && (value == Str(name) || (value.Map? && Lookup(value.entries, Str("name")) == Some(Str(name))))
  {
    if EntryName(value).Some? {
      var name := EntryName(value).value;
      assert value == Str(name) || (value.Map? && Lookup(value.entries, Str("name")) == Some(Str(name)));
    }
  }

  function Shifted(places: seq<nat>): (r: seq<nat>)
    ensures |r| == |places| && forall k | 0 <= k < |places| :: r[k] == places[k] + 1
  {
    seq(|places|, k requires 0 <= k < |places| => places[k] + 1)
  }

  lemma ShiftedMember(places: seq<nat>, i: nat)
    ensures i in Shifted(places) <==> i > 0 && i - 1 in places
  {
    if i > 0 && i - 1 in places {
      var k :| 0 <= k < |places| && places[k] == i - 1;
      assert Shifted(places)[k] == i;
    }
  }

  /** Where the surviving entries stood. */
  function PlacesOf(items: seq<Value>, delete: seq<string>): seq<nat> {
    if items == [] then []
    else (if Deleted(items[0], delete) then [] else [0]) + Shifted(PlacesOf(items[1..], delete))
  }

  lemma {:induction false} PlacesMatch(items: seq<Value>, delete: seq<string>)
    ensures |PlacesOf(items, delete)| == |Surviving(items, delete)|
  {
    if items != [] {
      PlacesMatch(items[1..], delete);
    }
  }

  lemma {:induction false} PlaceHoldsSurvivor(items: seq<Value>, delete: seq<string>, k: nat)
    requires k < |PlacesOf(items, delete)| == |Surviving(items, delete)|
    ensures PlacesOf(items, delete)[k] < |items| && Surviving(items, delete)[k] == items[PlacesOf(items, delete)[k]]
  {
    var d := if Deleted(items[0], delete) then 0 else 1;
    if k >= d {
      PlacesMatch(items[1..], delete);
      PlaceHoldsSurvivor(items[1..], delete, k - d);
      assert PlacesOf(items, delete)[k] == PlacesOf(items[1..], delete)[k - d] + 1;
      assert Surviving(items, delete)[k] == Surviving(items[1..], delete)[k - d];
    }
  }

  lemma {:induction false} PlacesAscend(items: seq<Value>, delete: seq<string>)
    ensures forall a, b | 0 <= a < b < |PlacesOf(items, delete)| :: PlacesOf(items, delete)[a] < PlacesOf(items, delete)[b]
  {
    if items != [] {
      PlacesAscend(items[1..], delete);
    }
  }

  lemma {:induction false} PlacesExactly(items: seq<Value>, delete: seq<string>, i: nat)
    requires i < |items|
    ensures !Deleted(items[i], delete) <==> i in PlacesOf(items, delete)
  {
    var rest := PlacesOf(items[1..], delete);
    ShiftedMember(rest, i);
    assert i in PlacesOf(items, delete) <==> i in Shifted(rest) || (i == 0 && !Deleted(items[0], delete));
    if i > 0 {
      PlacesExactly(items[1..], delete, i - 1);
    }
  }

  /** The surviving entries are the undeleted ones at increasing old positions, none left out. */
  lemma SurvivingInOrder(items: seq<Value>, delete: seq<string>) returns (places: seq<nat>)
    ensures |places| == |Surviving(items, delete)|
    ensures forall k | 0 <= k < |places| :: places[k] < |items| && Surviving(items, delete)[k] == items[places[k]]
    ensures forall a, b | 0 <= a < b < |places| :: places[a] < places[b]
    ensures forall i: nat | i < |items| :: !Deleted(items[i], delete) <==> i in places
  {
    places := PlacesOf(items, delete);
    PlacesMatch(items, delete);
    forall k | 0 <= k < |places|
      ensures places[k] < |items|
      ensures Surviving(items, delete)[k] == items[places[k]]
    {
      PlaceHoldsSurvivor(items, delete, k);
    }
    PlacesAscend(items, delete);
    forall i: nat | i < |items|
      ensures !Deleted(items[i], delete) <==> i in places
    {
      PlacesExactly(items, delete, i);
    }
  }

  lemma FieldHoldsList(config: Mapping, patch: Fragment, field: string)
    requires patch.Patch?
    ensures GetSeqOrEmpty(Applied(config, patch, field), field)
      == patch.prepend + Surviving(GetSeqOrEmpty(config, field), patch.delete) + patch.append
    ensures forall key: Value | key != Str(field) && (field != PROXIES || key != Str(GROUPS)) ::
      (key in Applied(config, patch, field) <==> key in config)
      && (key in config ==> Applied(config, patch, field)[key] == config[key])
  {
    assert |PROXIES| == 7 && |GROUPS| == 12;
  }

  /** A replacement sets the list and touches no other key. */
  lemma ReplaceSetsList(config: Mapping, items: seq<Value>, field: string, key: Value)
    ensures Lookup(Applied(config, Replace(items), field), key)
         == if key == Str(field) then Some(Sequence(items)) else Lookup(config, key)
  {
  }

  /** A patch leaves prepend, then the undeleted old entries in their order, then append. */
  lemma PatchedList(config: Mapping, patch: Fragment, field: string) returns (places: seq<nat>)
    requires patch.Patch?
    ensures var previous, listed := GetSeqOrEmpty(config, field), GetSeqOrEmpty(Applied(config, patch, field), field);
      && |listed| == |patch.prepend| + |places| + |patch.append|
      && listed[..|patch.prepend|] == patch.prepend
      && listed[|patch.prepend| + |places|..] == patch.append
      && (forall k | 0 <= k < |places| :: places[k] < |previous| && listed[|patch.prepend| + k] == previous[places[k]])
      && (forall a, b | 0 <= a < b < |places| :: places[a] < places[b])
      && (forall i: nat | i < |previous| :: !Deleted(previous[i], patch.delete) <==> i in places)
  {
    FieldHoldsList(config, patch, field);
    places := SurvivingInOrder(GetSeqOrEmpty(config, field), patch.delete);
  }

  lemma {:induction false} RetainedExactly(members: seq<Value>, delete: seq<string>)
    ensures forall v :: v in Retained(members, delete) <==> v in members && !(v.Str? && v.s in delete)
  {
    if members != [] {
      RetainedExactly(members[1..], delete);
    }
  }

  lemma RetainedStep(members: seq<Value>, delete: seq<string>)
    requires members != []
    ensures Retained(members, delete) == Retained(members[..1], delete) + Retained(members[1..], delete)
  {
    assert members[..1][1..] == [] && members[..1][0] == members[0];
    assert Retained([], delete) == [];
  }

  lemma Reassociate(a: seq<Value>, b: seq<Value>, c: seq<Value>)
    ensures a + (b + c) == a + b + c
  {
  }

  /** Names are added in the order of the entries. */
  lemma {:induction false} AddedGrows(front: seq<Value>, rest: seq<Value>)
    ensures AddedNames(front) <= AddedNames(front + rest)
  {
    if rest == [] {
      assert front + rest == front;
    } else {
      AddedGrows(front, rest[..|rest| - 1]);
      assert (front + rest)[..|front + rest| - 1] == front + rest[..|rest| - 1];
    }
  }

  /** The members of two lists one after the other are kept one list after the other. */
  lemma {:induction false} RetainedInOrder(front: seq<Value>, rest: seq<Value>, delete: seq<string>)
    ensures Retained(front + rest, delete) == Retained(front, delete) + Retained(rest, delete)
  {
    if front == [] {
      assert front + rest == rest;
    } else {
      RetainedStep(front, delete);
      RetainedStep(front + rest, delete);
      assert (front + rest)[0] == front[0] && (front + rest)[1..] == front[1..] + rest;
      RetainedInOrder(front[1..], rest, delete);
      Reassociate(Retained(front[..1], delete), Retained(front[1..], delete), Retained(rest, delete));
      assert (front + rest)[..1] == front[..1];
    }
  }

  lemma {:induction false} AddedExactly(items: seq<Value>)
    ensures forall name :: name in AddedNames(items) <==> name in NamesIn(items)
    ensures forall i, j | 0 <= i < j < |AddedNames(items)| :: AddedNames(items)[i] != AddedNames(items)[j]
  {
    if items != [] {
      AddedExactly(items[..|items| - 1]);
      assert items == items[..|items| - 1] + [items[|items| - 1]];
    }
  }

  lemma {:induction false} DeduplicatedExactly(members: seq<Value>)
    ensures forall v :: v in Deduplicated(members) <==> v in members
    ensures forall i, j | 0 <= i < j < |Deduplicated(members)| && Deduplicated(members)[i].Str? ::
      Deduplicated(members)[i] != Deduplicated(members)[j]
  {
    if members != [] {
      DeduplicatedExactly(members[..|members| - 1]);
      assert members == members[..|members| - 1] + [members[|members| - 1]];
    }
  }

  predicate DistinctStrings(members: seq<Value>) {
    && (forall i | 0 <= i < |members| :: members[i].Str?)
    && (forall i, j | 0 <= i < j < |members| :: members[i] != members[j])
  }

  lemma {:induction false} DistinctStay(members: seq<Value>)
    requires DistinctStrings(members)
    ensures Deduplicated(members) == members
  {
    if members != [] {
      DistinctStay(members[..|members| - 1]);
      assert members == members[..|members| - 1] + [members[|members| - 1]];
    }
  }

  /** What comes later moves nothing that is kept. */
  lemma {:induction false} DeduplicatedGrows(front: seq<Value>, rest: seq<Value>)
    ensures Deduplicated(front) <= Deduplicated(front + rest)
  {
    if rest == [] {
      assert front + rest == front;
    } else {
      DeduplicatedGrows(front, rest[..|rest| - 1]);
      assert (front + rest)[..|front + rest| - 1] == front + rest[..|rest| - 1];
    }
  }

  /** Distinct strings at the front are all kept, in place. */
  lemma DeduplicatedKeepsFront(front: seq<Value>, rest: seq<Value>)
    requires DistinctStrings(front)
    ensures front <= Deduplicated(front + rest)
  {
    DistinctStay(front);
    DeduplicatedGrows(front, rest);
  }

  /** Only strings are dropped as repetitions. */
  lemma {:induction false} OthersAreKept(members: seq<Value>, v: Value)
    requires !v.Str?
    ensures multiset(Deduplicated(members))[v] == multiset(members)[v]
  {
    if members != [] {
      OthersAreKept(members[..|members| - 1], v);
      assert members == members[..|members| - 1] + [members[|members| - 1]];
    }
  }

  lemma {:induction false} PatchGroupAt(groups: seq<Value>, added: seq<string>, delete: seq<string>, i: nat)
    requires i < |groups|
    ensures |PatchGroups(groups, added, delete)| == |groups|
    ensures PatchGroups(groups, added, delete)[i] == PatchGroup(groups[i], added, delete, NoneBefore(groups, added, i))
    decreases |groups|
  {
    var n := |groups| - 1;
    var front := groups[..n];
    if i < n {
      PatchGroupAt(front, added, delete, i);
      assert front[i] == groups[i];
      assert NoneBefore(front, added, i) == NoneBefore(groups, added, i) by {
        assert forall k | 0 <= k < i :: front[k] == groups[k];
      }
    } else if n > 0 {
      PatchGroupAt(front, added, delete, n - 1);
    }
  }

  lemma PatchGroupsAt(groups: seq<Value>, added: seq<string>, delete: seq<string>)
    ensures |PatchGroups(groups, added, delete)| == |groups|
    ensures forall i | 0 <= i < |groups| ::
      PatchGroups(groups, added, delete)[i]
      == PatchGroup(groups[i], added, delete, NoneBefore(groups, added, i))
  {
    forall i | 0 <= i < |groups|
      ensures |PatchGroups(groups, added, delete)| == |groups|
      ensures PatchGroups(groups, added, delete)[i] == PatchGroup(groups[i], added, delete, NoneBefore(groups, added, i))
    {
      PatchGroupAt(groups, added, delete, i);
    }
    if groups != [] {
      PatchGroupAt(groups, added, delete, 0);
    }
  }

  /** What a patched group may list: what it listed before minus the deleted names, and the added names. */
  lemma MembersAfter(group: Value, added: seq<string>, delete: seq<string>, first: bool)
    requires group.Map?
    ensures var after := PatchGroup(group, added, delete, first);
      && after.Map?
      && GetStr(after.entries, "name") == GetStr(group.entries, "name")
      && forall m | m in GetSeqOrEmpty(after.entries, PROXIES) && m.Str? ::
           m.s in added || (m in GetSeqOrEmpty(group.entries, PROXIES) && m.s !in delete)
  {
    StripKeepsKind(group.entries, delete);
    var stripped := StripGroup(group.entries, delete);
    RetainedExactly(GetSeqOrEmpty(group.entries, PROXIES), delete);
    DeduplicatedExactly(Names(added) + GetSeqOrEmpty(stripped, PROXIES));
    assert |PROXIES| == 7 && |"name"| == 4;
    assert forall m | m in Names(added) :: m.Str? && m.s in added;
  }

  lemma GroupNamesKept(groups: seq<Value>, added: seq<string>, delete: seq<string>)
    ensures GroupNames(groups) <= GroupNames(PatchGroups(groups, added, delete))
  {
    PatchGroupsAt(groups, added, delete);
    var after := PatchGroups(groups, added, delete);
    forall name | name in GroupNames(groups)
      ensures name in GroupNames(after)
    {
      var i :| 0 <= i < |groups| && groups[i].Map? && GetStr(groups[i].entries, "name") == Some(name);
      MembersAfter(groups[i], added, delete, NoneBefore(groups, added, i));
      assert after[i] in after;
    }
  }

  /** A member that is still listed still names something. */
  lemma ReferenceSurvives(before: seq<Value>, patch: Fragment, groups: seq<Value>, builtins: set<string>, m: string)
    requires patch.Patch?
    requires m in AddedNames(patch.prepend + patch.append)
      || (m in NamesIn(before) + GroupNames(groups) + builtins && m !in patch.delete)
    ensures var added := AddedNames(patch.prepend + patch.append);
      m in NamesIn(patch.prepend + Surviving(before, patch.delete) + patch.append)
           + GroupNames(PatchGroups(groups, added, patch.delete)) + builtins
  {
    var after := patch.prepend + Surviving(before, patch.delete) + patch.append;
    AddedExactly(patch.prepend + patch.append);
    SurvivingExactly(before, patch.delete);
    GroupNamesKept(groups, AddedNames(patch.prepend + patch.append), patch.delete);
    if m in AddedNames(patch.prepend + patch.append) {
      var v :| v in patch.prepend + patch.append && EntryName(v) == Some(m);
      assert v in after;
    } else if m in NamesIn(before) {
      var v :| v in before && EntryName(v) == Some(m);
      assert v in after;
    }
  }

  /** A patch of the proxies keeps every group reference whole. */
  lemma PatchKeepsReferences(config: Mapping, patch: Fragment, builtins: set<string>)
    requires patch.Patch? && WholeReferences(config, builtins)
    ensures WholeReferences(Applied(config, patch, PROXIES), builtins)
  {
    var after := Applied(config, patch, PROXIES);
    var added := AddedNames(patch.prepend + patch.append);
    var groups := GetSeqOrEmpty(config, GROUPS);
    assert |PROXIES| == 7 && |GROUPS| == 12;
    var newGroups := GetSeqOrEmpty(after, GROUPS);
    PatchGroupsAt(groups, added, patch.delete);
    forall g, m | g in newGroups && g.Map? && m in GetSeqOrEmpty(g.entries, PROXIES) && m.Str?
      ensures m.s in NamesIn(GetSeqOrEmpty(after, PROXIES)) + GroupNames(newGroups) + builtins
    {
      var i :| 0 <= i < |newGroups| && newGroups[i] == g;
      assert newGroups == PatchGroups(groups, added, patch.delete);
      assert groups[i] in groups;
      MemberSurvives(config, patch, groups[i], NoneBefore(groups, added, i), builtins, m);
    }
  }

  /** A member of a patched group names something in the patched configuration. */
  lemma MemberSurvives(config: Mapping, patch: Fragment, group: Value, first: bool, builtins: set<string>, m: Value)
    requires patch.Patch? && WholeReferences(config, builtins)
    requires group in GetSeqOrEmpty(config, GROUPS) && group.Map?
    requires var after := PatchGroup(group, AddedNames(patch.prepend + patch.append), patch.delete, first);
      after.Map? && m in GetSeqOrEmpty(after.entries, PROXIES) && m.Str?
    ensures var groups, added := GetSeqOrEmpty(config, GROUPS), AddedNames(patch.prepend + patch.append);
      m.s in NamesIn(patch.prepend + Surviving(GetSeqOrEmpty(config, PROXIES), patch.delete) + patch.append)
             + GroupNames(PatchGroups(groups, added, patch.delete)) + builtins
  {
    MembersAfter(group, AddedNames(patch.prepend + patch.append), patch.delete, first);
    ReferenceSurvives(GetSeqOrEmpty(config, PROXIES), patch, GetSeqOrEmpty(config, GROUPS), builtins, m.s);
  }

  /** A group keeps its other keys; its members are the undeleted old ones, and for the first
      selector the added names. Any other entry of the list stays as it is. */
  lemma GroupExactly(groups: seq<Value>, added: seq<string>, delete: seq<string>, i: nat, key: Value, m: Value)
    requires i < |groups|
    ensures var after := PatchGroups(groups, added, delete);
      && |after| == |groups|
      && (!groups[i].Map? ==> after[i] == groups[i])
      && (groups[i].Map? ==>
            && after[i].Map?
            && (key != Str("proxies") ==> Lookup(after[i].entries, key) == Lookup(groups[i].entries, key))
            && (m in GetSeqOrEmpty(after[i].entries, "proxies") <==>
                  || (m in GetSeqOrEmpty(groups[i].entries, "proxies") && !(m.Str? && m.s in delete))
                  || (Extends(groups[i], added) && NoneBefore(groups, added, i) && m.Str? && m.s in added)))
  {
    PatchGroupsAt(groups, added, delete);
    if groups[i].Map? {
      PatchedGroup(groups[i].entries, added, delete, NoneBefore(groups, added, i), key, m);
    }
  }

  /** A selector is a group of type `select` or `selector`, in any case. */
  lemma SelectorExactly(group: Mapping)
    ensures IsSelector(group)
      <==> exists kind: string :: Lookup(group, Str("type")) == Some(Str(kind)) && Lower(kind) in ["select", "selector"]
  {
    PlainLower();
    if Str("type") in group && group[Str("type")].Str? {
      assert Lookup(group, Str("type")) == Some(Str(group[Str("type")].s));
    }
  }

  lemma PlainLower()
    ensures Lower("select") == "select" && Lower("selector") == "selector"
  {
  }

  lemma PatchedGroup(group: Mapping, added: seq<string>, delete: seq<string>, first: bool, key: Value, m: Value)
    ensures var after := PatchGroup(Map(group), added, delete, first);
      && after.Map?
      && (key != Str("proxies") ==> Lookup(after.entries, key) == Lookup(group, key))
      && (m in GetSeqOrEmpty(after.entries, "proxies") <==>
            || (m in GetSeqOrEmpty(group, "proxies") && !(m.Str? && m.s in delete))
            || (Extends(Map(group), added) && first && m.Str? && m.s in added))
  {
    StripKeepsKind(group, delete);
    var stripped := StripGroup(group, delete);
    var members := GetSeqOrEmpty(stripped, PROXIES);
    RetainedExactly(GetSeqOrEmpty(group, PROXIES), delete);
    assert m in members <==> m in GetSeqOrEmpty(group, PROXIES) && !(m.Str? && m.s in delete);
    DeduplicatedExactly(Names(added) + members);
    NamesExactly(added, m);
  }

  lemma NamesExactly(names: seq<string>, m: Value)
    ensures m in Names(names) <==> m.Str? && m.s in names
  {
    if m.Str? && m.s in names {
      var i :| 0 <= i < |names| && names[i] == m.s;
      assert Names(names)[i] == m;
    }
  }

  /** The first selector lists each added name first and no name twice; no other group gains a member. */
  lemma FirstSelectorLists(groups: seq<Value>, patch: Fragment, i: nat)
    requires patch.Patch? && i < |groups| && groups[i].Map?
    ensures var added := AddedNames(patch.prepend + patch.append);
      var after := PatchGroups(groups, added, patch.delete);
      |after| == |groups| && after[i].Map? &&
      var members := GetSeqOrEmpty(after[i].entries, PROXIES);
      if Extends(groups[i], added) && NoneBefore(groups, added, i)
      then Names(added) <= members && forall a, b | 0 <= a < b < |members| && members[a].Str? :: members[a] != members[b]
      else after[i] == Map(StripGroup(groups[i].entries, patch.delete))
  {
    var added := AddedNames(patch.prepend + patch.append);
    PatchGroupsAt(groups, added, patch.delete);
    StripKeepsKind(groups[i].entries, patch.delete);
    AddedExactly(patch.prepend + patch.append);
    var stripped := StripGroup(groups[i].entries, patch.delete);
    DeduplicatedKeepsFront(Names(added), GetSeqOrEmpty(stripped, PROXIES));
    DeduplicatedExactly(Names(added) + GetSeqOrEmpty(stripped, PROXIES));
  }
}
