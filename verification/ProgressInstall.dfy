/**
 Installing and uninstalling the progress hook on any settings tree
 (agent_progress.rs:183-225, 338-417): what is found afterwards, what is left
 alone, and when uninstalling takes back exactly what installing did.
 */
module ProgressInstall {
  import opened Common
  import opened CanonicalJson
  import opened Text
  import opened ProgressHooks
  import Shell = ShellWords

  // ------------------------------------------------------------ the command we write

  lemma NothingToTrim(s: string)
    requires s != "" && !Whitespace(s[|s| - 1])
    ensures TrimEnd(s) == s
  {
  }

  /** However `hh` is reached, a hook that quotes a path to it is recognised as running it. */
  lemma AliasRecognised(agent: Agent, hh: string, alias: string, canonical: string -> string)
    requires canonical(alias) == canonical(hh)
    ensures var spec := SpecFor(agent, hh, canonical);
            var command := Shell.ShellQuote(alias) + spec.suffix;
            RunsOurHh(spec, command) && EndsWith(TrimEnd(command), spec.suffix)
  {
    hide Shell.ShellQuote, Shell.Unquote;
    var spec := SpecFor(agent, hh, canonical);
    var quoted := Shell.ShellQuote(alias);
    var command := quoted + spec.suffix;
    NothingToTrim(command);
    assert command[..|command| - |spec.suffix|] == quoted;
    Shell.UnquoteQuote(alias);
  }

  function OurEntry(spec: HookSpec): Json {
    Obj([Field("type", Str("command")), Field("command", Str(spec.command))])
  }

  lemma OurGroupReads(spec: HookSpec)
    ensures Entries(HookGroup(spec)) == [OurEntry(spec)]
    ensures TextOf(Get(HookGroup(spec), "matcher")) == Some(spec.matcher)
    ensures CommandOf(OurEntry(spec)) == Some(spec.command)
  {
    var f := HookGroup(spec).fields;
    assert f[1..][0].key == "hooks";
    assert IndexOf(f[1..], "hooks") == 0;
    assert IndexOf(f, "hooks") == 1;
    var e := OurEntry(spec).fields;
    assert e[1..][0].key == "command";
    assert IndexOf(e[1..], "command") == 0;
    assert IndexOf(e, "command") == 1;
  }

  lemma OurGroupIsCurrent(agent: Agent, hh: string, canonical: string -> string)
    ensures var spec := SpecFor(agent, hh, canonical); GroupHasCurrent(spec, HookGroup(spec))
  {
    hide EndsWith;
    var spec := SpecFor(agent, hh, canonical);
    OurGroupReads(spec);
    AliasRecognised(agent, hh, hh, canonical);
    assert IsCurrent(spec, HookGroup(spec), Entries(HookGroup(spec))[0]);
  }

  // ------------------------------------------------------------ reading what was written

  lemma {:induction false} IndexIs(fields: seq<Field>, key: string, at: nat)
    requires at <= |fields| && (forall j :: 0 <= j < at ==> fields[j].key != key)
    requires at < |fields| ==> fields[at].key == key
    ensures IndexOf(fields, key) == at
  {
  }

  lemma PutReads(fields: seq<Field>, key: string, value: Json)
    ensures Get(Obj(Put(fields, key, value)), key) == Some(value)
    ensures forall other :: other != key ==> Get(Obj(Put(fields, key, value)), other) == Get(Obj(fields), other)
  {
    hide IndexOf;
    var after, at := Put(fields, key, value), IndexOf(fields, key);
    IndexIs(after, key, at);
    forall other | other != key
      ensures Get(Obj(after), other) == Get(Obj(fields), other)
    {
      var p := IndexOf(fields, other);
      if p < |fields| {
        IndexIs(after, other, p);
      } else {
        IndexIs(after, other, |after|);
      }
    }
  }

  lemma PutAgain(fields: seq<Field>, key: string, first: Json, second: Json)
    ensures Put(Put(fields, key, first), key, second) == Put(fields, key, second)
  {
    hide IndexOf;
    IndexIs(Put(fields, key, first), key, IndexOf(fields, key));
  }

  /** The fields other than `key`, in place; whatever is appended is for `key`. */
  predicate OthersInPlace(before: seq<Field>, after: seq<Field>, key: string) {
    |before| <= |after|
    && (forall i :: 0 <= i < |before| && before[i].key != key ==> after[i] == before[i])
    && (forall i :: |before| <= i < |after| ==> after[i].key == key)
  }

  lemma PutInPlace(fields: seq<Field>, key: string, value: Json)
    ensures OthersInPlace(fields, Put(fields, key, value), key)
  {
  }

  /** Adding and removing leave every other setting where and what it was. */
  lemma OtherSettingsUntouched(settings: Json, spec: HookSpec)
    ensures Removed(settings, spec).Ok? && settings.Obj? ==>
              Removed(settings, spec).value.settings.Obj?
              && OthersInPlace(settings.fields, Removed(settings, spec).value.settings.fields, "hooks")
    ensures Added(settings, spec).Ok? ==>
              settings.Obj? && Added(settings, spec).value.Obj?
              && OthersInPlace(settings.fields, Added(settings, spec).value.fields, "hooks")
  {
    hide Put, KeptGroups, HasOurs, IndexOf;
    if settings.Obj? {
      forall value: Json
        ensures OthersInPlace(settings.fields, Put(settings.fields, "hooks", value), "hooks")
      {
        PutInPlace(settings.fields, "hooks", value);
      }
    }
  }

  // ------------------------------------------------------------ adding

  lemma AddedGroups(settings: Json, spec: HookSpec)
    requires Added(settings, spec).Ok?
    ensures Groups(Added(settings, spec).value) == Groups(settings) + [HookGroup(spec)]
    ensures Get(Added(settings, spec).value, "hooks").Some? && Get(Added(settings, spec).value, "hooks").value.Obj?
  {
    hide Put, IndexOf;
    var hooks := Get(settings, "hooks").GetOr(Obj([]));
    var list := Get(hooks, "PostToolUse").GetOr(Arr([]));
    var grown := Arr(list.items + [HookGroup(spec)]);
    PutReads(hooks.fields, "PostToolUse", grown);
    PutReads(settings.fields, "hooks", Obj(Put(hooks.fields, "PostToolUse", grown)));
  }

  /** A hook that was added is found as installed. */
  lemma AddedIsInstalled(settings: Json, agent: Agent, hh: string, canonical: string -> string)
    ensures var spec := SpecFor(agent, hh, canonical);
            Added(settings, spec).Ok? ==> StateOf(Added(settings, spec).value, spec) == Installed
  {
    hide SpecFor, Added, GroupHasCurrent, Groups, GroupHasOurs;
    var spec := SpecFor(agent, hh, canonical);
    if Added(settings, spec).Ok? {
      AddedGroups(settings, spec);
      OurGroupIsCurrent(agent, hh, canonical);
      HasOursMore(spec, Groups(settings), HookGroup(spec));
    }
  }

  // ------------------------------------------------------------ removing

  lemma {:induction false} ForeignHasNone(spec: HookSpec, entries: seq<Json>)
    ensures !OursAmong(spec, Foreign(spec, entries))
    ensures Foreign(spec, Foreign(spec, entries)) == Foreign(spec, entries)
  {
    hide IsOurs;
    if entries != [] {
      var front, last := entries[..|entries| - 1], entries[|entries| - 1];
      ForeignHasNone(spec, front);
      OursAmongMore(spec, Foreign(spec, front), last);
    }
    ForeignShorter(spec, Foreign(spec, entries));
  }

  lemma SmallerGroupReads(spec: HookSpec, group: Json)
    requires group.Obj?
    ensures var smaller := Obj(Put(group.fields, "hooks", Arr(Foreign(spec, Entries(group)))));
            && Entries(smaller) == Foreign(spec, Entries(group)) && Get(smaller, "matcher") == Get(group, "matcher")
            && OthersInPlace(group.fields, smaller.fields, "hooks")
  {
    hide Put, Foreign, IndexOf;
    PutReads(group.fields, "hooks", Arr(Foreign(spec, Entries(group))));
    PutInPlace(group.fields, "hooks", Arr(Foreign(spec, Entries(group))));
  }

  lemma KeptGroupHasNone(spec: HookSpec, group: Json)
    ensures forall i :: 0 <= i < |KeptGroup(spec, group)| ==> !GroupHasOurs(spec, KeptGroup(spec, group)[i])
  {
    hide Foreign, Put, IsOurs, Get;
    ForeignShorter(spec, Entries(group));
    ForeignHasNone(spec, Entries(group));
    NoEntries(group);
    if group.Obj? {
      SmallerGroupReads(spec, group);
    }
    forall i | 0 <= i < |KeptGroup(spec, group)|
      ensures !GroupHasOurs(spec, KeptGroup(spec, group)[i])
    {
      assert OursAmong(spec, Entries(KeptGroup(spec, group)[i])) == GroupHasOurs(spec, KeptGroup(spec, group)[i]);
    }
  }

  lemma {:induction false} KeptGroupsHaveNone(spec: HookSpec, groups: seq<Json>)
    ensures !HasOurs(spec, KeptGroups(spec, groups))
  {
    hide KeptGroup, GroupHasOurs;
    if groups != [] {
      KeptGroupsHaveNone(spec, groups[..|groups| - 1]);
      KeptGroupHasNone(spec, groups[|groups| - 1]);
    }
  }

  /** No key names two fields, as in every parsed object. */
  predicate UniqueKeys(fields: seq<Field>) {
    forall i, j :: 0 <= i < j < |fields| ==> fields[i].key != fields[j].key
  }

  /** The one object whose fields are removed from. */
  predicate UniqueHooks(settings: Json) {
    var hooks := Get(settings, "hooks");
    hooks.Some? && hooks.value.Obj? ==> UniqueKeys(hooks.value.fields)
  }

  lemma SwapRemoved(fields: seq<Field>, key: string)
    requires UniqueKeys(fields)
    ensures IndexOf(SwapRemove(fields, key), key) == |SwapRemove(fields, key)|
    ensures forall other :: other != key ==> Get(Obj(SwapRemove(fields, key)), other) == Get(Obj(fields), other)
  {
    hide IndexOf;
    var after, at := SwapRemove(fields, key), IndexOf(fields, key);
    IndexIs(after, key, |after|);
    forall other | other != key
      ensures Get(Obj(after), other) == Get(Obj(fields), other)
    {
      SwapRemovedAt(fields, key, other);
    }
  }

  lemma SwapRemovedAt(fields: seq<Field>, key: string, other: string)
    requires UniqueKeys(fields) && other != key
    ensures Get(Obj(SwapRemove(fields, key)), other) == Get(Obj(fields), other)
  {
    hide IndexOf;
    var after, at, p := SwapRemove(fields, key), IndexOf(fields, key), IndexOf(fields, other);
    if at < |fields| {
      if p == |fields| {
        IndexIs(after, other, |after|);
      } else if p == |fields| - 1 {
        IndexIs(after, other, at);
      } else {
        IndexIs(after, other, p);
      }
    }
  }

  lemma RemovedGroups(settings: Json, spec: HookSpec)
    requires Removed(settings, spec).Ok? && UniqueHooks(settings)
    ensures Groups(Removed(settings, spec).value.settings) == KeptGroups(spec, Groups(settings))
    ensures Removed(settings, spec).value.changed == HasOurs(spec, Groups(settings))
  {
    hide Put, IndexOf, KeptGroups, HasOurs, SwapRemove, UniqueKeys;
    NothingKept(spec);
    if Removed(settings, spec).value.changed {
      var hooks := Get(settings, "hooks").value;
      var kept := KeptGroups(spec, Groups(settings));
      PutReads(hooks.fields, "PostToolUse", Arr(kept));
      SwapRemoved(hooks.fields, "PostToolUse");
      var fields :=
        if kept == [] then SwapRemove(hooks.fields, "PostToolUse") else Put(hooks.fields, "PostToolUse", Arr(kept));
      PutReads(settings.fields, "hooks", Obj(fields));
    } else if !HasOurs(spec, Groups(settings)) {
      NothingOurs(spec, Groups(settings));
    }
  }

  /** After a removal none of our hooks is left anywhere in the list. */
  lemma RemovedIsNotInstalled(settings: Json, spec: HookSpec)
    requires Removed(settings, spec).Ok? && UniqueHooks(settings)
    ensures StateOf(Removed(settings, spec).value.settings, spec) == NotInstalled
  {
    hide Groups, Removed, KeptGroups;
    RemovedGroups(settings, spec);
    KeptGroupsHaveNone(spec, Groups(settings));
    CurrentIsOurs(spec, KeptGroups(spec, Groups(settings)));
  }

  lemma CurrentIsOurs(spec: HookSpec, groups: seq<Json>)
    ensures HasCurrent(spec, groups) ==> HasOurs(spec, groups)
  {
    hide IsOurs, RunsOurHh, Get;
    if i :| 0 <= i < |groups| && GroupHasCurrent(spec, groups[i]) {
      assert GroupHasOurs(spec, groups[i]);
    }
  }

  // ------------------------------------------------------------ other people's hooks

  datatype Placed = Placed(matcher: Option<Json>, hook: Json)

  function Under(matcher: Option<Json>, hooks: seq<Json>): seq<Placed> {
    seq(|hooks|, i requires 0 <= i < |hooks| => Placed(matcher, hooks[i]))
  }

  /** Everybody else's hooks with their group's matcher, in the order they run. */
  function Others(spec: HookSpec, groups: seq<Json>): seq<Placed> {
    if groups == [] then []
    else
      var last := groups[|groups| - 1];
      Others(spec, groups[..|groups| - 1]) + Under(Get(last, "matcher"), Foreign(spec, Entries(last)))
  }

  lemma {:induction false} OthersSplit(spec: HookSpec, a: seq<Json>, b: seq<Json>)
    ensures Others(spec, a + b) == Others(spec, a) + Others(spec, b)
  {
    hide Foreign, Get, Under;
    if b == [] {
      assert a + b == a;
    } else {
      var front, last := b[..|b| - 1], b[|b| - 1];
      OthersSplit(spec, a, front);
      assert (a + b)[..|a + b| - 1] == a + front;
      Associative(Others(spec, a), Others(spec, front), Under(Get(last, "matcher"), Foreign(spec, Entries(last))));
    }
  }

  lemma OneGroupOthers(spec: HookSpec, group: Json)
    ensures Others(spec, [group]) == Under(Get(group, "matcher"), Foreign(spec, Entries(group)))
  {
    assert [group][..0] == [];
    assert Others(spec, []) == [];
  }

  lemma KeptGroupOthers(spec: HookSpec, group: Json)
    ensures Others(spec, KeptGroup(spec, group)) == Others(spec, [group])
  {
    hide Foreign, Get, Put, Others;
    OneGroupOthers(spec, group);
    ForeignHasNone(spec, Entries(group));
    if group.Obj? {
      SmallerGroupReads(spec, group);
      var smaller := Obj(Put(group.fields, "hooks", Arr(Foreign(spec, Entries(group)))));
      OneGroupOthers(spec, smaller);
      NoOthers(spec);
    }
  }

  lemma NoOthers(spec: HookSpec)
    ensures Others(spec, []) == []
  {
  }

  lemma {:induction false} KeptGroupsOthers(spec: HookSpec, groups: seq<Json>)
    ensures Others(spec, KeptGroups(spec, groups)) == Others(spec, groups)
  {
    hide KeptGroup, Others;
    if groups != [] {
      var front, last := groups[..|groups| - 1], groups[|groups| - 1];
      KeptGroupsOthers(spec, front);
      KeptGroupOthers(spec, last);
      OthersSplit(spec, KeptGroups(spec, front), KeptGroup(spec, last));
      OthersSplit(spec, front, [last]);
      assert groups == front + [last];
    }
  }

  lemma OurGroupAddsNone(agent: Agent, hh: string, canonical: string -> string)
    ensures var spec := SpecFor(agent, hh, canonical); Others(spec, [HookGroup(spec)]) == []
  {
    hide EndsWith;
    var spec := SpecFor(agent, hh, canonical);
    OneGroupOthers(spec, HookGroup(spec));
    OurGroupReads(spec);
    AliasRecognised(agent, hh, hh, canonical);
    assert [OurEntry(spec)][..0] == [];
    assert Foreign(spec, [OurEntry(spec)]) == [];
  }

  // ------------------------------------------------------------ installing and uninstalling

  function TreeOf(file: Option<Json>): Json {
    file.GetOr(Obj([]))
  }

  /** Once a removal went through on an object, adding cannot fail. */
  lemma RemovalAdmitsAdding(settings: Json, spec: HookSpec)
    requires settings.Obj? && UniqueHooks(settings) && Removed(settings, spec).Ok?
    ensures Added(Removed(settings, spec).value.settings, spec).Ok?
  {
    hide Put, IndexOf, KeptGroups, HasOurs, SwapRemove, UniqueKeys;
    if Removed(settings, spec).value.changed {
      var hooks := Get(settings, "hooks").value;
      var kept := KeptGroups(spec, Groups(settings));
      var fields :=
        if kept == [] then SwapRemove(hooks.fields, "PostToolUse") else Put(hooks.fields, "PostToolUse", Arr(kept));
      PutReads(settings.fields, "hooks", Obj(fields));
      PutReads(hooks.fields, "PostToolUse", Arr(kept));
      SwapRemoved(hooks.fields, "PostToolUse");
    }
  }

  /** The places the hook goes through have the shapes they need, where they exist. */
  predicate Fits(settings: Json) {
    settings.Obj?
    && (Get(settings, "hooks").Some? ==>
          Get(settings, "hooks").value.Obj?
          && (Get(Get(settings, "hooks").value, "PostToolUse").Some? ==> Get(Get(settings, "hooks").value, "PostToolUse").value.Arr?))
  }

  /** Installing fails exactly on a tree of the wrong shape or a file that cannot be written. */
  lemma InstallFailsIff(file: Option<Json>, spec: HookSpec, writable: bool)
    requires UniqueHooks(TreeOf(file))
    ensures Install(file, spec, writable).Err?
            <==> (StateOf(TreeOf(file), spec) != Installed && !(Fits(TreeOf(file)) && writable))
  {
    hide StateOf, Put, IndexOf, KeptGroups, HasOurs, SwapRemove, UniqueKeys;
    var settings := TreeOf(file);
    if settings.Obj? && Removed(settings, spec).Ok? {
      RemovalAdmitsAdding(settings, spec);
    }
  }

  /** What a written install leaves: the old groups without our hooks, then ours, once. */
  lemma InstallLeaves(file: Option<Json>, spec: HookSpec, writable: bool)
    requires UniqueHooks(TreeOf(file)) && Install(file, spec, writable).Ok?
    requires StateOf(TreeOf(file), spec) != Installed
    ensures var after := Install(file, spec, writable).value;
            && after.Some? && Groups(after.value) == KeptGroups(spec, Groups(TreeOf(file))) + [HookGroup(spec)]
            && !HasOurs(spec, KeptGroups(spec, Groups(TreeOf(file))))
  {
    hide StateOf, Removed, Added, Groups, KeptGroups, HasOurs, UniqueHooks;
    var settings := TreeOf(file);
    RemovedGroups(settings, spec);
    AddedGroups(Removed(settings, spec).value.settings, spec);
    KeptGroupsHaveNone(spec, Groups(settings));
  }

  /** After an install the hook is installed, and installing again changes nothing. */
  lemma InstallTwice(file: Option<Json>, agent: Agent, hh: string, canonical: string -> string, writable: bool, again: bool)
    ensures var spec := SpecFor(agent, hh, canonical);
            var once := Install(file, spec, writable);
            once.Ok? ==> StateOf(TreeOf(once.value), spec) == Installed && Install(once.value, spec, again) == once
  {
    hide SpecFor, StateOf, Removed, Added;
    var spec := SpecFor(agent, hh, canonical);
    if Install(file, spec, writable).Ok? && StateOf(TreeOf(file), spec) != Installed {
      AddedIsInstalled(Removed(TreeOf(file), spec).value.settings, agent, hh, canonical);
    }
  }

  /** After an uninstall no hook of ours is left. */
  lemma UninstallLeavesNone(file: Option<Json>, spec: HookSpec, writable: bool)
    requires UniqueHooks(TreeOf(file)) && Uninstall(file, spec, writable).Ok?
    ensures StateOf(TreeOf(Uninstall(file, spec, writable).value), spec) == NotInstalled
  {
    hide StateOf, UniqueHooks, Groups;
    if file.Some? {
      RemovedIsNotInstalled(file.value, spec);
    } else {
      EmptyState(spec);
    }
  }

  lemma EmptyState(spec: HookSpec)
    ensures StateOf(Obj([]), spec) == NotInstalled
  {
    assert IndexOf([], "hooks") == 0;
    assert Groups(Obj([])) == [];
  }

  /** Neither installing nor uninstalling loses, adds or reorders anybody else's hook. */
  lemma OthersConserved(file: Option<Json>, agent: Agent, hh: string, canonical: string -> string, writable: bool)
    requires UniqueHooks(TreeOf(file))
    ensures var spec := SpecFor(agent, hh, canonical);
            var before := Others(spec, Groups(TreeOf(file)));
            && (Install(file, spec, writable).Ok? ==> Others(spec, Groups(TreeOf(Install(file, spec, writable).value))) == before)
            && (Uninstall(file, spec, writable).Ok? ==> Others(spec, Groups(TreeOf(Uninstall(file, spec, writable).value))) == before)
  {
    hide SpecFor, StateOf, Removed, Added, Groups, Others, UniqueHooks, KeptGroups, HasOurs;
    var spec := SpecFor(agent, hh, canonical);
    var groups := Groups(TreeOf(file));
    KeptGroupsOthers(spec, groups);
    OurGroupAddsNone(agent, hh, canonical);
    OthersSplit(spec, KeptGroups(spec, groups), [HookGroup(spec)]);
    if Install(file, spec, writable).Ok? && StateOf(TreeOf(file), spec) != Installed {
      InstallLeaves(file, spec, writable);
    }
    if file.Some? && Removed(file.value, spec).Ok? {
      RemovedGroups(file.value, spec);
    }
  }

  // ------------------------------------------------------------ taking an install back

  /** There was a `hooks` object, no hook of ours, and a list with something in it or none at all. */
  predicate Restorable(settings: Json, spec: HookSpec) {
    var hooks := Get(settings, "hooks");
    hooks.Some? && hooks.value.Obj? && !HasOurs(spec, Groups(settings))
    && Get(hooks.value, "PostToolUse") != Some(Arr([]))
  }

  lemma {:induction false} KeptSplit(spec: HookSpec, a: seq<Json>, b: seq<Json>)
    ensures KeptGroups(spec, a + b) == KeptGroups(spec, a) + KeptGroups(spec, b)
  {
    hide KeptGroup;
    if b == [] {
      assert a + b == a;
    } else {
      var front := b[..|b| - 1];
      KeptSplit(spec, a, front);
      assert (a + b)[..|a + b| - 1] == a + front;
      Associative(KeptGroups(spec, a), KeptGroups(spec, front), KeptGroup(spec, b[|b| - 1]));
    }
  }

  lemma OurGroupGoes(agent: Agent, hh: string, canonical: string -> string)
    ensures var spec := SpecFor(agent, hh, canonical); KeptGroups(spec, [HookGroup(spec)]) == []
  {
    hide EndsWith;
    var spec := SpecFor(agent, hh, canonical);
    OurGroupReads(spec);
    AliasRecognised(agent, hh, hh, canonical);
    assert [OurEntry(spec)][..0] == [];
    assert Foreign(spec, [OurEntry(spec)]) == [];
    assert [HookGroup(spec)][..0] == [];
  }

  /** The groups that come back, and whether anything changed. */
  lemma GroupsComeBack(groups: seq<Json>, agent: Agent, hh: string, canonical: string -> string)
    ensures var spec := SpecFor(agent, hh, canonical);
            !HasOurs(spec, groups) ==>
              KeptGroups(spec, groups + [HookGroup(spec)]) == groups && HasOurs(spec, groups + [HookGroup(spec)])
  {
    hide SpecFor, KeptGroups, HookGroup, HasOurs, GroupHasOurs, GroupHasCurrent;
    var spec := SpecFor(agent, hh, canonical);
    if !HasOurs(spec, groups) {
      NothingOurs(spec, groups);
      OurGroupGoes(agent, hh, canonical);
      KeptSplit(spec, groups, [HookGroup(spec)]);
      OurGroupIsCurrent(agent, hh, canonical);
      HasOursMore(spec, groups, HookGroup(spec));
      CurrentIsOurs(spec, groups + [HookGroup(spec)]);
    }
  }

  /** `hooks` as it is after installing into fields without ours and then uninstalling. */
  function HooksBack(fields: seq<Field>): seq<Field> {
    var list := Get(Obj(fields), "PostToolUse").GetOr(Arr([]));
    if list.Arr? && list.items == [] then SwapRemove(fields, "PostToolUse") else fields
  }

  lemma PutThenRemove(fields: seq<Field>, value: Json)
    ensures SwapRemove(Put(fields, "PostToolUse", value), "PostToolUse") == SwapRemove(fields, "PostToolUse")
  {
    hide IndexOf;
    IndexIs(Put(fields, "PostToolUse", value), "PostToolUse", IndexOf(fields, "PostToolUse"));
  }

  lemma BackFrom(settings: Json, agent: Agent, hh: string, canonical: string -> string)
    requires Fits(settings)
    ensures var spec := SpecFor(agent, hh, canonical);
            var fields := Get(settings, "hooks").GetOr(Obj([])).fields;
            !HasOurs(spec, Groups(settings)) ==>
              && Added(settings, spec).Ok? && Removed(Added(settings, spec).value, spec).Ok?
              && Removed(Added(settings, spec).value, spec).value
                 == Removal(Obj(Put(settings.fields, "hooks", Obj(HooksBack(fields)))), true)
  {
    hide SpecFor, HookGroup, Put, IndexOf, SwapRemove, KeptGroups, HasOurs;
    var spec := SpecFor(agent, hh, canonical);
    if !HasOurs(spec, Groups(settings)) {
      var hooks := Get(settings, "hooks").GetOr(Obj([]));
      var list := Get(hooks, "PostToolUse").GetOr(Arr([]));
      var grown := Arr(list.items + [HookGroup(spec)]);
      var installed := Put(hooks.fields, "PostToolUse", grown);
      var added := Added(settings, spec).value;
      PutReads(hooks.fields, "PostToolUse", grown);
      PutReads(settings.fields, "hooks", Obj(installed));
      GroupsComeBack(list.items, agent, hh, canonical);
      assert Groups(settings) == list.items;
      PutAgain(settings.fields, "hooks", Obj(installed), Obj(HooksBack(hooks.fields)));
      if list.items == [] {
        PutThenRemove(hooks.fields, grown);
      } else {
        PutAgain(hooks.fields, "PostToolUse", grown, list);
        PutBack(hooks.fields, "PostToolUse");
      }
    }
  }

  /**
   Uninstalling right after a successful install gives back the very tree there was
   exactly when there was a `hooks` object without a hook of ours and `PostToolUse`
   was not an empty list.
   */
  lemma UninstallRestoresIff(settings: Json, agent: Agent, hh: string, canonical: string -> string)
    requires UniqueHooks(settings)
    ensures var spec := SpecFor(agent, hh, canonical);
            var installed := Install(Some(settings), spec, true);
            installed.Ok? ==>
              && Uninstall(installed.value, spec, true).Ok?
              && (Uninstall(installed.value, spec, true).value == Some(settings) <==> Restorable(settings, spec))
  {
    hide SpecFor, StateOf, UniqueHooks, Added, Removed, Put, HooksBack, Groups;
    var spec := SpecFor(agent, hh, canonical);
    if Install(Some(settings), spec, true).Ok? {
      InstallFailsIff(Some(settings), spec, true);
      StateNames(settings, spec);
      if HasOurs(spec, Groups(settings)) {
        InstalledHasOurs(settings, agent, hh, canonical);
      } else {
        NothingToRemove(settings, spec);
        BackFrom(settings, agent, hh, canonical);
        BackIsSame(settings, spec);
      }
    }
  }

  lemma StateNames(settings: Json, spec: HookSpec)
    ensures StateOf(settings, spec) == NotInstalled <==> !HasOurs(spec, Groups(settings))
    ensures HasOurs(spec, Groups(settings)) ==> Removed(settings, spec).Ok?
  {
    hide Put, IndexOf, KeptGroups;
    CurrentIsOurs(spec, Groups(settings));
    NothingKept(spec);
  }

  lemma NothingToRemove(settings: Json, spec: HookSpec)
    requires Fits(settings) && !HasOurs(spec, Groups(settings))
    ensures Removed(settings, spec) == Ok(Removal(settings, false))
  {
    hide Put, IndexOf, KeptGroups, HasOurs, SwapRemove;
  }

  lemma BackIsSame(settings: Json, spec: HookSpec)
    requires Fits(settings) && !HasOurs(spec, Groups(settings))
    ensures var fields := Get(settings, "hooks").GetOr(Obj([])).fields;
            Obj(Put(settings.fields, "hooks", Obj(HooksBack(fields)))) == settings <==> Restorable(settings, spec)
  {
    var fields := Get(settings, "hooks").GetOr(Obj([])).fields;
    if Get(settings, "hooks").Some? {
      PutReads(settings.fields, "hooks", Obj(HooksBack(fields)));
      PutBack(settings.fields, "hooks");
      hide Put, IndexOf;
      if Get(Obj(fields), "PostToolUse") == Some(Arr([])) {
        assert |HooksBack(fields)| < |fields|;
      }
    } else {
      assert |Put(settings.fields, "hooks", Obj(HooksBack(fields)))| > |settings.fields|;
    }
  }

  /** A tree with one of our hooks cannot be what an uninstall leaves. */
  lemma InstalledHasOurs(settings: Json, agent: Agent, hh: string, canonical: string -> string)
    requires UniqueHooks(settings)
    requires var spec := SpecFor(agent, hh, canonical);
             HasOurs(spec, Groups(settings)) && Install(Some(settings), spec, true).Ok?
    ensures var spec := SpecFor(agent, hh, canonical);
            var installed := Install(Some(settings), spec, true).value;
            && Uninstall(installed, spec, true).Ok? && Uninstall(installed, spec, true).value != Some(settings)
  {
    hide SpecFor, HookGroup, Added, Removed, Put, HasOurs, KeptGroups, StateOf, Groups, UniqueHooks;
    var spec := SpecFor(agent, hh, canonical);
    var installed := Install(Some(settings), spec, true).value;
    StateNames(settings, spec);
    InstallTwice(Some(settings), agent, hh, canonical, true, true);
    StateNames(installed.value, spec);
    InstalledUnique(settings, spec);
    RemovedIsNotInstalled(installed.value, spec);
    RemovedGroups(installed.value, spec);
  }

  /** Installing keeps the keys of `hooks` apart. */
  lemma InstalledUnique(settings: Json, spec: HookSpec)
    requires UniqueHooks(settings) && Install(Some(settings), spec, true).Ok?
    ensures UniqueHooks(Install(Some(settings), spec, true).value.value)
  {
    hide StateOf, HasOurs, KeptGroups, HookGroup;
    if StateOf(settings, spec) != Installed {
      RemovedUnique(settings, spec);
      AddedUnique(Removed(settings, spec).value.settings, spec);
    }
  }

  lemma PutUnique(fields: seq<Field>, key: string, value: Json)
    requires UniqueKeys(fields)
    ensures UniqueKeys(Put(fields, key, value)) && UniqueKeys(SwapRemove(fields, key))
  {
    hide IndexOf;
  }

  lemma AddedUnique(settings: Json, spec: HookSpec)
    requires UniqueHooks(settings) && Added(settings, spec).Ok?
    ensures UniqueHooks(Added(settings, spec).value)
  {
    hide IndexOf, Put, UniqueKeys, HookGroup;
    NoFields();
    var hooks := Get(settings, "hooks").GetOr(Obj([]));
    var list := Get(hooks, "PostToolUse").GetOr(Arr([]));
    var grown := Arr(list.items + [HookGroup(spec)]);
    PutUnique(hooks.fields, "PostToolUse", grown);
    PutReads(settings.fields, "hooks", Obj(Put(hooks.fields, "PostToolUse", grown)));
  }

  lemma NoFields()
    ensures UniqueKeys([])
  {
  }

  lemma RemovedUnique(settings: Json, spec: HookSpec)
    requires UniqueHooks(settings) && Removed(settings, spec).Ok?
    ensures UniqueHooks(Removed(settings, spec).value.settings)
  {
    hide IndexOf, Put, UniqueKeys, KeptGroups, HasOurs, SwapRemove;
    if Removed(settings, spec).value.changed {
      var hooks := Get(settings, "hooks").value;
      var kept := KeptGroups(spec, Groups(settings));
      PutUnique(hooks.fields, "PostToolUse", Arr(kept));
      PutReads(settings.fields, "hooks", Obj(SwapRemove(hooks.fields, "PostToolUse")));
      PutReads(settings.fields, "hooks", Obj(Put(hooks.fields, "PostToolUse", Arr(kept))));
    }
  }

  /** From no file at all, what stays behind is an empty `hooks` object. */
  lemma UninstallAfterFirstInstall(agent: Agent, hh: string, canonical: string -> string)
    ensures var spec := SpecFor(agent, hh, canonical);
            var installed := Install(None, spec, true);
            installed.Ok? && Uninstall(installed.value, spec, true) == Ok(Some(Obj([Field("hooks", Obj([]))])))
  {
    hide SpecFor, Added, Removed, Groups, HasOurs;
    var spec := SpecFor(agent, hh, canonical);
    NoHooks(spec);
    NothingToRemove(Obj([]), spec);
    BackFrom(Obj([]), agent, hh, canonical);
    BackToNothing();
  }

  lemma BackToNothing()
    ensures HooksBack([]) == [] && forall value: Json :: Put([], "hooks", value) == [Field("hooks", value)]
  {
    assert IndexOf([], "PostToolUse") == 0 && IndexOf([], "hooks") == 0;
  }

  lemma NoHooks(spec: HookSpec)
    ensures StateOf(Obj([]), spec) == NotInstalled && !HasOurs(spec, Groups(Obj([]))) && Fits(Obj([]))
    ensures Get(Obj([]), "hooks") == None
  {
    assert IndexOf([], "hooks") == 0;
  }

  // ------------------------------------------------------------ the order of other events

  /**
   Removing an emptied list keeps every other event's hooks, but keeps their order
   exactly when the list was one of the last two entries of `hooks`.
   */
  lemma RemovalKeepsOrderIff(fields: seq<Field>, key: string)
    requires UniqueKeys(fields) && IndexOf(fields, key) < |fields|
    ensures var at := IndexOf(fields, key);
            && multiset(SwapRemove(fields, key)) == multiset(fields) - multiset{fields[at]}
            && (SwapRemove(fields, key) == fields[..at] + fields[at + 1..] <==> at + 2 >= |fields|)
  {
    hide IndexOf;
    var at, last := IndexOf(fields, key), |fields| - 1;
    SameFields(fields, key);
    if at < last {
      if at + 2 >= |fields| {
        assert fields[..last][at := fields[last]] == fields[..at] + fields[at + 1..];
      } else {
        assert (fields[..at] + fields[at + 1..])[at] == fields[at + 1];
        assert SwapRemove(fields, key)[at] == fields[last];
      }
    }
  }

  lemma SameFields(fields: seq<Field>, key: string)
    requires IndexOf(fields, key) < |fields|
    ensures multiset(SwapRemove(fields, key)) == multiset(fields) - multiset{fields[IndexOf(fields, key)]}
  {
    hide IndexOf;
    var at, last := IndexOf(fields, key), |fields| - 1;
    var front, moved := fields[..last], fields[last];
    assert fields == front + [moved];
    if at < last {
      UpdateCounts(front, at, moved);
    }
  }

  lemma UpdateCounts(front: seq<Field>, at: nat, moved: Field)
    requires at < |front|
    ensures multiset(front[at := moved]) == multiset(front) - multiset{front[at]} + multiset{moved}
  {
  }

  // ------------------------------------------------------------ the other events

  function HookFields(settings: Json): seq<Field> {
    match Get(settings, "hooks")
    case Some(hooks) => if hooks.Obj? then hooks.fields else []
    case None => []
  }

  /** The entry of `hooks` for one event. */
  function EventOf(settings: Json, event: string): Option<Json> {
    Get(Obj(HookFields(settings)), event)
  }

  function Beside(fields: seq<Field>, key: string): seq<Field> {
    if fields == [] then []
    else
      var last := fields[|fields| - 1];
      Beside(fields[..|fields| - 1], key) + if last.key == key then [] else [last]
  }

  /** The entries of `hooks` for events other than `PostToolUse`, in the order they stand in the file. */
  function OtherEvents(settings: Json): seq<Field> {
    Beside(HookFields(settings), "PostToolUse")
  }

  /** A removal empties the list, and it is not among the last two entries of `hooks`. */
  predicate Reorders(settings: Json, spec: HookSpec) {
    HasOurs(spec, Groups(settings)) && KeptGroups(spec, Groups(settings)) == []
    && IndexOf(HookFields(settings), "PostToolUse") + 2 < |HookFields(settings)|
  }

  lemma {:induction false} BesideSplits(a: seq<Field>, b: seq<Field>, key: string)
    ensures Beside(a + b, key) == Beside(a, key) + Beside(b, key)
  {
    if b == [] {
      assert a + b == a;
    } else {
      var front, last := b[..|b| - 1], b[|b| - 1];
      BesideSplits(a, front, key);
      assert (a + b)[..|a + b| - 1] == a + front;
      Associative(Beside(a, key), Beside(front, key), if last.key == key then [] else [last]);
    }
  }

  lemma {:induction false} BesideAll(fields: seq<Field>, key: string)
    requires forall i :: 0 <= i < |fields| ==> fields[i].key != key
    ensures Beside(fields, key) == fields
  {
    if fields != [] {
      BesideAll(fields[..|fields| - 1], key);
      assert fields == fields[..|fields| - 1] + [fields[|fields| - 1]];
    }
  }

  lemma BesideOne(f: Field, key: string)
    ensures Beside([f], key) == if f.key == key then [] else [f]
  {
    assert [f][..0] == [];
  }

  lemma BesideUnique(fields: seq<Field>, key: string)
    requires UniqueKeys(fields)
    ensures var at := IndexOf(fields, key);
            Beside(fields, key) == if at < |fields| then fields[..at] + fields[at + 1..] else fields
  {
    hide IndexOf, Beside;
    var at := IndexOf(fields, key);
    if at < |fields| {
      assert fields == fields[..at] + ([fields[at]] + fields[at + 1..]);
      BesideSplits(fields[..at], [fields[at]] + fields[at + 1..], key);
      BesideSplits([fields[at]], fields[at + 1..], key);
      BesideOne(fields[at], key);
      BesideAll(fields[..at], key);
      BesideAll(fields[at + 1..], key);
    } else {
      BesideAll(fields, key);
    }
  }

  lemma PutBeside(fields: seq<Field>, key: string, value: Json)
    ensures Beside(Put(fields, key, value), key) == Beside(fields, key)
  {
    hide IndexOf, Beside;
    var at := IndexOf(fields, key);
    BesideOne(Field(key, value), key);
    if at < |fields| {
      var front, back := fields[..at], fields[at + 1..];
      BesideOne(fields[at], key);
      assert fields == front + ([fields[at]] + back);
      assert Put(fields, key, value) == front + ([Field(key, value)] + back);
      BesideSplits(front, [fields[at]] + back, key);
      BesideSplits([fields[at]], back, key);
      BesideSplits(front, [Field(key, value)] + back, key);
      BesideSplits([Field(key, value)], back, key);
    } else {
      BesideSplits(fields, [Field(key, value)], key);
    }
  }

  lemma RemoveBeside(fields: seq<Field>, key: string)
    requires UniqueKeys(fields) && IndexOf(fields, key) < |fields|
    ensures Beside(SwapRemove(fields, key), key) == Beside(fields, key) <==> IndexOf(fields, key) + 2 >= |fields|
  {
    hide IndexOf, Beside, SwapRemove;
    PutUnique(fields, key, Null);
    BesideUnique(fields, key);
    BesideUnique(SwapRemove(fields, key), key);
    SwapRemoved(fields, key);
    RemovalKeepsOrderIff(fields, key);
  }

  /** What the two edits leave in `hooks`. */
  lemma FieldsAfterAdding(settings: Json, spec: HookSpec)
    requires Added(settings, spec).Ok?
    ensures exists list :: HookFields(Added(settings, spec).value) == Put(HookFields(settings), "PostToolUse", list)
  {
    hide IndexOf, Put, HookGroup;
    var hooks := Get(settings, "hooks").GetOr(Obj([]));
    var list := Get(hooks, "PostToolUse").GetOr(Arr([]));
    var grown := Arr(list.items + [HookGroup(spec)]);
    PutReads(settings.fields, "hooks", Obj(Put(hooks.fields, "PostToolUse", grown)));
    assert HookFields(Added(settings, spec).value) == Put(HookFields(settings), "PostToolUse", grown);
  }

  lemma FieldsAfterRemoving(settings: Json, spec: HookSpec)
    requires Removed(settings, spec).Ok?
    ensures var after := HookFields(Removed(settings, spec).value.settings);
            var kept := KeptGroups(spec, Groups(settings));
            after == if !HasOurs(spec, Groups(settings)) then HookFields(settings)
                     else if kept == [] then SwapRemove(HookFields(settings), "PostToolUse")
                     else Put(HookFields(settings), "PostToolUse", Arr(kept))
    ensures HasOurs(spec, Groups(settings)) ==> IndexOf(HookFields(settings), "PostToolUse") < |HookFields(settings)|
  {
    hide IndexOf, Put, SwapRemove, KeptGroups, HasOurs;
    NothingKept(spec);
    if HasOurs(spec, Groups(settings)) {
      var hooks := Get(settings, "hooks").value;
      var kept := KeptGroups(spec, Groups(settings));
      PutReads(settings.fields, "hooks", Obj(SwapRemove(hooks.fields, "PostToolUse")));
      PutReads(settings.fields, "hooks", Obj(Put(hooks.fields, "PostToolUse", Arr(kept))));
    }
  }

  lemma AddingKeepsOthers(settings: Json, spec: HookSpec)
    requires Added(settings, spec).Ok?
    ensures var after := Added(settings, spec).value;
            OtherEvents(after) == OtherEvents(settings)
            && forall event :: event != "PostToolUse" ==> EventOf(after, event) == EventOf(settings, event)
  {
    hide HookFields, Added, Put, Get, Beside;
    FieldsAfterAdding(settings, spec);
    var list :| HookFields(Added(settings, spec).value) == Put(HookFields(settings), "PostToolUse", list);
    PutBeside(HookFields(settings), "PostToolUse", list);
    PutReads(HookFields(settings), "PostToolUse", list);
  }

  lemma RemovingKeepsOthers(settings: Json, spec: HookSpec)
    requires Removed(settings, spec).Ok? && UniqueKeys(HookFields(settings))
    ensures var after := Removed(settings, spec).value.settings;
            (OtherEvents(after) == OtherEvents(settings) <==> !Reorders(settings, spec))
            && forall event :: event != "PostToolUse" ==> EventOf(after, event) == EventOf(settings, event)
  {
    hide HookFields, Removed, Put, Get, Beside, IndexOf, SwapRemove, UniqueKeys, KeptGroups, HasOurs, Groups;
    FieldsAfterRemoving(settings, spec);
    var fields, kept := HookFields(settings), KeptGroups(spec, Groups(settings));
    if HasOurs(spec, Groups(settings)) {
      PutBeside(fields, "PostToolUse", Arr(kept));
      PutReads(fields, "PostToolUse", Arr(kept));
      RemoveBeside(fields, "PostToolUse");
      SwapRemoved(fields, "PostToolUse");
    }
  }

  lemma HookFieldsUnique(settings: Json)
    requires UniqueHooks(settings)
    ensures UniqueKeys(HookFields(settings))
  {
  }

  /** Installing and uninstalling leave what is configured for every other event as it is. */
  lemma OtherEventsKept(file: Option<Json>, spec: HookSpec, writable: bool, event: string)
    requires UniqueHooks(TreeOf(file)) && event != "PostToolUse"
    ensures var installed, uninstalled := Install(file, spec, writable), Uninstall(file, spec, writable);
            && (installed.Ok? ==> EventOf(TreeOf(installed.value), event) == EventOf(TreeOf(file), event))
            && (uninstalled.Ok? ==> EventOf(TreeOf(uninstalled.value), event) == EventOf(TreeOf(file), event))
  {
    hide StateOf, Removed, Added, EventOf, OtherEvents, UniqueHooks, Reorders, HookFields;
    var settings := TreeOf(file);
    HookFieldsUnique(settings);
    if Removed(settings, spec).Ok? {
      RemovingKeepsOthers(settings, spec);
      if Added(Removed(settings, spec).value.settings, spec).Ok? {
        AddingKeepsOthers(Removed(settings, spec).value.settings, spec);
      }
    }
  }

  /**
   Uninstalling keeps the order of the other events exactly unless it empties a list
   that is not among the last two entries of `hooks`; so does installing, where nothing
   is removed if the hook is installed already.
   */
  lemma EventOrderKeptIff(file: Option<Json>, spec: HookSpec, writable: bool)
    requires UniqueHooks(TreeOf(file))
    ensures var installed, uninstalled := Install(file, spec, writable), Uninstall(file, spec, writable);
            && (uninstalled.Ok? ==> (OtherEvents(TreeOf(uninstalled.value)) == OtherEvents(TreeOf(file))
                                     <==> !(file.Some? && Reorders(TreeOf(file), spec))))
            && (installed.Ok? ==> (OtherEvents(TreeOf(installed.value)) == OtherEvents(TreeOf(file))
                                   <==> (StateOf(TreeOf(file), spec) == Installed || !Reorders(TreeOf(file), spec))))
  {
    hide StateOf, Removed, Added, EventOf, OtherEvents, UniqueHooks, HookFields;
    var settings := TreeOf(file);
    HookFieldsUnique(settings);
    if Removed(settings, spec).Ok? {
      RemovingKeepsOthers(settings, spec);
      ChangedIffOurs(settings, spec);
      if Added(Removed(settings, spec).value.settings, spec).Ok? {
        AddingKeepsOthers(Removed(settings, spec).value.settings, spec);
      }
    }
  }

  lemma ChangedIffOurs(settings: Json, spec: HookSpec)
    requires Removed(settings, spec).Ok?
    ensures !Removed(settings, spec).value.changed ==> Removed(settings, spec).value.settings == settings
  {
    hide Put, KeptGroups, HasOurs, IndexOf;
  }

  /** Three events, the first with nothing but our hook: uninstalling swaps the other two. */
  lemma UninstallReorders(agent: Agent, hh: string, canonical: string -> string)
    ensures var spec := SpecFor(agent, hh, canonical);
            var pre, stop := Field("PreToolUse", Arr([])), Field("Stop", Arr([]));
            var tree := Obj([Field("hooks", Obj([Field("PostToolUse", Arr([HookGroup(spec)])), pre, stop]))]);
            OtherEvents(tree) == [pre, stop]
            && Uninstall(Some(tree), spec, true) == Ok(Some(Obj([Field("hooks", Obj([stop, pre]))])))
  {
    hide SpecFor, HookGroup, HasOurs, GroupHasCurrent, GroupHasOurs, KeptGroups;
    var spec := SpecFor(agent, hh, canonical);
    var pre, stop := Field("PreToolUse", Arr([])), Field("Stop", Arr([]));
    var fields := [Field("PostToolUse", Arr([HookGroup(spec)])), pre, stop];
    var tree := Obj([Field("hooks", Obj(fields))]);
    GroupsComeBack([], agent, hh, canonical);
    NoneOurs(spec);
    assert [] + [HookGroup(spec)] == [HookGroup(spec)];
    ThreeFields(fields, pre, stop);
    assert IndexOf(tree.fields, "hooks") == 0;
    assert Get(tree, "hooks") == Some(Obj(fields));
    assert Get(Obj(fields), "PostToolUse") == Some(Arr([HookGroup(spec)]));
    assert HookFields(tree) == fields;
    assert KeptGroups(spec, [HookGroup(spec)]) == [] && HasOurs(spec, [HookGroup(spec)]);
    assert Put(tree.fields, "hooks", Obj([stop, pre])) == [Field("hooks", Obj([stop, pre]))];
  }

  lemma NoneOurs(spec: HookSpec)
    ensures !HasOurs(spec, [])
  {
  }

  lemma ThreeFields(fields: seq<Field>, pre: Field, stop: Field)
    requires |fields| == 3 && fields[0].key == "PostToolUse" && fields[1..] == [pre, stop]
    requires pre.key != "PostToolUse" && stop.key != "PostToolUse"
    ensures IndexOf(fields, "PostToolUse") == 0 && SwapRemove(fields, "PostToolUse") == [stop, pre]
    ensures Beside(fields, "PostToolUse") == [pre, stop]
  {
    assert fields == [fields[0]] + [pre, stop];
    assert fields[1] == fields[1..][0] && fields[2] == fields[1..][1];
    BesideSplits([fields[0]], [pre, stop], "PostToolUse");
    BesideOne(fields[0], "PostToolUse");
    BesideAll([pre, stop], "PostToolUse");
  }

  // ------------------------------------------------------------ the groups that stay

  /** The groups a removal does not empty, as they were. */
  function Staying(spec: HookSpec, groups: seq<Json>): seq<Json> {
    if groups == [] then []
    else
      var last := groups[|groups| - 1];
      Staying(spec, groups[..|groups| - 1]) + if KeptGroup(spec, last) == [] then [] else [last]
  }

  /** `after` is `before` with at most its list of hooks reduced to other people's. */
  predicate Reduced(spec: HookSpec, before: Json, after: Json) {
    after == before
    || (before.Obj? && after.Obj? && |after.fields| == |before.fields| && OthersInPlace(before.fields, after.fields, "hooks")
        && Entries(after) == Foreign(spec, Entries(before)))
  }

  lemma KeptGroupReduced(spec: HookSpec, group: Json)
    ensures |KeptGroup(spec, group)| <= 1
    ensures KeptGroup(spec, group) != [] ==> Reduced(spec, group, KeptGroup(spec, group)[0])
  {
    hide Foreign, OthersInPlace, Get;
    if group.Obj? {
      SmallerGroupReads(spec, group);
      if Entries(group) != [] {
        HooksPresent(group);
      }
      ForeignShorter(spec, Entries(group));
    }
  }

  lemma HooksPresent(group: Json)
    requires group.Obj? && Entries(group) != []
    ensures IndexOf(group.fields, "hooks") < |group.fields|
  {
  }

  /** A removal keeps every group that has somebody else's hook or none of ours, in order, with all its other settings. */
  lemma {:induction false} GroupsStay(spec: HookSpec, groups: seq<Json>)
    ensures var kept, staying := KeptGroups(spec, groups), Staying(spec, groups);
            |kept| == |staying| && forall i :: 0 <= i < |kept| ==> Reduced(spec, staying[i], kept[i])
  {
    hide KeptGroup, Reduced;
    if groups != [] {
      GroupsStay(spec, groups[..|groups| - 1]);
      KeptGroupReduced(spec, groups[|groups| - 1]);
    }
  }

  /** So it is after an uninstall, and after an install but for our own group at the end. */
  lemma GroupsStayInstalled(file: Option<Json>, spec: HookSpec, writable: bool)
    requires UniqueHooks(TreeOf(file))
    ensures var staying := Staying(spec, Groups(TreeOf(file)));
            var uninstalled, installed := Uninstall(file, spec, writable), Install(file, spec, writable);
            && (uninstalled.Ok? && file.Some? ==>
                  var after := Groups(TreeOf(uninstalled.value));
                  |after| == |staying| && forall i :: 0 <= i < |after| ==> Reduced(spec, staying[i], after[i]))
            && (installed.Ok? && StateOf(TreeOf(file), spec) != Installed ==>
                  var after := Groups(TreeOf(installed.value));
                  |after| == |staying| + 1 && after[|staying|] == HookGroup(spec)
                  && forall i :: 0 <= i < |staying| ==> Reduced(spec, staying[i], after[i]))
  {
    hide StateOf, Removed, Added, Groups, UniqueHooks, KeptGroups, HasOurs, Staying, Reduced;
    var groups := Groups(TreeOf(file));
    GroupsStay(spec, groups);
    if Install(file, spec, writable).Ok? && StateOf(TreeOf(file), spec) != Installed {
      InstallLeaves(file, spec, writable);
    }
    if file.Some? && Removed(file.value, spec).Ok? {
      RemovedGroups(file.value, spec);
      ChangedIffOurs(file.value, spec);
    }
  }
}
