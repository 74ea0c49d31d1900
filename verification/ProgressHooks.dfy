/**
 The progress hook in an agent's JSON settings (agent_progress.rs:183-225, 271-308,
 338-417): finding it, adding it, and removing it in place. Objects keep their
 entries in order; removing one moves the last entry into its place.
 */
module ProgressHooks {
  import opened Common
  import opened CanonicalJson
  import opened Text
  import Shell = ShellWords

  datatype Agent = Claude | Codex

  datatype InstallState = NotInstalled | Installed | Outdated

  datatype HookError = RootNotObject | HooksNotObject | ListNotArray | WriteFailed

  /** `canonical` is how the file system resolves a path while the command runs. */
  datatype HookSpec = HookSpec(matcher: string, command: string, hh: string, suffix: string, canonical: string -> string)

  function MatcherFor(agent: Agent): string {
    match agent
    case Claude => "TodoWrite|TaskCreate|TaskUpdate"
    case Codex => "^update_plan$"
  }

  function SuffixFor(agent: Agent): string {
    match agent
    case Claude => " progress hook claude"
    case Codex => " progress hook codex"
  }

  function SpecFor(agent: Agent, hh: string, canonical: string -> string): HookSpec {
    HookSpec(MatcherFor(agent), Shell.ShellQuote(hh) + SuffixFor(agent), canonical(hh), SuffixFor(agent), canonical)
  }

  // ------------------------------------------------------------ ordered objects

  function Get(v: Json, key: string): Option<Json> {
    if v.Obj? && IndexOf(v.fields, key) < |v.fields| then Some(v.fields[IndexOf(v.fields, key)].value) else None
  }

  function Put(fields: seq<Field>, key: string, value: Json): seq<Field> {
    var at := IndexOf(fields, key);
    if at < |fields| then fields[at := Field(key, value)] else fields + [Field(key, value)]
  }

  function SwapRemove(fields: seq<Field>, key: string): seq<Field> {
    var at, last := IndexOf(fields, key), |fields| - 1;
    if at == |fields| then fields
    else if at == last then fields[..last]
    else fields[..last][at := fields[last]]
  }

  function TextOf(v: Option<Json>): Option<string> {
    if v.Some? && v.value.Str? then Some(v.value.text) else None
  }

  function ItemsOf(v: Option<Json>): Option<seq<Json>> {
    if v.Some? && v.value.Arr? then Some(v.value.items) else None
  }

  // ------------------------------------------------------------ recognising our hook

  function CommandOf(hook: Json): Option<string> {
    TextOf(Get(hook, "command"))
  }

  predicate IsOurs(spec: HookSpec, hook: Json) {
    CommandOf(hook).Some? && EndsWith(TrimEnd(CommandOf(hook).value), spec.suffix)
  }

  predicate RunsOurHh(spec: HookSpec, command: string) {
    var trimmed := TrimEnd(command);
    command == spec.command
    || (EndsWith(trimmed, spec.suffix)
        && var program := Shell.Unquote(trimmed[..|trimmed| - |spec.suffix|]);
           program.Some? && spec.canonical(program.value) == spec.hh)
  }

  function Groups(settings: Json): seq<Json> {
    match Get(settings, "hooks")
    case Some(hooks) => ItemsOf(Get(hooks, "PostToolUse")).GetOr([])
    case None => []
  }

  function Entries(group: Json): seq<Json> {
    ItemsOf(Get(group, "hooks")).GetOr([])
  }

  predicate IsCurrent(spec: HookSpec, group: Json, hook: Json) {
    IsOurs(spec, hook) && TextOf(Get(group, "matcher")) == Some(spec.matcher) && RunsOurHh(spec, CommandOf(hook).value)
  }

  predicate GroupHasOurs(spec: HookSpec, group: Json) {
    exists j :: 0 <= j < |Entries(group)| && IsOurs(spec, Entries(group)[j])
  }

  predicate GroupHasCurrent(spec: HookSpec, group: Json) {
    exists j :: 0 <= j < |Entries(group)| && IsCurrent(spec, group, Entries(group)[j])
  }

  predicate HasOurs(spec: HookSpec, groups: seq<Json>) {
    exists i :: 0 <= i < |groups| && GroupHasOurs(spec, groups[i])
  }

  predicate HasCurrent(spec: HookSpec, groups: seq<Json>) {
    exists i :: 0 <= i < |groups| && GroupHasCurrent(spec, groups[i])
  }

  function StateOf(settings: Json, spec: HookSpec): InstallState {
    if HasCurrent(spec, Groups(settings)) then Installed
    else if HasOurs(spec, Groups(settings)) then Outdated
    else NotInstalled
  }

  method HookState(settings: Json, spec: HookSpec) returns (state: InstallState)
    ensures state == StateOf(settings, spec)
  {
    hide IsOurs, RunsOurHh, Get, TextOf, ItemsOf;
    state := NotInstalled;
    var groups := Groups(settings);
    for i := 0 to |groups|
      invariant state == if HasOurs(spec, groups[..i]) then Outdated else NotInstalled
      invariant !HasCurrent(spec, groups[..i])
    {
      var entries := Entries(groups[i]);
      assert groups[..i + 1] == groups[..i] + [groups[i]];
      for j := 0 to |entries|
        invariant state == if HasOurs(spec, groups[..i]) || OursAmong(spec, entries[..j]) then Outdated else NotInstalled
        invariant forall k :: 0 <= k < j ==> !IsCurrent(spec, groups[i], entries[k])
      {
        assert entries[..j + 1] == entries[..j] + [entries[j]];
        OursAmongMore(spec, entries[..j], entries[j]);
        if IsOurs(spec, entries[j]) {
          OursHasCommand(spec, entries[j]);
          if TextOf(Get(groups[i], "matcher")) == Some(spec.matcher) && RunsOurHh(spec, CommandOf(entries[j]).value) {
            assert IsCurrent(spec, groups[i], entries[j]);
            assert GroupHasCurrent(spec, groups[i]);
            return Installed;
          }
          state := Outdated;
        }
      }
      assert entries[..|entries|] == entries;
      assert OursAmong(spec, entries) == GroupHasOurs(spec, groups[i]);
      HasOursMore(spec, groups[..i], groups[i]);
    }
    assert groups[..|groups|] == groups;
  }

  lemma OursHasCommand(spec: HookSpec, hook: Json)
    requires IsOurs(spec, hook)
    ensures CommandOf(hook).Some?
  {
  }

  predicate OursAmong(spec: HookSpec, hooks: seq<Json>) {
    exists j :: 0 <= j < |hooks| && IsOurs(spec, hooks[j])
  }

  lemma OursAmongMore(spec: HookSpec, hooks: seq<Json>, hook: Json)
    ensures OursAmong(spec, hooks + [hook]) <==> (OursAmong(spec, hooks) || IsOurs(spec, hook))
  {
    hide IsOurs;
    var all := hooks + [hook];
    assert all[|hooks|] == hook;
    if j :| 0 <= j < |hooks| && IsOurs(spec, hooks[j]) {
      assert IsOurs(spec, all[j]);
    }
  }

  lemma HasOursMore(spec: HookSpec, groups: seq<Json>, group: Json)
    ensures HasOurs(spec, groups + [group]) <==> (HasOurs(spec, groups) || GroupHasOurs(spec, group))
    ensures HasCurrent(spec, groups + [group]) <==> (HasCurrent(spec, groups) || GroupHasCurrent(spec, group))
  {
    hide GroupHasOurs, GroupHasCurrent;
    var all := groups + [group];
    assert all[|groups|] == group;
    if j :| 0 <= j < |groups| && GroupHasOurs(spec, groups[j]) {
      assert GroupHasOurs(spec, all[j]);
    }
    if j :| 0 <= j < |groups| && GroupHasCurrent(spec, groups[j]) {
      assert GroupHasCurrent(spec, all[j]);
    }
  }

  // ------------------------------------------------------------ adding and removing

  function HookGroup(spec: HookSpec): Json {
    Obj([Field("matcher", Str(spec.matcher)),
         Field("hooks", Arr([Obj([Field("type", Str("command")), Field("command", Str(spec.command))])]))])
  }

  function Added(settings: Json, spec: HookSpec): Result<Json, HookError> {
    if !settings.Obj? then Err(RootNotObject)
    else
      var hooks := Get(settings, "hooks").GetOr(Obj([]));
      if !hooks.Obj? then Err(HooksNotObject)
      else
        var list := Get(hooks, "PostToolUse").GetOr(Arr([]));
        if !list.Arr? then Err(ListNotArray)
        else
          var grown := Arr(list.items + [HookGroup(spec)]);
          Ok(Obj(Put(settings.fields, "hooks", Obj(Put(hooks.fields, "PostToolUse", grown)))))
  }

  function Foreign(spec: HookSpec, entries: seq<Json>): seq<Json> {
    if entries == [] then []
    else
      var last := entries[|entries| - 1];
      Foreign(spec, entries[..|entries| - 1]) + if IsOurs(spec, last) then [] else [last]
  }

  /** What is left of one group: itself, a smaller one, or nothing. */
  function KeptGroup(spec: HookSpec, group: Json): seq<Json> {
    var kept := Foreign(spec, Entries(group));
    if !group.Obj? || |kept| == |Entries(group)| then [group]
    else if kept == [] then []
    else [Obj(Put(group.fields, "hooks", Arr(kept)))]
  }

  function KeptGroups(spec: HookSpec, groups: seq<Json>): seq<Json> {
    if groups == [] then []
    else KeptGroups(spec, groups[..|groups| - 1]) + KeptGroup(spec, groups[|groups| - 1])
  }

  datatype Removal = Removal(settings: Json, changed: bool)

  function Removed(settings: Json, spec: HookSpec): Result<Removal, HookError> {
    match Get(settings, "hooks")
    case None => Ok(Removal(settings, false))
    case Some(hooks) =>
      if !hooks.Obj? then Err(HooksNotObject)
      else
        match Get(hooks, "PostToolUse")
        case None => Ok(Removal(settings, false))
        case Some(list) =>
          if !list.Arr? then Err(ListNotArray)
          else if !HasOurs(spec, list.items) then Ok(Removal(settings, false))
          else
            var kept := KeptGroups(spec, list.items);
            var fields :=
              if kept == [] then SwapRemove(hooks.fields, "PostToolUse") else Put(hooks.fields, "PostToolUse", Arr(kept));
            Ok(Removal(Obj(Put(settings.fields, "hooks", Obj(fields))), true))
  }

  lemma {:induction false} ForeignShorter(spec: HookSpec, entries: seq<Json>)
    ensures |Foreign(spec, entries)| <= |entries|
    ensures |Foreign(spec, entries)| == |entries| <==> !OursAmong(spec, entries)
    ensures |Foreign(spec, entries)| == |entries| ==> Foreign(spec, entries) == entries
  {
    hide IsOurs;
    if entries != [] {
      var front, last := entries[..|entries| - 1], entries[|entries| - 1];
      ForeignShorter(spec, front);
      OursAmongMore(spec, front, last);
      assert entries == front + [last];
    }
  }

  lemma {:induction false} NothingOurs(spec: HookSpec, groups: seq<Json>)
    requires !HasOurs(spec, groups)
    ensures KeptGroups(spec, groups) == groups
  {
    hide IsOurs, Get, ItemsOf;
    if groups != [] {
      var front, last := groups[..|groups| - 1], groups[|groups| - 1];
      assert groups == front + [last];
      HasOursMore(spec, front, last);
      NothingOurs(spec, front);
      ForeignShorter(spec, Entries(last));
      assert OursAmong(spec, Entries(last)) == GroupHasOurs(spec, last);
    }
  }

  lemma PutBack(fields: seq<Field>, key: string)
    requires IndexOf(fields, key) < |fields|
    ensures Put(fields, key, fields[IndexOf(fields, key)].value) == fields
  {
  }

  class Settings {
    var root: Json

    constructor (root: Json)
      ensures this.root == root
    {
      this.root := root;
    }

    method AddHook(spec: HookSpec) returns (error: Option<HookError>)
      modifies this
      ensures match Added(old(root), spec)
              case Ok(settings) => error == None && root == settings
              case Err(e) => error == Some(e) && root == old(root)
    {
      if !root.Obj? {
        return Some(RootNotObject);
      }
      var hooks := Get(root, "hooks").GetOr(Obj([]));
      if !hooks.Obj? {
        return Some(HooksNotObject);
      }
      var list := Get(hooks, "PostToolUse").GetOr(Arr([]));
      if !list.Arr? {
        return Some(ListNotArray);
      }
      list := Arr(list.items + [HookGroup(spec)]);
      hooks := Obj(Put(hooks.fields, "PostToolUse", list));
      root := Obj(Put(root.fields, "hooks", hooks));
      return None;
    }

    /** The inner `retain`: the entries of one group that are not ours. */
    method RetainEntries(spec: HookSpec, entries: seq<Json>) returns (kept: seq<Json>)
      ensures kept == Foreign(spec, entries)
    {
      kept := [];
      for i := 0 to |entries|
        invariant kept == Foreign(spec, entries[..i])
      {
        assert entries[..i + 1][..i] == entries[..i];
        if !IsOurs(spec, entries[i]) {
          kept := kept + [entries[i]];
        }
      }
      assert entries[..|entries|] == entries;
    }

    /** What the outer `retain_mut` does to one group: shrinks it, and drops it if that emptied it. */
    method RetainGroup(spec: HookSpec, group: Json) returns (kept: seq<Json>, changed: bool)
      ensures kept == KeptGroup(spec, group) && changed == GroupHasOurs(spec, group)
    {
      hide IsOurs, Get, Put, ItemsOf;
      var entries := Entries(group);
      ForeignShorter(spec, entries);
      NoEntries(group);
      assert OursAmong(spec, entries) == GroupHasOurs(spec, group);
      var rest := RetainEntries(spec, entries);
      if !group.Obj? || |rest| == |entries| {
        return [group], false;
      }
      return if rest == [] then [] else [Obj(Put(group.fields, "hooks", Arr(rest)))], true;
    }

    method RetainGroups(spec: HookSpec, groups: seq<Json>) returns (kept: seq<Json>, changed: bool)
      ensures kept == KeptGroups(spec, groups) && changed == HasOurs(spec, groups)
    {
      hide KeptGroup, GroupHasOurs, HasOurs, KeptGroups;
      kept, changed := [], false;
      NothingKept(spec);
      for i := 0 to |groups|
        invariant kept == KeptGroups(spec, groups[..i]) && changed == HasOurs(spec, groups[..i])
      {
        KeptNext(spec, groups, i);
        var group, ours := RetainGroup(spec, groups[i]);
        kept := kept + group;
        changed := changed || ours;
      }
      assert groups[..|groups|] == groups;
    }

    method RemoveHook(spec: HookSpec) returns (r: Result<bool, HookError>)
      modifies this
      ensures match Removed(old(root), spec)
              case Ok(removal) => r == Ok(removal.changed) && root == removal.settings
              case Err(e) => r == Err(e) && root == old(root)
    {
      hide IsOurs;
      var hooks := Get(root, "hooks");
      if hooks.None? {
        return Ok(false);
      }
      if !hooks.value.Obj? {
        return Err(HooksNotObject);
      }
      var list := Get(hooks.value, "PostToolUse");
      if list.None? {
        return Ok(false);
      }
      if !list.value.Arr? {
        return Err(ListNotArray);
      }
      var kept, changed := RetainGroups(spec, list.value.items);
      if !changed {
        NothingOurs(spec, list.value.items);
        PutBack(hooks.value.fields, "PostToolUse");
        PutBack(root.fields, "hooks");
      }
      var fields := Put(hooks.value.fields, "PostToolUse", Arr(kept));
      if changed && kept == [] {
        fields := SwapRemove(hooks.value.fields, "PostToolUse");
      }
      root := Obj(Put(root.fields, "hooks", Obj(fields)));
      return Ok(changed);
    }
  }

  lemma NothingKept(spec: HookSpec)
    ensures KeptGroups(spec, []) == [] && !HasOurs(spec, [])
  {
  }

  lemma KeptNext(spec: HookSpec, groups: seq<Json>, i: nat)
    requires i < |groups|
    ensures KeptGroups(spec, groups[..i + 1]) == KeptGroups(spec, groups[..i]) + KeptGroup(spec, groups[i])
    ensures HasOurs(spec, groups[..i + 1]) == (HasOurs(spec, groups[..i]) || GroupHasOurs(spec, groups[i]))
  {
    hide KeptGroup, GroupHasOurs;
    assert groups[..i + 1][..i] == groups[..i];
    assert groups[..i + 1] == groups[..i] + [groups[i]];
    HasOursMore(spec, groups[..i], groups[i]);
  }

  lemma NoEntries(group: Json)
    ensures !group.Obj? ==> Entries(group) == []
  {
  }

  // ------------------------------------------------------------ the settings file

  /** What `install_at` makes of the file: the file's new contents, or the error that left it alone. */
  function Install(file: Option<Json>, spec: HookSpec, writable: bool): Result<Option<Json>, HookError> {
    var settings := file.GetOr(Obj([]));
    if StateOf(settings, spec) == Installed then Ok(file)
    else
      match Removed(settings, spec)
      case Err(e) => Err(e)
      case Ok(removal) =>
        match Added(removal.settings, spec)
        case Err(e) => Err(e)
        case Ok(added) => if writable then Ok(Some(added)) else Err(WriteFailed)
  }

  function Uninstall(file: Option<Json>, spec: HookSpec, writable: bool): Result<Option<Json>, HookError> {
    if file.None? then Ok(None)
    else
      match Removed(file.value, spec)
      case Err(e) => Err(e)
      case Ok(removal) =>
        if !removal.changed then Ok(file) else if writable then Ok(Some(removal.settings)) else Err(WriteFailed)
  }

  class SettingsFile {
    var contents: Option<Json>
    var writable: bool

    method InstallAt(spec: HookSpec) returns (error: Option<HookError>)
      modifies this`contents
      ensures match Install(old(contents), spec, writable)
              case Ok(file) => error == None && contents == file
              case Err(e) => error == Some(e) && contents == old(contents)
    {
      hide StateOf, Removed, Added;
      var settings := new Settings(contents.GetOr(Obj([])));
      var state := HookState(settings.root, spec);
      if state != Installed {
        var removed := settings.RemoveHook(spec);
        if removed.Err? {
          return Some(removed.error);
        }
        error := settings.AddHook(spec);
        if error.Some? {
          return error;
        }
        if !writable {
          return Some(WriteFailed);
        }
        contents := Some(settings.root);
      }
      return None;
    }

    method UninstallAt(spec: HookSpec) returns (error: Option<HookError>)
      modifies this`contents
      ensures match Uninstall(old(contents), spec, writable)
              case Ok(file) => error == None && contents == file
              case Err(e) => error == Some(e) && contents == old(contents)
    {
      hide Removed;
      if contents.None? {
        return None;
      }
      var settings := new Settings(contents.value);
      var removed := settings.RemoveHook(spec);
      if removed.Err? {
        return Some(removed.error);
      }
      if removed.value {
        if !writable {
          return Some(WriteFailed);
        }
        contents := Some(settings.root);
      }
      return None;
    }
  }
}
