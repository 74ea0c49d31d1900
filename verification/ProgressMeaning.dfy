/**
 Whose hook is whose (agent_progress.rs:271-308, 338-417), told by the command text
 itself: what a removal takes, what it may never take, and what counts as current.
 */
module ProgressMeaning {
  import opened Common
  import opened CanonicalJson
  import opened Text
  import opened ProgressHooks
  import opened ProgressInstall
  import Shell = ShellWords

  /** The words every hook of ours ends with. */
  function Words(agent: Agent): string {
    if agent == Claude then " progress hook claude" else " progress hook codex"
  }

  /** The command has these words at `n - |words|`, and only blanks after them. */
  ghost predicate EndsAt(command: string, words: string, n: nat)
    ensures EndsAt(command, words, n) ==> |words| <= n <= |command|
  {
    |words| <= n <= |command| && command[n - |words|..n] == words && AllWhitespace(command[n..])
  }

  ghost predicate EndsIn(command: string, words: string) {
    exists n: nat :: EndsAt(command, words, n)
  }

  lemma {:induction false} TrimEndIs(s: string)
    ensures |TrimEnd(s)| <= |s| && s[..|TrimEnd(s)|] == TrimEnd(s) && AllWhitespace(s[|TrimEnd(s)|..])
  {
    if s != "" && Whitespace(s[|s| - 1]) {
      TrimEndIs(s[..|s| - 1]);
    }
  }

  lemma {:induction false} TrimEndAt(s: string, n: nat)
    requires 0 < n <= |s| && !Whitespace(s[n - 1]) && AllWhitespace(s[n..])
    ensures TrimEnd(s) == s[..n]
  {
    if n < |s| {
      assert s[n..][|s| - 1 - n] == s[|s| - 1];
      assert forall i :: 0 <= i < |s| - 1 - n ==> s[..|s| - 1][n..][i] == s[n..][i];
      TrimEndAt(s[..|s| - 1], n);
      assert s[..|s| - 1][..n] == s[..n];
    } else {
      assert s[..n] == s;
    }
  }

  lemma WordsEnd(command: string, words: string, n: nat)
    requires EndsAt(command, words, n) && words != "" && !Whitespace(words[|words| - 1])
    ensures TrimEnd(command) == command[..n]
  {
    assert command[n - |words|..n][|words| - 1] == command[n - 1];
    TrimEndAt(command, n);
  }

  lemma EndsInIff(command: string, words: string)
    requires words != "" && !Whitespace(words[|words| - 1])
    ensures EndsIn(command, words) <==> EndsWith(TrimEnd(command), words)
  {
    TrimEndIs(command);
    var t := TrimEnd(command);
    if EndsWith(t, words) {
      assert command[|t| - |words|..|t|] == t[|t| - |words|..];
      assert EndsAt(command, words, |t|);
    }
    if n: nat :| EndsAt(command, words, n) {
      WordsEnd(command, words, n);
      assert t[|t| - |words|..] == command[n - |words|..n];
    }
  }

  /** A hook is ours exactly if it has a command that ends in our words. */
  lemma OursIff(agent: Agent, hh: string, canonical: string -> string, hook: Json)
    ensures IsOurs(SpecFor(agent, hh, canonical), hook)
       <==> CommandOf(hook).Some? && EndsIn(CommandOf(hook).value, Words(agent))
  {
    hide EndsIn, TrimEnd, EndsWith, Shell.ShellQuote;
    if CommandOf(hook).Some? {
      EndsInIff(CommandOf(hook).value, Words(agent));
    }
  }

  // ------------------------------------------------------------ current or outdated

  /** The command is a path to our program, quoted for a shell, and our words. */
  ghost predicate Calls(command: string, agent: Agent, hh: string, canonical: string -> string) {
    exists n: nat :: EndsAt(command, Words(agent), n)
      && Shell.Unquote(command[..n - |Words(agent)|]).Some?
      && canonical(Shell.Unquote(command[..n - |Words(agent)|]).value) == canonical(hh)
  }

  lemma CutAt(command: string, words: string, n: nat)
    requires EndsAt(command, words, n) && words != "" && !Whitespace(words[|words| - 1])
    ensures var t := TrimEnd(command);
      |t| == n && EndsWith(t, words) && t[..|t| - |words|] == command[..n - |words|]
  {
    hide TrimEnd;
    WordsEnd(command, words, n);
    assert command[..n][n - |words|..] == command[n - |words|..n];
    assert command[..n][..n - |words|] == command[..n - |words|];
  }

  lemma TrimmedEndsAt(command: string, words: string)
    requires EndsWith(TrimEnd(command), words)
    ensures |TrimEnd(command)| <= |command| && EndsAt(command, words, |TrimEnd(command)|)
    ensures TrimEnd(command)[..|TrimEnd(command)| - |words|] == command[..|TrimEnd(command)| - |words|]
  {
    hide TrimEnd;
    TrimEndIs(command);
    var t := TrimEnd(command);
    assert command[|t| - |words|..|t|] == t[|t| - |words|..];
    assert t[..|t| - |words|] == command[..|t| - |words|];
  }

  lemma CallsIff(command: string, agent: Agent, hh: string, canonical: string -> string)
    ensures var spec := SpecFor(agent, hh, canonical);
      EndsWith(TrimEnd(command), spec.suffix) && RunsOurHh(spec, command) <==> Calls(command, agent, hh, canonical)
  {
    hide Shell.ShellQuote, Shell.Unquote, TrimEnd, EndsAt, EndsWith, RunsOurHh, SpecFor, Calls;
    var spec, words := SpecFor(agent, hh, canonical), Words(agent);
    SpecReads(agent, hh, canonical);
    if EndsWith(TrimEnd(command), words) && RunsOurHh(spec, command) {
      RunsCalls(command, agent, hh, canonical);
    }
    if Calls(command, agent, hh, canonical) {
      CallsRun(command, agent, hh, canonical);
    }
  }

  lemma RunsCalls(command: string, agent: Agent, hh: string, canonical: string -> string)
    requires EndsWith(TrimEnd(command), Words(agent)) && RunsOurHh(SpecFor(agent, hh, canonical), command)
    ensures Calls(command, agent, hh, canonical)
  {
    hide Shell.ShellQuote, Shell.Unquote, TrimEnd, EndsAt, EndsWith;
    TrimmedEndsAt(command, Words(agent));
    OwnCommand(agent, hh, canonical);
    assert EndsAt(command, Words(agent), |TrimEnd(command)|);
  }

  lemma CallsRun(command: string, agent: Agent, hh: string, canonical: string -> string)
    requires Calls(command, agent, hh, canonical)
    ensures EndsWith(TrimEnd(command), Words(agent)) && RunsOurHh(SpecFor(agent, hh, canonical), command)
  {
    hide Shell.ShellQuote, Shell.Unquote, TrimEnd, EndsAt, EndsWith;
    var words := Words(agent);
    var n: nat :| EndsAt(command, words, n) && Shell.Unquote(command[..n - |words|]).Some?
                  && canonical(Shell.Unquote(command[..n - |words|]).value) == canonical(hh);
    CutAt(command, words, n);
  }

  lemma OwnCommand(agent: Agent, hh: string, canonical: string -> string)
    ensures var command, words := SpecFor(agent, hh, canonical).command, Words(agent);
      TrimEnd(command) == command && |words| <= |command| && Shell.Unquote(command[..|command| - |words|]) == Some(hh)
  {
    hide Shell.ShellQuote, Shell.Unquote;
    var quoted, words := Shell.ShellQuote(hh), Words(agent);
    var command := quoted + words;
    assert SpecFor(agent, hh, canonical).command == command;
    NothingToTrim(command);
    assert command[..|command| - |words|] == quoted;
    Shell.UnquoteQuote(hh);
  }

  function Matcher(agent: Agent): string {
    if agent == Codex then "^update_plan$" else "TodoWrite|TaskCreate|TaskUpdate"
  }

  /** The settings count as installed exactly if some hook stands under the agent's
      own matcher and calls a path to our program; as outdated if there is none but
      some hook of ours is there. */
  lemma InstalledIff(settings: Json, agent: Agent, hh: string, canonical: string -> string)
    ensures var spec, groups := SpecFor(agent, hh, canonical), Groups(settings);
      && (StateOf(settings, spec) == Installed <==>
            exists i, j :: 0 <= i < |groups| && 0 <= j < |Entries(groups[i])|
              && TextOf(Get(groups[i], "matcher")) == Some(Matcher(agent))
              && CommandOf(Entries(groups[i])[j]).Some?
              && Calls(CommandOf(Entries(groups[i])[j]).value, agent, hh, canonical))
      && (StateOf(settings, spec) == NotInstalled <==>
            forall i, j :: 0 <= i < |groups| && 0 <= j < |Entries(groups[i])| && CommandOf(Entries(groups[i])[j]).Some? ==>
              !EndsIn(CommandOf(Entries(groups[i])[j]).value, Words(agent)))
  {
    hide Calls, EndsIn, RunsOurHh, Get, ItemsOf, TextOf, IsOurs, IsCurrent;
    var spec, groups := SpecFor(agent, hh, canonical), Groups(settings);
    forall i, j | 0 <= i < |groups| && 0 <= j < |Entries(groups[i])|
      ensures IsOurs(spec, Entries(groups[i])[j]) <==>
        CommandOf(Entries(groups[i])[j]).Some? && EndsIn(CommandOf(Entries(groups[i])[j]).value, Words(agent))
      ensures IsCurrent(spec, groups[i], Entries(groups[i])[j]) <==>
        TextOf(Get(groups[i], "matcher")) == Some(Matcher(agent)) && CommandOf(Entries(groups[i])[j]).Some?
        && Calls(CommandOf(Entries(groups[i])[j]).value, agent, hh, canonical)
      ensures IsCurrent(spec, groups[i], Entries(groups[i])[j]) ==> IsOurs(spec, Entries(groups[i])[j])
    {
      OursIff(agent, hh, canonical, Entries(groups[i])[j]);
      CurrentIff(agent, hh, canonical, groups[i], Entries(groups[i])[j]);
    }
  }

  lemma SpecReads(agent: Agent, hh: string, canonical: string -> string)
    ensures SpecFor(agent, hh, canonical).matcher == Matcher(agent) && SpecFor(agent, hh, canonical).suffix == Words(agent)
  {
  }

  lemma CurrentIff(agent: Agent, hh: string, canonical: string -> string, group: Json, hook: Json)
    ensures var spec := SpecFor(agent, hh, canonical);
      && (IsCurrent(spec, group, hook) <==>
            TextOf(Get(group, "matcher")) == Some(Matcher(agent)) && CommandOf(hook).Some?
            && Calls(CommandOf(hook).value, agent, hh, canonical))
      && (IsCurrent(spec, group, hook) ==> IsOurs(spec, hook))
  {
    hide Calls, RunsOurHh, Get, TextOf, TrimEnd, EndsWith, CommandOf, SpecFor;
    SpecReads(agent, hh, canonical);
    if CommandOf(hook).Some? {
      CallsIff(CommandOf(hook).value, agent, hh, canonical);
    }
  }

  /** What is wrong with a tree that an install would have to change, if anything. */
  function Misfit(settings: Json): Option<HookError> {
    if !settings.Obj? then Some(RootNotObject)
    else
      match Get(settings, "hooks")
      case None => None
      case Some(hooks) =>
        if !hooks.Obj? then Some(HooksNotObject)
        else
          match Get(hooks, "PostToolUse")
          case None => None
          case Some(list) => if list.Arr? then None else Some(ListNotArray)
  }

  /** The error of an install names what is wrong with the tree, or else that the
      file could not be written. */
  lemma InstallErrorIs(file: Option<Json>, spec: HookSpec, writable: bool)
    requires UniqueHooks(TreeOf(file)) && StateOf(TreeOf(file), spec) != Installed
    ensures var wrong := Misfit(TreeOf(file));
      if wrong.Some? then Install(file, spec, writable) == Err(wrong.value)
      else if writable then Install(file, spec, writable).Ok?
      else Install(file, spec, writable) == Err(WriteFailed)
  {
    hide StateOf, Put, IndexOf, KeptGroups, HasOurs, SwapRemove, UniqueKeys;
    var settings := TreeOf(file);
    if settings.Obj? && Removed(settings, spec).Ok? {
      RemovalAdmitsAdding(settings, spec);
    }
  }

  // ------------------------------------------------------------ who stays and who goes

  /** The hook stands in one of the groups, under this matcher. */
  ghost predicate Stands(groups: seq<Json>, matcher: Option<Json>, hook: Json) {
    exists i, j :: 0 <= i < |groups| && 0 <= j < |Entries(groups[i])|
      && Get(groups[i], "matcher") == matcher && Entries(groups[i])[j] == hook
  }

  lemma {:induction false} ForeignHas(spec: HookSpec, entries: seq<Json>, hook: Json)
    ensures hook in Foreign(spec, entries) <==> hook in entries && !IsOurs(spec, hook)
  {
    hide IsOurs;
    if entries != [] {
      var n := |entries| - 1;
      ForeignHas(spec, entries[..n], hook);
      assert entries == entries[..n] + [entries[n]];
    }
  }

  lemma StandsMore(groups: seq<Json>, group: Json, matcher: Option<Json>, hook: Json)
    ensures Stands(groups + [group], matcher, hook) <==>
      Stands(groups, matcher, hook) || (Get(group, "matcher") == matcher && hook in Entries(group))
  {
    hide Get, ItemsOf;
    var all := groups + [group];
    assert all[|groups|] == group && forall i :: 0 <= i < |groups| ==> all[i] == groups[i];
    if Stands(groups, matcher, hook) {
      var i, j :| 0 <= i < |groups| && 0 <= j < |Entries(groups[i])|
        && Get(groups[i], "matcher") == matcher && Entries(groups[i])[j] == hook;
      assert Entries(all[i])[j] == hook;
    }
    if Get(group, "matcher") == matcher && hook in Entries(group) {
      var j :| 0 <= j < |Entries(group)| && Entries(group)[j] == hook;
      assert Entries(all[|groups|])[j] == hook;
    }
    if Stands(all, matcher, hook) {
      var i, j :| 0 <= i < |all| && 0 <= j < |Entries(all[i])|
        && Get(all[i], "matcher") == matcher && Entries(all[i])[j] == hook;
      if i < |groups| {
        assert Entries(groups[i])[j] == hook;
      }
    }
  }

  lemma UnderHas(matcher: Option<Json>, hooks: seq<Json>, placed: Placed)
    ensures placed in Under(matcher, hooks) <==> placed.matcher == matcher && placed.hook in hooks
  {
    var under := Under(matcher, hooks);
    if placed.matcher == matcher && placed.hook in hooks {
      var i :| 0 <= i < |hooks| && hooks[i] == placed.hook;
      assert under[i] == placed;
    }
  }

  lemma {:induction false} OthersAre(spec: HookSpec, groups: seq<Json>, matcher: Option<Json>, hook: Json)
    ensures Placed(matcher, hook) in Others(spec, groups) <==> Stands(groups, matcher, hook) && !IsOurs(spec, hook)
  {
    hide Get, ItemsOf, Entries, Foreign, Under, IsOurs, Stands;
    if groups == [] {
      NobodyStands(matcher, hook);
    } else {
      var n := |groups| - 1;
      OthersAre(spec, groups[..n], matcher, hook);
      ForeignHas(spec, Entries(groups[n]), hook);
      UnderHas(Get(groups[n], "matcher"), Foreign(spec, Entries(groups[n])), Placed(matcher, hook));
      StandsMore(groups[..n], groups[n], matcher, hook);
      assert groups == groups[..n] + [groups[n]];
    }
  }

  lemma NobodyStands(matcher: Option<Json>, hook: Json)
    ensures !Stands([], matcher, hook)
  {
  }

  /** A hook is somebody else's: no command, or one that does not end in our words. */
  ghost predicate Foreigner(agent: Agent, hook: Json) {
    CommandOf(hook).None? || !EndsIn(CommandOf(hook).value, Words(agent))
  }

  /** Installing and uninstalling leave somebody else's hooks exactly where they
      stood, under the same matcher, and bring none in. */
  lemma ForeignersStay(file: Option<Json>, agent: Agent, hh: string, canonical: string -> string, writable: bool,
                       matcher: Option<Json>, hook: Json)
    requires UniqueHooks(TreeOf(file)) && Foreigner(agent, hook)
    ensures var spec := SpecFor(agent, hh, canonical);
      var stood := Stands(Groups(TreeOf(file)), matcher, hook);
      var installed, uninstalled := Install(file, spec, writable), Uninstall(file, spec, writable);
      && (installed.Ok? ==> (Stands(Groups(TreeOf(installed.value)), matcher, hook) <==> stood))
      && (uninstalled.Ok? ==> (Stands(Groups(TreeOf(uninstalled.value)), matcher, hook) <==> stood))
  {
    hide Install, Uninstall, Groups, Others, Stands, UniqueHooks, SpecFor, EndsIn;
    var spec := SpecFor(agent, hh, canonical);
    OursIff(agent, hh, canonical, hook);
    hide IsOurs;
    OthersConserved(file, agent, hh, canonical, writable);
    OthersAre(spec, Groups(TreeOf(file)), matcher, hook);
    var installed, uninstalled := Install(file, spec, writable), Uninstall(file, spec, writable);
    if installed.Ok? {
      OthersAre(spec, Groups(TreeOf(installed.value)), matcher, hook);
    }
    if uninstalled.Ok? {
      OthersAre(spec, Groups(TreeOf(uninstalled.value)), matcher, hook);
    }
  }
}
