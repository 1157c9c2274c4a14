/** What edits of host configuration files guarantee, over repeated runs. */
module HostConfigLaws {
  import opened Options
  import opened Text
  import opened Json
  import opened HookLists
  import opened HostConfig
  import opened PromptBlock
  import opened PromptLaws
  import opened PromptTheorems
  import PromptDrift

  lemma MergedIsNotEmpty(x: string, prompt: string)
    ensures MergeJsonPrompt(JSON_PROMPT, x, prompt) != ""
  {
    var st := JsonField(JSON_PROMPT);
    MergeShape(st, x, prompt);
    assert |Core(st, TrimEnd(prompt))| > 0;
  }

  /** A second run finds the prompt in place exactly when the field can be reached, its text
      has its markers in order or not at all, and the prompt does not contain the end marker.
      In every other case each run writes again. */
  lemma WiringSettlesIff(root: Json, path: Path, prompt: string)
    requires path != []
    ensures Wired(Wired(root, path, prompt).0, path, prompt).1 == AlreadyWired
       <==> !Blocked(root, path) && WellFormed(JsonField(JSON_PROMPT), TextAt(root, path))
            && !Occurs(TrimEnd(prompt), JSON_MARKER_END)
  {
    var text := TextAt(root, path);
    var merged := MergeJsonPrompt(JSON_PROMPT, text, prompt);
    MergeIsIdempotentIff(text, prompt);
    SetThenGet(root, path, merged);
    if merged == text {
      MergedIsNotEmpty(text, prompt);
      ReadableIsNotBlocked(root, path);
    }
  }

  /** The document after wiring an open path. */
  lemma WiredIsSet(root: Json, path: Path, prompt: string)
    requires path != [] && !Blocked(root, path)
    ensures var merged := MergeJsonPrompt(JSON_PROMPT, TextAt(root, path), prompt);
            Wired(root, path, prompt).0 == SetStr(root, path, merged) && TextAt(SetStr(root, path, merged), path) == merged
  {
    var text := TextAt(root, path);
    var merged := MergeJsonPrompt(JSON_PROMPT, text, prompt);
    SetThenGet(root, path, merged);
    if merged == text {
      MergedIsNotEmpty(text, prompt);
      GetThenSet(root, path);
    }
  }

  /** A text that integrating and undoing restores, and that is not blank. */
  ghost predicate Returns(text: string) {
    PromptDrift.MarkerFree(JsonField(JSON_PROMPT), text) && Settled(JsonField(JSON_PROMPT), text) == text && TrimEnd(text) != ""
  }

  lemma WiredTextIsUndone(root: Json, path: Path, prompt: string)
    requires path != [] && !Occurs(TrimEnd(prompt), JSON_MARKER_END) && GetStr(root, path).Some?
    ensures Undone(Wired(root, path, prompt).0, path).0 == root <==> Returns(GetStr(root, path).value)
  {
    var st, x := JsonField(JSON_PROMPT), GetStr(root, path).value;
    var y := Merge(st, x, prompt);
    var z := Remove(st, y);
    JsonPromptIsProper();
    ReadableIsNotBlocked(root, path);
    WiredIsSet(root, path, prompt);
    PromptDrift.MergeThenRemoveIff(st, x, prompt);
    var wired := SetStr(root, path, y);
    if z == y {
      assert Undone(wired, path).0 == wired;
      if z == x { PromptDrift.MergedIsMarked(st, x, prompt); }
    } else {
      UndoneField(wired, path, z);
      if Returns(x) {
        SetThenSet(root, path, y, z);
        GetThenSet(root, path);
      }
    }
  }

  lemma WiredOtherIsUndone(root: Json, path: Path, prompt: string)
    requires path != [] && !Occurs(TrimEnd(prompt), JSON_MARKER_END)
    requires !Blocked(root, path) && GetStr(root, path) == None
    ensures Undone(Wired(root, path, prompt).0, path)
         == (Without(SetStr(root, path, MergeJsonPrompt(JSON_PROMPT, "", prompt)), path), true)
  {
    var st := JsonField(JSON_PROMPT);
    JsonPromptIsProper();
    MergedIsNotEmpty("", prompt);
    WiredIsSet(root, path, prompt);
    EmptyIsMarkerFree(st);
    PromptDrift.RemoveUndoesAppend(st, "", prompt);
  }

  /** Integrating and undoing restores the document exactly when the path is blocked, or its
      container is there and the field is not, or the field is a text that is not blank, holds
      no marker and ends in one line break. */
  lemma WireThenUndoRestoresIff(root: Json, path: Path, prompt: string)
    requires path != [] && !Occurs(TrimEnd(prompt), JSON_MARKER_END)
    ensures Undone(Wired(root, path, prompt).0, path).0 == root
       <==> || Blocked(root, path)
            || (HasContainer(root, path) && Lookup(root, path) == None)
            || (GetStr(root, path).Some? && Returns(GetStr(root, path).value))
  {
    if Blocked(root, path) {
      if Lookup(root, path).Some? { ReadableIsNotBlocked(root, path); }
      SetThenGet(root, path, MergeJsonPrompt(JSON_PROMPT, TextAt(root, path), prompt));
      assert RemoveJsonPrompt(JSON_PROMPT, "") == "";
    } else if GetStr(root, path).Some? {
      WiredTextIsUndone(root, path, prompt);
    } else {
      WiredOtherIsUndone(root, path, prompt);
      SetThenWithoutIff(root, path, MergeJsonPrompt(JSON_PROMPT, "", prompt));
    }
  }

  lemma {:induction false} ContainerIsOpen(root: Json, path: Path)
    requires HasContainer(root, path)
    ensures !Blocked(root, path)
  {
    if |path| > 1 { ContainerIsOpen(root.fields[path[0]], path[1..]); }
  }

  /** Into a container without the field: undoing restores the document, and says so. */
  lemma WireThenUndoRestores(root: Json, path: Path, prompt: string)
    requires HasContainer(root, path) && Lookup(root, path) == None && !Occurs(TrimEnd(prompt), JSON_MARKER_END)
    ensures Undone(Wired(root, path, prompt).0, path) == (root, true)
  {
    ContainerIsOpen(root, path);
    WiredOtherIsUndone(root, path, prompt);
    WireThenUndoRestoresIff(root, path, prompt);
  }

  /** A value at the field that is not a string is overwritten, and gone after undoing. */
  lemma OtherValueIsGone(root: Json, path: Path, prompt: string)
    requires path != [] && !Occurs(TrimEnd(prompt), JSON_MARKER_END)
    requires Lookup(root, path).Some? && !Lookup(root, path).value.Str?
    ensures Undone(Wired(root, path, prompt).0, path).1
    ensures Lookup(Undone(Wired(root, path, prompt).0, path).0, path) == None
  {
    ReadableIsNotBlocked(root, path);
    WiredOtherIsUndone(root, path, prompt);
    WithoutThenLookup(SetStr(root, path, MergeJsonPrompt(JSON_PROMPT, "", prompt)), path);
  }

  const ZED_PROMPT := ["assistant", "system_prompt"]

  /** With a nested field a container made on the way stays behind. */
  lemma ContainerStaysBehind(prompt: string)
    requires !Occurs(TrimEnd(prompt), JSON_MARKER_END)
    ensures Undone(Wired(EMPTY, ZED_PROMPT, prompt).0, ZED_PROMPT) == (Obj(map["assistant" := EMPTY]), true)
  {
    var merged := MergeJsonPrompt(JSON_PROMPT, "", prompt);
    WiredOtherIsUndone(EMPTY, ZED_PROMPT, prompt);
    assert ZED_PROMPT[1..] == ["system_prompt"];
    var inner := map["system_prompt" := Str(merged)];
    assert SetStr(EMPTY, ["system_prompt"], merged) == Obj(inner);
    assert SetStr(EMPTY, ZED_PROMPT, merged) == Obj(map["assistant" := Obj(inner)]);
    assert inner - {"system_prompt"} == map[];
    assert Without(Obj(inner), ["system_prompt"]) == EMPTY;
    assert map["assistant" := Obj(inner)]["assistant" := EMPTY] == map["assistant" := EMPTY];
  }

  lemma EmptyIsMarkerFree(st: Style)
    requires Proper(st.m)
    ensures PromptDrift.MarkerFree(st, "") && Settled(st, "") == ""
  {
  }

  // ---------- what forced writes lose ----------

  lemma BlockedTwo(root: Json, a: string, b: string)
    ensures Blocked(root, [a, b]) <==> IsLeaf(root, []) || IsLeaf(root, [a])
  {
    assert [a, b][1..] == [b];
    OneKey(root, a, EMPTY);
  }

  lemma BlockedThree(root: Json, a: string, b: string, c: string)
    ensures Blocked(root, [a, b, c]) <==> IsLeaf(root, []) || IsLeaf(root, [a]) || IsLeaf(root, [a, b])
  {
    assert [a, b, c][1..] == [b, c];
    OneKey(root, a, EMPTY);
    TwoKeys(root, a, b, EMPTY);
    if root.Obj? && a in root.fields { BlockedTwo(root.fields[a], b, c); }
  }

  /** A server entry overwrites a value of the user exactly when the root, or what should hold
      servers, is something other than an object. */
  lemma ServerEntryLosesNothingIff(root: Json, server: Json)
    ensures LosesNothing(root, SERVERS, server) <==> !IsLeaf(root, []) && !IsLeaf(root, ["mcpServers"])
    ensures LosesNothing(root, ZED_SERVERS, server) <==>
            !IsLeaf(root, []) && !IsLeaf(root, ["experimental"]) && !IsLeaf(root, ["experimental", "context_servers"])
  {
    ForceLosesNothingIff(root, SERVERS, server);
    ForceLosesNothingIff(root, ZED_SERVERS, server);
    BlockedTwo(root, "mcpServers", "mnem");
    BlockedThree(root, "experimental", "context_servers", "mnem");
  }

  predicate ListOrNothing(root: Json) {
    Lookup(root, PROMPT_HOOKS).Some? ==> Lookup(root, PROMPT_HOOKS).value.Arr?
  }

  /** Outside the hook list itself, a value of the user is as it was. */
  predicate Untouched(root: Json, after: Json, other: Path) {
    && (IsLeaf(root, other) && other != PROMPT_HOOKS ==> Lookup(after, other) == Lookup(root, other))
    && (other == PROMPT_HOOKS && !ListOrNothing(root) ==> Lookup(after, other) == Lookup(root, other))
  }

  lemma {:induction false} NothingBelowLeaf(root: Json, path: Path, other: Path)
    requires Extends(other, path) && other != path
    requires Lookup(root, path) == None || !Lookup(root, path).value.Obj?
    ensures Lookup(root, other) == None
    decreases |path|
  {
    if path != [] && root.Obj? && path[0] in root.fields {
      assert other[0] == path[0] && Extends(other[1..], path[1..]);
      assert other == [other[0]] + other[1..] && path == [path[0]] + path[1..];
      NothingBelowLeaf(root.fields[path[0]], path[1..], other[1..]);
    }
  }

  /** Setting the hook overwrites a value of the user exactly when something other than an
      object is on the way, or something other than a list is where the hooks belong. */
  lemma HookSetLosesNothingIff(root: Json, entry: Json)
    ensures (forall other :: Untouched(root, HookSet(root, entry).0, other))
       <==> !IsLeaf(root, []) && !IsLeaf(root, ["hooks"]) && ListOrNothing(root)
  {
    var items := Arr(Placed(EntryIsMnemHook, Items(root, PROMPT_HOOKS), entry, 0).0);
    var after := HookSet(root, entry).0;
    assert after == Force(root, PROMPT_HOOKS, items);
    ForceThenLookup(root, PROMPT_HOOKS, items);
    ForceLosesNothingIff(root, PROMPT_HOOKS, items);
    BlockedTwo(root, "hooks", "UserPromptSubmit");
    if Blocked(root, PROMPT_HOOKS) {
      var at := BlockedAt(root, PROMPT_HOOKS, items);
      assert !Untouched(root, after, at);
    } else if !ListOrNothing(root) {
      assert !Untouched(root, after, PROMPT_HOOKS);
    } else {
      forall other ensures Untouched(root, after, other) {
        if other != PROMPT_HOOKS && Extends(other, PROMPT_HOOKS) {
          NothingBelowLeaf(root, PROMPT_HOOKS, other);
        } else {
          assert IsLeaf(root, other) && !Extends(other, PROMPT_HOOKS) ==> Lookup(after, other) == Lookup(root, other);
        }
      }
    }
  }

  /** Setting a Hermes phase, when it does not refuse, never overwrites a value on the way. */
  lemma HermesSetLosesNothing(h: Hermes, root: Json, phase: string, val: Json)
    requires HermesSet(h, root, phase).Some?
    ensures LosesNothing(root, ["hooks", phase], val)
  {
    ForceLosesNothingIff(root, ["hooks", phase], val);
    assert ["hooks", phase][1..] == [phase];
  }

  // ---------- the hook of the program is recognised ----------

  lemma {:induction false} StripConcat(a: string, b: string)
    ensures StripQuotes(a + b) == StripQuotes(a) + StripQuotes(b)
  {
    if b == "" {
      assert a + b == a;
    } else {
      assert (a + b)[..|a+b|-1] == a + b[..|b|-1];
      StripConcat(a, b[..|b|-1]);
    }
  }

  lemma {:induction false} EscapeConcat(a: string, b: string)
    ensures Escaped(a + b) == Escaped(a) + Escaped(b)
  {
    if b == "" {
      assert a + b == a;
    } else {
      assert (a + b)[..|a+b|-1] == a + b[..|b|-1];
      EscapeConcat(a, b[..|b|-1]);
    }
  }

  lemma {:induction false} NoQuotes(s: string)
    requires NoQuoteIn(s)
    ensures StripQuotes(s) == s && Escaped(s) == s
  {
    if s != "" { NoQuotes(s[..|s|-1]); }
  }

  lemma OccursInside(a: string, pat: string, b: string)
    ensures Find(a + pat + b, pat).Some?
  {
    assert At(a + pat + b, pat, |a|) by {
      assert (a + pat + b)[|a|..|a|+|pat|] == pat;
    }
    assert Occurs(a + pat + b, pat);
  }

  /** Stripping leaves the program's name, dequoted, right before the subcommand. */
  lemma StrippedCommand(a: string, dir: string, name: string, sub: string, tail: string)
    requires NoQuoteIn(name) && NoQuoteIn(sub)
    ensures exists x, y :: StripQuotes(a + Escaped(dir + name) + "\"" + sub + tail) == x + (name + sub) + y
  {
    var e := Escaped(dir);
    EscapeConcat(dir, name);
    NoQuotes(name);
    NoQuotes(sub);
    LoneQuote();
    StripConcat(a + (e + name) + "\"" + sub, tail);
    StripConcat(a + (e + name) + "\"", sub);
    StripConcat(a + (e + name), "\"");
    StripConcat(a, e + name);
    StripConcat(e, name);
    Reassociate(StripQuotes(a), StripQuotes(e), name, sub, StripQuotes(tail));
    assert StripQuotes(a + Escaped(dir + name) + "\"" + sub + tail)
        == (StripQuotes(a) + StripQuotes(e)) + (name + sub) + StripQuotes(tail);
  }

  predicate NoQuoteIn(s: string) {
    forall i :: 0 <= i < |s| ==> s[i] != '"' && s[i] != '\''
  }

  lemma Reassociate(a: string, e: string, name: string, sub: string, tail: string)
    ensures a + (e + name) + "" + sub + tail == (a + e) + (name + sub) + tail
  {
  }

  lemma LoneQuote()
    ensures StripQuotes("\"") == ""
  {
  }

  const HOOK_HEAD := "bash -c 'p=$(jq -r .prompt 2>/dev/null); if [ -n \"$p\" ] && [ \"$p\" != \"null\" ]; then \""

  function HookTail(bin: string): string {
    " \"$p\" 2>/dev/null; \"" + Escaped(bin) + "\" global retrieve \"$p\" 2>/dev/null; fi'"
  }

  lemma Bracketed(a: string, b: string, c: string, d: string, e: string, f: string, g: string)
    ensures a + b + c + d + e + f + g == a + b + c + d + (e + f + g)
  {
  }

  /** Whatever the directory, the command written for the program mnem is taken for ours. */
  lemma HookCommandIsOurs(dir: string)
    ensures IsMnemCommand(HookCommand(dir + "mnem"))
  {
    var bin := dir + "mnem";
    StrippedCommand(HOOK_HEAD, dir, "mnem", " retrieve", HookTail(bin));
    Bracketed(HOOK_HEAD, Escaped(bin), "\"", " retrieve", " \"$p\" 2>/dev/null; \"", Escaped(bin),
              "\" global retrieve \"$p\" 2>/dev/null; fi'");
    assert HookCommand(bin) == HOOK_HEAD + Escaped(bin) + "\"" + " retrieve" + HookTail(bin);
    var x, y :| StripQuotes(HookCommand(bin)) == x + ("mnem" + " retrieve") + y;
    assert "mnem" + " retrieve" == "mnem retrieve";
    OccursInside(x, "mnem retrieve", y);
  }

  lemma HookValueIsOurs(dir: string)
    ensures EntryIsMnemHook(UserPromptHookValue(dir + "mnem"))
  {
    var v := UserPromptHookValue(dir + "mnem");
    var inner := Obj(map["type" := Str("command"), "command" := Str(HookCommand(dir + "mnem"))]);
    HookCommandIsOurs(dir);
    OneKey(v, "hooks", EMPTY);
    OneKey(inner, "command", EMPTY);
    assert inner in [inner];
  }

  // ---------- hook lists over histories ----------

  datatype HookEdit = SetHook(dir: string) | RemoveHook

  function Edited(root: Json, e: HookEdit): Json {
    match e
    case SetHook(dir) => HookSet(root, UserPromptHookValue(dir + "mnem")).0
    case RemoveHook => HookRemoved(root).0
  }

  function EditedAll(root: Json, edits: seq<HookEdit>): Json {
    if edits == [] then root else Edited(EditedAll(root, edits[..|edits|-1]), edits[|edits|-1])
  }

  lemma HookSetItems(root: Json, entry: Json)
    ensures Items(HookSet(root, entry).0, PROMPT_HOOKS) == Placed(EntryIsMnemHook, Items(root, PROMPT_HOOKS), entry, 0).0
  {
    ForceThenLookup(root, PROMPT_HOOKS, Arr(Placed(EntryIsMnemHook, Items(root, PROMPT_HOOKS), entry, 0).0));
  }

  lemma HookRemovedItems(root: Json)
    ensures Items(HookRemoved(root).0, PROMPT_HOOKS) == Foreign(EntryIsMnemHook, Items(root, PROMPT_HOOKS))
  {
    ForceThenLookup(root, PROMPT_HOOKS, Arr(Foreign(EntryIsMnemHook, Items(root, PROMPT_HOOKS))));
  }

  /** Any history of sets and removes leaves the other tools' hooks as they were, in order. */
  lemma {:induction false} OtherHooksSurvive(root: Json, edits: seq<HookEdit>)
    ensures Foreign(EntryIsMnemHook, Items(EditedAll(root, edits), PROMPT_HOOKS))
         == Foreign(EntryIsMnemHook, Items(root, PROMPT_HOOKS))
  {
    if edits != [] {
      var before, last := EditedAll(root, edits[..|edits|-1]), edits[|edits|-1];
      OtherHooksSurvive(root, edits[..|edits|-1]);
      match last
      case SetHook(dir) =>
        HookSetItems(before, UserPromptHookValue(dir + "mnem"));
        HookValueIsOurs(dir);
        PlacingKeepsForeign(EntryIsMnemHook, Items(before, PROMPT_HOOKS), UserPromptHookValue(dir + "mnem"));
      case RemoveHook =>
        HookRemovedItems(before);
        ForeignIsForeign(EntryIsMnemHook, Items(before, PROMPT_HOOKS));
    }
  }

  /** A repeated set reports no change and leaves the document equal. */
  lemma RepeatedHookSet(root: Json, dir: string)
    ensures var once := HookSet(root, UserPromptHookValue(dir + "mnem")).0;
            HookSet(once, UserPromptHookValue(dir + "mnem")) == (once, false)
  {
    var v := UserPromptHookValue(dir + "mnem");
    HookValueIsOurs(dir);
    HookSetItems(root, v);
    PlacingIsIdempotent(EntryIsMnemHook, Items(root, PROMPT_HOOKS), v);
    ForceThenLookup(root, PROMPT_HOOKS, Arr(Placed(EntryIsMnemHook, Items(root, PROMPT_HOOKS), v, 0).0));
  }

  // ---------- the two phases of Hermes ----------

  function PhaseItems(root: Json, phase: string): seq<Json> {
    Items(root, ["hooks", phase])
  }

  lemma HermesEntryIsOurs(h: Hermes, phase: string)
    ensures HermesOwns(h, HermesEntry(h, phase))
  {
    OneKey(HermesEntry(h, phase), "command", EMPTY);
  }

  /** A successful set leaves exactly one entry of ours in the phase, keeps the others in
      order, touches no other phase, and reports a change exactly when it made one. */
  lemma HermesPhaseSet(h: Hermes, root: Json, phase: string, other: string)
    requires HermesSet(h, root, phase).Some? && other != phase
    ensures var owned, after := (x: Json) => HermesOwns(h, x), HermesSet(h, root, phase).value.0;
            && OwnedCount(owned, PhaseItems(after, phase)) == 1
            && Foreign(owned, PhaseItems(after, phase)) == Foreign(owned, PhaseItems(root, phase))
            && Lookup(after, ["hooks", other]) == Lookup(root, ["hooks", other])
            && (HermesSet(h, root, phase).value.1 <==> after != root)
            && HermesSet(h, after, phase) == Some((after, false))
  {
    var owned := (x: Json) => HermesOwns(h, x);
    var kept, path := Foreign(owned, PhaseItems(root, phase)), ["hooks", phase];
    var new_ := Arr(kept + [HermesEntry(h, phase)]);
    var after := Force(root, path, new_);
    HermesEntryIsOurs(h, phase);
    ReplacingAll(owned, PhaseItems(root, phase), HermesEntry(h, phase));
    ForceThenLookup(root, path, new_);
    if Lookup(root, path) == Some(new_) { ForcePresent(root, path, new_); }
    TwoKeys(root, "hooks", phase, new_);
    OneKey(Child(root, "hooks"), phase, new_);
    assert !Extends(["hooks", other], path) && !Extends(path, ["hooks", other]) by {
      assert ["hooks", other][1] == other && path[1] == phase;
    }
    ForceLeavesOthers(root, path, new_, ["hooks", other]);
  }

  ghost predicate OneOwnedEach(h: Hermes, root: Json) {
    && OwnedCount((x: Json) => HermesOwns(h, x), PhaseItems(root, "pre_llm_call")) == 1
    && OwnedCount((x: Json) => HermesOwns(h, x), PhaseItems(root, "post_llm_call")) == 1
  }

  /** Setting both phases leaves one entry of ours in each; setting them again reports no
      change and leaves the tree equal. */
  lemma HermesHooksSet(h: Hermes, root: Json)
    requires HermesBoth(h, root).Some?
    ensures OneOwnedEach(h, HermesBoth(h, root).value.0)
    ensures HermesBoth(h, HermesBoth(h, root).value.0) == Some((HermesBoth(h, root).value.0, false))
  {
    var pre, post := "pre_llm_call", "post_llm_call";
    assert pre[1] == 'r' && post[1] == 'o';
    var r1 := HermesSet(h, root, pre).value.0;
    var r2 := HermesSet(h, r1, post).value.0;
    HermesPhaseSet(h, root, pre, post);
    HermesPhaseSet(h, r1, post, pre);
    PhaseDependsOnList(h, r1, r2, pre);
  }

  /** A phase whose list is as a set left it needs no change. */
  lemma PhaseDependsOnList(h: Hermes, r1: Json, r2: Json, phase: string)
    requires HermesSet(h, r1, phase) == Some((r1, false)) && r2.Obj? && Child(r2, "hooks").Obj?
    requires Lookup(r2, ["hooks", phase]) == Lookup(r1, ["hooks", phase])
    ensures HermesSet(h, r2, phase) == Some((r2, false))
  {
    ForcePresent(r2, ["hooks", phase], Lookup(r1, ["hooks", phase]).value);
  }

  /** A remove can report "no change" and still edit the tree: exactly when the phase holds
      an empty list, whose key it drops. */
  lemma HermesRemoveReports(h: Hermes, root: Json, phase: string)
    ensures var (after, changed) := HermesRemoved(h, root, phase);
            !changed && after != root <==> Lookup(root, ["hooks", phase]) == Some(Arr([]))
  {
    var owned, path := (x: Json) => HermesOwns(h, x), ["hooks", phase];
    if Lookup(root, path).Some? && Lookup(root, path).value.Arr? {
      var items := Lookup(root, path).value.items;
      ForeignIsForeign(owned, items);
      NothingOwned(owned, items);
      WithoutThenLookup(root, path);
      if Foreign(owned, items) == items { ForcePresent(root, path, Arr(items)); }
    }
  }

  lemma HermesPhaseRemoved(h: Hermes, root: Json, phase: string)
    ensures var owned, after := (x: Json) => HermesOwns(h, x), HermesRemoved(h, root, phase).0;
            PhaseItems(after, phase) == Foreign(owned, PhaseItems(root, phase))
  {
    var owned, path := (x: Json) => HermesOwns(h, x), ["hooks", phase];
    WithoutThenLookup(root, path);
    ForceThenLookup(root, path, Arr(Foreign(owned, PhaseItems(root, phase))));
  }
}
