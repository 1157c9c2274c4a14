/** What hook entries contain, which ones are ours, and when a set is refused
    (crates/mnem-cli/src/integrate.rs:1639-1745 and 1879-1955), without reference to the
    functions that compute it. */
module HookContents {
  import opened Options
  import opened Text
  import opened Json
  import opened HookLists
  import opened HostConfig
  import opened HostConfigLaws

  // ---------- ownership ----------

  lemma StripChar(c: char)
    ensures StripQuotes([c]) == if c == '"' || c == '\'' then "" else [c]
  {
    assert [c][..0] == "";
  }

  lemma EscapedChar(c: char)
    ensures Escaped([c]) == if c == '"' then "\\\"" else [c]
  {
    assert [c][..0] == "";
  }

  ghost predicate NamesProgram(stripped: string) {
    Occurs(stripped, "mnem retrieve") || Occurs(stripped, "mnem.exe retrieve") || Occurs(stripped, "mnem-hook.ps1")
  }

  /** An entry is ours exactly when one of its hooks runs a command that, quotes aside, names
      the program. */
  lemma OwnedIff(entry: Json)
    ensures EntryIsMnemHook(entry)
       <==> && entry.Obj? && "hooks" in entry.fields && entry.fields["hooks"].Arr?
            && exists hook :: hook in entry.fields["hooks"].items && RunsProgram(hook)
  {
    OneKey(entry, "hooks", EMPTY);
    if entry.Obj? && "hooks" in entry.fields && entry.fields["hooks"].Arr? {
      forall hook | hook in entry.fields["hooks"].items ensures HasMnemCommand(hook) <==> RunsProgram(hook) {
        OneKey(hook, "command", EMPTY);
      }
    }
  }

  ghost predicate RunsProgram(hook: Json) {
    && hook.Obj? && "command" in hook.fields && hook.fields["command"].Str?
    && NamesProgram(StripQuotes(hook.fields["command"].s))
  }

  /** A Hermes entry is ours exactly when its command is one of the two, or an older spelling. */
  lemma HermesOwnedIff(h: Hermes, item: Json)
    ensures HermesOwns(h, item)
       <==> && item.Obj? && "command" in item.fields && item.fields["command"].Str?
            && var c := item.fields["command"].s; c == h.pre || c == h.post || h.isOlderSpelling(c)
  {
    OneKey(item, "command", EMPTY);
  }

  // ---------- contents ----------

  /** The whole hook entry. */
  lemma HookValueText(bin: string)
    ensures var v := UserPromptHookValue(bin);
            && v.Obj? && v.fields.Keys == {"matcher", "hooks"} && v.fields["matcher"] == Str(".*")
            && v.fields["hooks"] == Arr([Obj(map["type" := Str("command"), "command" := Str(HookCommand(bin))])])
  {
  }

  /** The pre phase gets the pre command, the post phase the post command. */
  lemma HermesEntryText(h: Hermes)
    ensures HermesEntry(h, "pre_llm_call") == Obj(map["command" := Str(h.pre), "timeout" := Number(30)])
    ensures HermesEntry(h, "post_llm_call") == Obj(map["command" := Str(h.post), "timeout" := Number(30)])
  {
    var pre, post := "pre_llm_call", "post_llm_call";
    assert pre[1] == 'r' && post[1] == 'o';
  }

  /** After both phases are set, each list ends in the command of its phase. */
  lemma HermesHooksWritten(h: Hermes, root: Json)
    requires HermesBoth(h, root).Some?
    ensures var after := HermesBoth(h, root).value.0;
            && EndsIn(PhaseItems(after, "pre_llm_call"), Obj(map["command" := Str(h.pre), "timeout" := Number(30)]))
            && EndsIn(PhaseItems(after, "post_llm_call"), Obj(map["command" := Str(h.post), "timeout" := Number(30)]))
  {
    var pre, post := "pre_llm_call", "post_llm_call";
    assert pre[1] == 'r' && post[1] == 'o';
    HermesEntryText(h);
    var r1 := HermesSet(h, root, pre).value.0;
    PhaseEndsInEntry(h, root, pre);
    PhaseEndsInEntry(h, r1, post);
    HermesPhaseSet(h, r1, post, pre);
  }

  /** Setting both phases reports a change exactly when it makes one. */
  lemma HermesHooksReport(h: Hermes, root: Json)
    requires HermesBoth(h, root).Some?
    ensures HermesBoth(h, root).value.1 <==> HermesBoth(h, root).value.0 != root
  {
    var pre, post := "pre_llm_call", "post_llm_call";
    assert pre[1] == 'r' && post[1] == 'o';
    var r1 := HermesSet(h, root, pre).value.0;
    HermesPhaseSet(h, root, pre, post);
    HermesPhaseSet(h, r1, post, pre);
    if HermesSet(h, r1, post).value.0 == root {
      assert Lookup(root, ["hooks", pre]) == Lookup(r1, ["hooks", pre]);
      var new_ := Arr(Foreign((x: Json) => HermesOwns(h, x), PhaseItems(root, pre)) + [HermesEntry(h, pre)]);
      ForceThenLookup(root, ["hooks", pre], new_);
    }
  }

  predicate EndsIn(items: seq<Json>, last: Json) {
    items != [] && items[|items|-1] == last
  }

  lemma PhaseEndsInEntry(h: Hermes, root: Json, phase: string)
    requires HermesSet(h, root, phase).Some?
    ensures EndsIn(PhaseItems(HermesSet(h, root, phase).value.0, phase), HermesEntry(h, phase))
  {
    var kept := Foreign((x: Json) => HermesOwns(h, x), PhaseItems(root, phase));
    ForceThenLookup(root, ["hooks", phase], Arr(kept + [HermesEntry(h, phase)]));
  }

  // ---------- refusals ----------

  /** A set is refused exactly when the root or the hooks are something other than a mapping, or
      the phase is there and neither a list nor empty. */
  lemma HermesRefusesIff(h: Hermes, root: Json, phase: string)
    ensures HermesSet(h, root, phase) == None
       <==> || !root.Obj?
            || ("hooks" in root.fields && !root.fields["hooks"].Obj?)
            || ("hooks" in root.fields && phase in root.fields["hooks"].fields
                && !root.fields["hooks"].fields[phase].Arr? && !root.fields["hooks"].fields[phase].Null?)
  {
    TwoKeys(root, "hooks", phase, EMPTY);
    OneKey(ChildOr(ObjectFields(root), "hooks"), phase, EMPTY);
  }
}
