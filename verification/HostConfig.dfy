/** Writing this program's entries into host configuration files, and taking them out again
    (crates/mnem-cli/src/integrate.rs). A document is the parsed tree under edit. */
module HostConfig {
  import opened Options
  import opened Text
  import opened Json
  import opened HookLists
  import opened PromptBlock

  datatype Outcome = AlreadyWired | Wrote

  const SERVERS := ["mcpServers", "mnem"]
  const ZED_SERVERS := ["experimental", "context_servers", "mnem"]
  const PROMPT_HOOKS := ["hooks", "UserPromptSubmit"]

  // ---------- which hook entries are ours ----------

  function StripQuotes(s: string): string {
    if s == "" then ""
    else
      var front, c := StripQuotes(s[..|s|-1]), s[|s|-1];
      if c == '"' || c == '\'' then front else front + [c]
  }

  function Escaped(s: string): string {
    if s == "" then ""
    else Escaped(s[..|s|-1]) + if s[|s|-1] == '"' then "\\\"" else [s[|s|-1]]
  }

  predicate IsMnemCommand(c: string) {
    var stripped := StripQuotes(c);
    || Find(stripped, "mnem retrieve").Some?
    || Find(stripped, "mnem.exe retrieve").Some?
    || Find(stripped, "mnem-hook.ps1").Some?
  }

  predicate HasMnemCommand(hook: Json) {
    var c := GetStr(hook, ["command"]);
    c.Some? && IsMnemCommand(c.value)
  }

  predicate EntryIsMnemHook(entry: Json) {
    match Lookup(entry, ["hooks"])
    case Some(Arr(inner)) => exists hook :: hook in inner && HasMnemCommand(hook)
    case _ => false
  }

  /** The hook command on Unix, for a given path of the program. */
  function HookCommand(bin: string): string {
    "bash -c 'p=$(jq -r .prompt 2>/dev/null); if [ -n \"$p\" ] && [ \"$p\" != \"null\" ]; then \""
    + Escaped(bin) + "\"" + " retrieve" + " \"$p\" 2>/dev/null; \""
    + Escaped(bin) + "\" global retrieve \"$p\" 2>/dev/null; fi'"
  }

  function UserPromptHookValue(bin: string): Json {
    Obj(map["matcher" := Str(".*"),
            "hooks" := Arr([Obj(map["type" := Str("command"), "command" := Str(HookCommand(bin))])])])
  }

  /** The commands of the two phases, and the older spellings still recognised. */
  datatype Hermes = Hermes(pre: string, post: string, isOlderSpelling: string -> bool)

  predicate HermesOwns(h: Hermes, item: Json) {
    var c := GetStr(item, ["command"]);
    c.Some? && (c.value == h.pre || c.value == h.post || h.isOlderSpelling(c.value))
  }

  function HermesEntry(h: Hermes, phase: string): Json {
    Obj(map["command" := Str(if phase == "post_llm_call" then h.post else h.pre), "timeout" := Number(30)])
  }

  // ---------- what the edits do to the tree ----------

  function Items(root: Json, path: Path): seq<Json> {
    match Lookup(root, path)
    case Some(Arr(items)) => items
    case _ => []
  }

  function HookSet(root: Json, entry: Json): (Json, bool) {
    var (items, changed) := Placed(EntryIsMnemHook, Items(root, PROMPT_HOOKS), entry, 0);
    (Force(root, PROMPT_HOOKS, Arr(items)), changed)
  }

  function HookRemoved(root: Json): (Json, bool) {
    match Lookup(root, PROMPT_HOOKS)
    case Some(Arr(items)) =>
      var kept := Foreign(EntryIsMnemHook, items);
      (Force(root, PROMPT_HOOKS, Arr(kept)), |kept| != |items|)
    case _ => (root, false)
  }

  predicate HasEntry(list: Json, entry: Json) {
    list.Arr? && entry in list.items
  }

  /** A set reports a change exactly when it makes one; the entry is in the list afterwards. */
  lemma HookSetReports(root: Json, entry: Json)
    ensures HookSet(root, entry).1 <==> HookSet(root, entry).0 != root
    ensures Lookup(HookSet(root, entry).0, ["hooks", "UserPromptSubmit"]).Some?
    ensures HasEntry(Lookup(HookSet(root, entry).0, ["hooks", "UserPromptSubmit"]).value, entry)
  {
    var items := Items(root, PROMPT_HOOKS);
    var placed := Placed(EntryIsMnemHook, items, entry, 0).0;
    PlacedReports(EntryIsMnemHook, items, entry, 0);
    ForceThenLookup(root, PROMPT_HOOKS, Arr(placed));
    if placed == items { ForcePresent(root, PROMPT_HOOKS, Arr(items)); }
  }

  /** So does a removal, after which no entry of ours is left. */
  lemma HookRemovedReports(root: Json)
    ensures HookRemoved(root).1 <==> HookRemoved(root).0 != root
    ensures Lookup(HookRemoved(root).0, ["hooks", "UserPromptSubmit"]).Some? ==>
              forall e :: HasEntry(Lookup(HookRemoved(root).0, ["hooks", "UserPromptSubmit"]).value, e) ==> !EntryIsMnemHook(e)
  {
    var items := Items(root, PROMPT_HOOKS);
    var kept := Foreign(EntryIsMnemHook, items);
    ForeignIsForeign(EntryIsMnemHook, items);
    NothingOwned(EntryIsMnemHook, items);
    ForceThenLookup(root, PROMPT_HOOKS, Arr(kept));
    NothingOwned(EntryIsMnemHook, kept);
    if Lookup(root, PROMPT_HOOKS) == Some(Arr(kept)) { ForcePresent(root, PROMPT_HOOKS, Arr(kept)); }
  }

  /** Refuses, rather than reshape, anything that is not a list where a list belongs. */
  function HermesSet(h: Hermes, root: Json, phase: string): Option<(Json, bool)> {
    if !root.Obj? || !Child(root, "hooks").Obj? then None
    else
      var old_ := Lookup(root, ["hooks", phase]);
      if old_ != None && !old_.value.Arr? && !old_.value.Null? then None
      else
        var new_ := Arr(Foreign((x: Json) => HermesOwns(h, x), Items(root, ["hooks", phase])) + [HermesEntry(h, phase)]);
        Some((Force(root, ["hooks", phase], new_), old_ != Some(new_)))
  }

  /** Both phases, stopping at the first refusal. */
  function HermesBoth(h: Hermes, root: Json): Option<(Json, bool)> {
    var pre :- HermesSet(h, root, "pre_llm_call");
    var post :- HermesSet(h, pre.0, "post_llm_call");
    Some((post.0, pre.1 || post.1))
  }

  function First<A, B>(r: Option<(A, B)>): Option<A> {
    match r case None => None case Some((a, _)) => Some(a)
  }

  function HermesRemoved(h: Hermes, root: Json, phase: string): (Json, bool) {
    match Lookup(root, ["hooks", phase])
    case Some(Arr(items)) =>
      var kept := Foreign((x: Json) => HermesOwns(h, x), items);
      (if kept == [] then Without(root, ["hooks", phase]) else Force(root, ["hooks", phase], Arr(kept)),
       |kept| != |items|)
    case _ => (root, false)
  }

  /** The text of a field, empty when there is none. */
  function TextAt(root: Json, path: Path): string {
    match GetStr(root, path) case None => "" case Some(s) => s
  }

  function Wired(root: Json, path: Path, prompt: string): (Json, Outcome) {
    var text := TextAt(root, path);
    var merged := MergeJsonPrompt(JSON_PROMPT, text, prompt);
    if merged == text then (root, AlreadyWired) else (SetStr(root, path, merged), Wrote)
  }

  function Undone(root: Json, path: Path): (Json, bool) {
    var text := TextAt(root, path);
    var stripped := RemoveJsonPrompt(JSON_PROMPT, text);
    if stripped == text then (root, false)
    else if TrimEnd(stripped) == "" then (Without(root, path), true)
    else (SetStr(root, path, stripped), true)
  }

  function Rest(stripped: string): Option<string> {
    if TrimEnd(stripped) == "" then None else Some(stripped)
  }

  lemma {:induction false} ReadableIsNotBlocked(root: Json, path: Path)
    requires Lookup(root, path).Some?
    ensures !Blocked(root, path)
  {
    if path != [] && |path| > 1 { ReadableIsNotBlocked(root.fields[path[0]], path[1..]); }
  }

  /** What is read back after undoing. */
  lemma UndoneField(root: Json, path: Path, stripped: string)
    requires path != [] && stripped == RemoveJsonPrompt(JSON_PROMPT, TextAt(root, path)) && stripped != TextAt(root, path)
    ensures GetStr(Undone(root, path).0, path) == Rest(stripped)
  {
    assert RemoveJsonPrompt(JSON_PROMPT, "") == "";
    assert GetStr(root, path).Some?;
    ReadableIsNotBlocked(root, path);
    SetThenGet(root, path, stripped);
    WithoutThenLookup(root, path);
  }

  // ---------- a document under edit ----------

  class ConfigDocument {
    var root: Json

    constructor (root: Json)
      ensures this.root == root
    {
      this.root := root;
    }

    /** Afterwards the field holds the merged text, or the document is as it was: because the
        merge changes nothing, or because the path is blocked, which is reported as a write. */
    method WirePrompt(path: Path, prompt: string) returns (outcome: Outcome)
      modifies this
      ensures (root, outcome) == Wired(old(root), path, prompt)
      ensures outcome == AlreadyWired
         <==> MergeJsonPrompt(JSON_PROMPT, TextAt(old(root), path), prompt) == TextAt(old(root), path)
      ensures outcome == AlreadyWired || Blocked(old(root), path) ==> root == old(root)
      ensures outcome == Wrote && path != [] && !Blocked(old(root), path) ==>
                GetStr(root, path) == Some(MergeJsonPrompt(JSON_PROMPT, TextAt(old(root), path), prompt))
      ensures forall other :: !Extends(other, path) ==> GetStr(root, other) == GetStr(old(root), other)
    {
      ghost var before := root;
      var current := GetStr(root, path);
      var text := if current == None then "" else current.value;
      var merged := MergeJsonPrompt(JSON_PROMPT, text, prompt);
      if merged == text {
        return AlreadyWired;
      }
      if path != [] { SetThenGet(root, path, merged); }
      forall other | !Extends(other, path) ensures GetStr(SetStr(before, path, merged), other) == GetStr(before, other) {
        SetLeavesOthers(before, path, merged, other);
      }
      root := SetStr(root, path, merged);
      return Wrote;
    }

    /** Drops the field rather than leave it empty; paths of one and two keys occur. */
    method RemoveField(path: Path)
      requires 1 <= |path| <= 2
      modifies this
      ensures root == Without(old(root), path)
    {
      if |path| == 1 {
        assert path == [path[0]];
        OneKey(root, path[0], EMPTY);
        if root.Obj? && path[0] in root.fields {
          root := Obj(root.fields - {path[0]});
        }
      } else {
        assert path == [path[0], path[1]];
        TwoKeys(root, path[0], path[1], EMPTY);
        OneKey(ChildOr(ObjectFields(root), path[0]), path[1], EMPTY);
        if root.Obj? && path[0] in root.fields {
          var inner := root.fields[path[0]];
          if inner.Obj? && path[1] in inner.fields {
            root := Obj(root.fields[path[0] := Obj(inner.fields - {path[1]})]);
          } else {
            assert root.fields[path[0] := inner] == root.fields;
          }
        }
      }
    }

    /** Reports a change exactly when there was a block; the field then holds the rest, or is
        gone when nothing but blanks is left. */
    method UndoPrompt(path: Path) returns (changed: bool)
      requires 1 <= |path| <= 2
      modifies this
      ensures (root, changed) == Undone(old(root), path)
      ensures changed <==> RemoveJsonPrompt(JSON_PROMPT, TextAt(old(root), path)) != TextAt(old(root), path)
      ensures !changed ==> root == old(root)
      ensures changed ==> GetStr(root, path) == Rest(RemoveJsonPrompt(JSON_PROMPT, TextAt(old(root), path)))
    {
      ghost var before := root;
      var current := GetStr(root, path);
      var text := if current == None then "" else current.value;
      var stripped := RemoveJsonPrompt(JSON_PROMPT, text);
      if stripped == text {
        return false;
      }
      UndoneField(root, path, stripped);
      if TrimEnd(stripped) == "" {
        RemoveField(path);
      } else {
        root := SetStr(root, path, stripped);
      }
      return true;
    }

    method SetTopLevel(server: Json) returns (changed: bool)
      modifies this
      ensures root == Force(old(root), SERVERS, server)
      ensures Lookup(root, ["mcpServers", "mnem"]) == Some(server)
      ensures changed == (Lookup(old(root), SERVERS) != Some(server))
    {
      ghost var before := root;
      ForceThenLookup(root, SERVERS, server);
      TwoKeys(root, "mcpServers", "mnem", server);
      OneKey(ChildOr(ObjectFields(root), "mcpServers"), "mnem", server);
      var obj := if root.Obj? then root.fields else map[];
      var servers := if "mcpServers" in obj then obj["mcpServers"] else EMPTY;
      if !servers.Obj? {
        servers := EMPTY;
      }
      if "mnem" in servers.fields && servers.fields["mnem"] == server {
        ForcePresent(before, SERVERS, server);
        return false;
      }
      root := Obj(obj["mcpServers" := Obj(servers.fields["mnem" := server])]);
      return true;
    }

    method RemoveTopLevel() returns (changed: bool)
      modifies this
      ensures root == Without(old(root), SERVERS)
      ensures Lookup(root, ["mcpServers", "mnem"]) == None
      ensures changed == (Lookup(old(root), SERVERS) != None)
    {
      WithoutThenLookup(root, SERVERS);
      TwoKeys(root, "mcpServers", "mnem", EMPTY);
      OneKey(ChildOr(ObjectFields(root), "mcpServers"), "mnem", EMPTY);
      if !root.Obj? || "mcpServers" !in root.fields {
        return false;
      }
      var servers := root.fields["mcpServers"];
      if !servers.Obj? || "mnem" !in servers.fields {
        assert root.fields["mcpServers" := servers] == root.fields;
        return false;
      }
      root := Obj(root.fields["mcpServers" := Obj(servers.fields - {"mnem"})]);
      return true;
    }

    method SetZedNested(server: Json) returns (changed: bool)
      modifies this
      ensures root == Force(old(root), ZED_SERVERS, server)
      ensures Lookup(root, ["experimental", "context_servers", "mnem"]) == Some(server)
      ensures changed == (Lookup(old(root), ZED_SERVERS) != Some(server))
    {
      ghost var before := root;
      ForceThenLookup(root, ZED_SERVERS, server);
      ThreeKeys(root, "experimental", "context_servers", "mnem", server);
      TwoKeys(ChildOr(ObjectFields(root), "experimental"), "context_servers", "mnem", server);
      OneKey(ChildOr(ObjectFields(ChildOr(ObjectFields(root), "experimental")), "context_servers"), "mnem", server);
      var obj := if root.Obj? then root.fields else map[];
      var exp := if "experimental" in obj then obj["experimental"] else EMPTY;
      if !exp.Obj? {
        exp := EMPTY;
      }
      var ctx := if "context_servers" in exp.fields then exp.fields["context_servers"] else EMPTY;
      if !ctx.Obj? {
        ctx := EMPTY;
      }
      if "mnem" in ctx.fields && ctx.fields["mnem"] == server {
        ForcePresent(before, ZED_SERVERS, server);
        return false;
      }
      root := Obj(obj["experimental" := Obj(exp.fields["context_servers" := Obj(ctx.fields["mnem" := server])])]);
      return true;
    }

    method RemoveZedNested() returns (changed: bool)
      modifies this
      ensures root == Without(old(root), ZED_SERVERS)
      ensures Lookup(root, ["experimental", "context_servers", "mnem"]) == None
      ensures changed == (Lookup(old(root), ZED_SERVERS) != None)
    {
      WithoutThenLookup(root, ZED_SERVERS);
      ThreeKeys(root, "experimental", "context_servers", "mnem", EMPTY);
      TwoKeys(ChildOr(ObjectFields(root), "experimental"), "context_servers", "mnem", EMPTY);
      OneKey(ChildOr(ObjectFields(ChildOr(ObjectFields(root), "experimental")), "context_servers"), "mnem", EMPTY);
      if !root.Obj? || "experimental" !in root.fields {
        return false;
      }
      var exp := root.fields["experimental"];
      SameField(root, "experimental");
      SameField(exp, "context_servers");
      if !exp.Obj? || "context_servers" !in exp.fields {
        return false;
      }
      var ctx := exp.fields["context_servers"];
      if !ctx.Obj? || "mnem" !in ctx.fields {
        return false;
      }
      root := Obj(root.fields["experimental" := Obj(exp.fields["context_servers" := Obj(ctx.fields - {"mnem"})])]);
      return true;
    }

    method SetUserPromptHook(entry: Json) returns (changed: bool)
      modifies this
      ensures (root, changed) == HookSet(old(root), entry)
      ensures changed <==> root != old(root)
      ensures Lookup(root, ["hooks", "UserPromptSubmit"]).Some? && HasEntry(Lookup(root, ["hooks", "UserPromptSubmit"]).value, entry)
    {
      HookSetReports(root, entry);
      ghost var before := root;
      TwoKeys(root, "hooks", "UserPromptSubmit", EMPTY);
      OneKey(ChildOr(ObjectFields(root), "hooks"), "UserPromptSubmit", EMPTY);
      var obj := if root.Obj? then root.fields else map[];
      var hooks := if "hooks" in obj then obj["hooks"] else EMPTY;
      if !hooks.Obj? {
        hooks := EMPTY;
      }
      var entries := if "UserPromptSubmit" in hooks.fields then hooks.fields["UserPromptSubmit"] else Arr([]);
      if !entries.Arr? {
        entries := Arr([]);
      }
      assert entries.items == Items(before, PROMPT_HOOKS);
      var items;
      items, changed := PlaceEntry(EntryIsMnemHook, entries.items, entry);
      TwoKeys(root, "hooks", "UserPromptSubmit", Arr(items));
      OneKey(ChildOr(ObjectFields(root), "hooks"), "UserPromptSubmit", Arr(items));
      root := Obj(obj["hooks" := Obj(hooks.fields["UserPromptSubmit" := Arr(items)])]);
    }

    method RemoveUserPromptHook() returns (changed: bool)
      modifies this
      ensures (root, changed) == HookRemoved(old(root))
      ensures changed <==> root != old(root)
      ensures Lookup(root, ["hooks", "UserPromptSubmit"]).Some? ==>
                forall e :: HasEntry(Lookup(root, ["hooks", "UserPromptSubmit"]).value, e) ==> !EntryIsMnemHook(e)
    {
      HookRemovedReports(root);
      TwoKeys(root, "hooks", "UserPromptSubmit", EMPTY);
      OneKey(ChildOr(ObjectFields(root), "hooks"), "UserPromptSubmit", EMPTY);
      if !root.Obj? || "hooks" !in root.fields {
        return false;
      }
      var hooks := root.fields["hooks"];
      if !hooks.Obj? || "UserPromptSubmit" !in hooks.fields || !hooks.fields["UserPromptSubmit"].Arr? {
        return false;
      }
      var before := hooks.fields["UserPromptSubmit"].items;
      var kept := Retain(EntryIsMnemHook, before);
      TwoKeys(root, "hooks", "UserPromptSubmit", Arr(kept));
      OneKey(hooks, "UserPromptSubmit", Arr(kept));
      root := Obj(root.fields["hooks" := Obj(hooks.fields["UserPromptSubmit" := Arr(kept)])]);
      return |kept| != |before|;
    }

    method SetHermesHookPhase(h: Hermes, phase: string) returns (r: Option<bool>)
      modifies this
      ensures match HermesSet(h, old(root), phase)
              case None => r == None && root == old(root)
              case Some((tree, changed)) => r == Some(changed) && root == tree
    {
      TwoKeys(root, "hooks", phase, EMPTY);
      OneKey(ChildOr(ObjectFields(root), "hooks"), phase, EMPTY);
      if !root.Obj? {
        return None;
      }
      var hooks := Child(root, "hooks");
      if !hooks.Obj? {
        return None;
      }
      var old_ := if phase in hooks.fields then Some(hooks.fields[phase]) else None;
      assert old_ == Lookup(root, ["hooks", phase]);
      var items: seq<Json>;
      if old_ == None || old_.value.Null? {
        items := [];
      } else if old_.value.Arr? {
        items := old_.value.items;
      } else {
        return None;
      }
      var owned := (x: Json) => HermesOwns(h, x);
      var kept := Retain(owned, items);
      var new_ := Arr(kept + [HermesEntry(h, phase)]);
      TwoKeys(root, "hooks", phase, new_);
      OneKey(hooks, phase, new_);
      root := Obj(root.fields["hooks" := Obj(hooks.fields[phase := new_])]);
      return Some(old_ != Some(new_));
    }

    method SetHermesHooks(h: Hermes) returns (r: Option<bool>)
      modifies this
      ensures r.Some? ==> HermesBoth(h, old(root)) == Some((root, r.value))
      ensures r == None ==> HermesBoth(h, old(root)) == None
      ensures r == None ==> root == old(root) || Some(root) == First(HermesSet(h, old(root), "pre_llm_call"))
    {
      var pre := SetHermesHookPhase(h, "pre_llm_call");
      if pre == None {
        return None;
      }
      var post := SetHermesHookPhase(h, "post_llm_call");
      if post == None {
        return None;
      }
      return Some(pre.value || post.value);
    }

    method RemoveHermesHookPhase(h: Hermes, phase: string) returns (changed: bool)
      modifies this
      ensures (root, changed) == HermesRemoved(h, old(root), phase)
    {
      TwoKeys(root, "hooks", phase, EMPTY);
      OneKey(ChildOr(ObjectFields(root), "hooks"), phase, EMPTY);
      if !root.Obj? || "hooks" !in root.fields {
        return false;
      }
      var hooks := root.fields["hooks"];
      if !hooks.Obj? || phase !in hooks.fields || !hooks.fields[phase].Arr? {
        return false;
      }
      var before := hooks.fields[phase].items;
      var owned := (x: Json) => HermesOwns(h, x);
      var kept := Retain(owned, before);
      changed := |kept| != |before|;
      TwoKeys(root, "hooks", phase, Arr(kept));
      OneKey(hooks, phase, Arr(kept));
      if kept == [] {
        root := Obj(root.fields["hooks" := Obj(hooks.fields - {phase})]);
      } else {
        root := Obj(root.fields["hooks" := Obj(hooks.fields[phase := Arr(kept)])]);
      }
    }
  }
}
