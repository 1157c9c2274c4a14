/** Ownership of hook entries is decided per entry; what that means for single hooks
    (crates/mnem-cli/src/integrate.rs:1879-1955). */
module HookOwnership {
  import opened Json
  import opened HookLists
  import opened HostConfig
  import opened HostConfigLaws

  function Inner(entry: Json): seq<Json> {
    match Lookup(entry, ["hooks"])
    case Some(Arr(hooks)) => hooks
    case _ => []
  }

  /** The hooks of an entry that do not run this program. */
  function OthersIn(entry: Json): seq<Json> {
    Foreign(HasMnemCommand, Inner(entry))
  }

  function OtherHooks(root: Json): seq<Json> {
    Gather(OthersIn, Items(root, PROMPT_HOOKS))
  }

  /** No entry lists a hook of this program beside a hook of another tool. */
  ghost predicate NoneMixes(root: Json) {
    OwnedHaveNone(EntryIsMnemHook, OthersIn, Items(root, PROMPT_HOOKS))
  }

  lemma OurValueHasNoOthers(dir: string)
    ensures OthersIn(UserPromptHookValue(dir + "mnem")) == []
  {
    var v := UserPromptHookValue(dir + "mnem");
    var inner := Obj(map["type" := Str("command"), "command" := Str(HookCommand(dir + "mnem"))]);
    HookCommandIsOurs(dir);
    OneKey(v, "hooks", EMPTY);
    OneKey(inner, "command", EMPTY);
    assert Inner(v) == [inner] && HasMnemCommand(inner);
    assert Foreign(HasMnemCommand, [inner]) == [] by { assert [inner][..0] == []; }
  }

  lemma RemovedKeepsOthersIff(root: Json)
    ensures OtherHooks(HookRemoved(root).0) == OtherHooks(root) <==> NoneMixes(root)
    ensures NoneMixes(HookRemoved(root).0)
  {
    var items := Items(root, PROMPT_HOOKS);
    HookRemovedItems(root);
    DroppingKeepsPartsIff(EntryIsMnemHook, OthersIn, items);
    forall e | e in Foreign(EntryIsMnemHook, items) ensures !EntryIsMnemHook(e) {
      KeptAreMembers(EntryIsMnemHook, items, e);
    }
  }

  lemma SetKeepsOthers(root: Json, dir: string)
    requires NoneMixes(root)
    ensures var after := HookSet(root, UserPromptHookValue(dir + "mnem")).0;
            NoneMixes(after) && OtherHooks(after) == OtherHooks(root)
  {
    OurValueHasNoOthers(dir);
    HookSetItems(root, UserPromptHookValue(dir + "mnem"));
    PlacingKeepsParts(EntryIsMnemHook, OthersIn, Items(root, PROMPT_HOOKS), UserPromptHookValue(dir + "mnem"));
  }

  ghost predicate Keeps(root: Json, after: Json) {
    NoneMixes(after) && OtherHooks(after) == OtherHooks(root)
  }

  lemma EditKeepsOthers(root: Json, e: HookEdit)
    requires NoneMixes(root)
    ensures Keeps(root, Edited(root, e))
  {
    match e
    case SetHook(dir) => SetKeepsOthers(root, dir);
    case RemoveHook => RemovedKeepsOthersIff(root);
  }

  lemma KeepsChain(a: Json, b: Json, c: Json)
    requires Keeps(a, b) && Keeps(b, c)
    ensures Keeps(a, c)
  {
  }

  lemma EditedSnoc(root: Json, edits: seq<HookEdit>)
    requires edits != []
    ensures EditedAll(root, edits) == Edited(EditedAll(root, edits[..|edits|-1]), edits[|edits|-1])
  {
  }

  lemma {:induction false} EditsKeepOthers(root: Json, edits: seq<HookEdit>)
    requires NoneMixes(root)
    ensures Keeps(root, EditedAll(root, edits))
  {
    if edits != [] {
      var before := EditedAll(root, edits[..|edits|-1]);
      EditsKeepOthers(root, edits[..|edits|-1]);
      EditKeepsOthers(before, edits[|edits|-1]);
      EditedSnoc(root, edits);
      KeepsChain(root, before, Edited(before, edits[|edits|-1]));
    }
  }

  lemma OneRemoval(root: Json)
    ensures EditedAll(root, [RemoveHook]) == HookRemoved(root).0
  {
    assert [RemoveHook][..0] == [];
  }

  /** The hooks of other tools are as they were, in order, after every history. */
  ghost predicate OthersAlwaysSurvive(root: Json) {
    forall edits :: OtherHooks(EditedAll(root, edits)) == OtherHooks(root)
  }

  /** They do exactly when no entry of the document mixes them with ours; where one does, a
      single removal takes them with it. */
  lemma OtherHooksSurviveIff(root: Json)
    ensures OthersAlwaysSurvive(root) <==> NoneMixes(root)
    ensures !NoneMixes(root) ==> OtherHooks(HookRemoved(root).0) != OtherHooks(root)
  {
    RemovedKeepsOthersIff(root);
    OneRemoval(root);
    if NoneMixes(root) {
      forall edits ensures OtherHooks(EditedAll(root, edits)) == OtherHooks(root) {
        EditsKeepOthers(root, edits);
      }
    }
  }
}
