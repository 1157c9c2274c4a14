/** Any number of integrate and unintegrate runs over one file: where it can end up. */
module PromptDrift {
  import opened Text
  import opened PromptBlock
  import opened PromptLaws
  import opened PromptTheorems

  datatype Action = Integrate(prompt: string) | Unintegrate

  function Apply(st: Style, x: string, a: Action): string {
    match a case Integrate(p) => Merge(st, x, p) case Unintegrate => Remove(st, x)
  }

  function ApplyAll(st: Style, x: string, actions: seq<Action>): string {
    if actions == [] then x
    else Apply(st, ApplyAll(st, x, actions[..|actions|-1]), actions[|actions|-1])
  }

  ghost predicate MarkerFree(st: Style, x: string) {
    !Occurs(x, st.m.start) && !Occurs(x, st.m.end)
  }

  /** Prompts that do not contain the end marker; they may differ from run to run. */
  ghost predicate Harmless(st: Style, actions: seq<Action>) {
    forall a :: a in actions && a.Integrate? ==> !Occurs(TrimEnd(a.prompt), st.m.end)
  }

  // ---------- trimming ----------

  lemma TrimDropsLast(drop: char -> bool, s: string, c: char)
    requires drop(c)
    ensures TrimEndBy(drop, s + [c]) == TrimEndBy(drop, s)
  {
    assert (s + [c])[..|s|] == s;
  }

  lemma SettledForgetsGlue(st: Style, x: string)
    ensures Settled(st, x + Glue(st, x)) == Settled(st, x)
  {
    var drop := if st.RulesFile? then IsBlank else IsNewline;
    if Glue(st, x) == "\n" {
      TrimDropsLast(drop, x, '\n');
    } else if Glue(st, x) == "\n\n" {
      TrimDropsLast(drop, x, '\n');
      TrimDropsLast(drop, x + "\n", '\n');
      assert x + "\n" + "\n" == x + "\n\n";
    } else {
      assert x + "" == x;
    }
  }

  lemma SettledTwice(st: Style, x: string)
    ensures Settled(st, Settled(st, x)) == Settled(st, x)
  {
    var drop := if st.RulesFile? then IsBlank else IsNewline;
    var t := TrimEndBy(drop, x);
    TrimDropsLast(drop, t, '\n');
  }

  lemma SettledIsMarkerFree(st: Style, x: string)
    requires Proper(st.m) && MarkerFree(st, x)
    ensures MarkerFree(st, Settled(st, x))
  {
    var drop := if st.RulesFile? then IsBlank else IsNewline;
    var t := TrimEndBy(drop, x);
    if t != "" {
      NoOccurrence(x, t, st.m.start);
      NoOccurrence(x, t, st.m.end);
    }
  }

  lemma NoOccurrence(x: string, t: string, pat: string)
    requires t <= x && '\n' !in pat && pat != "" && !Occurs(x, pat)
    ensures !Occurs(t + "\n", pat) && !Occurs("", pat)
  {
    forall i: nat ensures !At(t + "\n", pat, i) {
      AtAcrossNewline(t, "", pat, i);
      assert t + "\n" + "" == t + "\n";
      AtInPrefix(t, x[|t|..], pat, i);
      assert t + x[|t|..] == x;
    }
  }

  // ---------- one merge, one remove ----------

  /** Removing a freshly appended block leaves the text with its trailing blanks settled. */
  lemma RemoveUndoesAppend(st: Style, x: string, p: string)
    requires Proper(st.m) && MarkerFree(st, x) && !Occurs(TrimEnd(p), st.m.end)
    ensures Remove(st, Merge(st, x, p)) == Settled(st, x)
  {
    var h, y := Before(st, x), Merge(st, x, p);
    BeforeIsClear(st, x);
    MergeShape(st, x, p);
    HeadIsFound(st, h, TrimEnd(p), "");
    TailIsFound(st, h, TrimEnd(p), "");
    RemoveShape(st, y);
    SettledForgetsGlue(st, x);
    assert Settled(st, x) + "" == Settled(st, x);
  }

  /** Removing after replacing a block is the same as removing the old one. */
  lemma RemoveForgetsReplace(st: Style, x: string, p: string)
    requires Proper(st.m) && Located(st, x) && !Occurs(TrimEnd(p), st.m.end)
    ensures Remove(st, Merge(st, x, p)) == Remove(st, x)
  {
    var h, t, y := HeadOf(st, x), TailOf(st, x), Merge(st, x, p);
    CutHeadIsClear(st, x);
    MergeShape(st, x, p);
    HeadIsFound(st, h, TrimEnd(p), t);
    TailIsFound(st, h, TrimEnd(p), t);
    RemoveShape(st, y);
    RemoveShape(st, x);
  }

  /** Taking out an old block shortens the text. */
  lemma RemoveShortens(st: Style, x: string)
    requires Proper(st.m) && Located(st, x)
    ensures |Remove(st, x)| < |x|
  {
    RemoveShape(st, x);
  }

  lemma BlockEndsText(st: Style, g: string, q: string)
    requires Proper(st.m) && !Occurs(g + st.m.start, st.m.end) && !Occurs(q, st.m.end)
    requires Located(st, g + Core(st, q) + "")
    ensures TailOf(st, g + Core(st, q) + "") == ""
  {
    EndPosition(st, g, q, "");
    TailAtEnd(st, g, q, "");
  }

  /** A start marker alone is taken for the start of the appended block. */
  lemma StrayStartParts(st: Style, x: string, q: string)
    requires Proper(st.m) && Occurs(x, st.m.start) && !Occurs(x, st.m.end) && !Occurs(q, st.m.end)
    ensures var y := x + Glue(st, x) + Core(st, q) + "";
            Located(st, y) && HeadOf(st, y) == x[..Find(x, st.m.start).value] && TailOf(st, y) == ""
  {
    StrayStartLocates(st, x, q);
    NoEndAfterGlue(st, x);
    BlockEndsText(st, x + Glue(st, x), q);
  }

  lemma RemoveAfterStrayStart(st: Style, x: string, p: string)
    requires Proper(st.m) && Occurs(x, st.m.start) && !Occurs(x, st.m.end) && !Occurs(TrimEnd(p), st.m.end)
    ensures Remove(st, Merge(st, x, p)) == Settled(st, x[..Find(x, st.m.start).value])
  {
    StrayStartParts(st, x, TrimEnd(p));
    MergeShape(st, x, p);
    RemoveShape(st, Merge(st, x, p));
    JoinedWithNothing(st, x[..Find(x, st.m.start).value]);
  }

  lemma JoinedWithNothing(st: Style, h: string)
    ensures Joined(st, h, "") == Settled(st, h)
  {
  }

  lemma SettledEndsInNewline(st: Style, h: string)
    ensures |Settled(st, h)| <= |h| + 1
    ensures Settled(st, h) != "" ==> Settled(st, h)[|Settled(st, h)|-1] == '\n'
  {
  }

  lemma StrayStartIsNotSettled(st: Style, x: string, s: nat)
    requires Proper(st.m) && At(x, st.m.start, s)
    ensures Settled(st, x[..s]) != x
  {
    SettledEndsInNewline(st, x[..s]);
    assert x[s] == x[s..s+|st.m.start|][0] && x[s] in st.m.start;
  }

  /** Integrating and unintegrating restores a text exactly when it holds no marker and is
      settled: empty, or ending in one line break. */
  lemma MergeThenRemoveIff(st: Style, x: string, p: string)
    requires Proper(st.m) && !Occurs(TrimEnd(p), st.m.end)
    ensures Remove(st, Merge(st, x, p)) == x <==> MarkerFree(st, x) && Settled(st, x) == x
  {
    if MarkerFree(st, x) {
      RemoveUndoesAppend(st, x, p);
    } else if Located(st, x) {
      RemoveForgetsReplace(st, x, p);
      RemoveShortens(st, x);
    } else if Occurs(x, st.m.end) {
      EndStaysFirst(st, x, p);
      RemoveShape(st, Merge(st, x, p));
    } else {
      RemoveAfterStrayStart(st, x, p);
      StrayStartIsNotSettled(st, x, Find(x, st.m.start).value);
    }
  }

  lemma MergedIsMarked(st: Style, x: string, p: string)
    requires Proper(st.m) && MarkerFree(st, x)
    ensures Merge(st, x, p) != x
  {
    BeforeIsClear(st, x);
    MergeShape(st, x, p);
    HeadIsFound(st, Before(st, x), TrimEnd(p), After(st, x));
  }

  lemma MarkerFreeIsNotLocated(st: Style, x: string)
    requires MarkerFree(st, x)
    ensures Remove(st, x) == x
  {
    RemoveShape(st, x);
  }

  lemma TailFollowsGap(st: Style, x: string)
    requires Located(st, x)
    ensures var k, m := Find(x, st.m.end).value + |st.m.end|, |x| - |TailOf(st, x)|;
            && |HeadOf(st, x)| == Find(x, st.m.start).value <= k <= m <= |x|
            && x[..|HeadOf(st, x)|] == HeadOf(st, x) && x[m..] == TailOf(st, x)
            && (x[k..m] == "" || x[k..m] == "\n")
  {
  }

  /** A merge keeps the text before the start marker and after the end marker, but for at
      most one line break right after it. */
  lemma MergeKeepsUserText(st: Style, x: string, p: string) returns (block: string, gap: string)
    requires Located(st, x)
    ensures gap == "" || gap == "\n"
    ensures x == HeadOf(st, x) + block + gap + TailOf(st, x)
    ensures Merge(st, x, p) == HeadOf(st, x) + Core(st, TrimEnd(p)) + TailOf(st, x)
  {
    MergeShape(st, x, p);
    TailFollowsGap(st, x);
    var i, k, m := |HeadOf(st, x)|, Find(x, st.m.end).value + |st.m.end|, |x| - |TailOf(st, x)|;
    block, gap := x[i..k], x[k..m];
    FourParts(x, i, k, m);
  }

  lemma FourParts(x: string, i: nat, j: nat, k: nat)
    requires i <= j <= k <= |x|
    ensures x == x[..i] + x[i..j] + x[j..k] + x[k..]
  {
  }

  // ---------- whole histories ----------

  predicate Integrated(actions: seq<Action>) {
    exists i :: 0 <= i < |actions| && actions[i].Integrate?
  }

  /** Some integrate was followed, sooner or later, by an unintegrate. */
  predicate Cycled(actions: seq<Action>) {
    exists i, j :: 0 <= i < j < |actions| && actions[i].Integrate? && actions[j].Unintegrate?
  }

  function Base(st: Style, x: string, actions: seq<Action>): string {
    if Cycled(actions) then Settled(st, x) else x
  }

  function Outcome(st: Style, x: string, actions: seq<Action>): string {
    if actions != [] && actions[|actions|-1].Integrate?
    then Merge(st, Base(st, x, actions), actions[|actions|-1].prompt)
    else Base(st, x, actions)
  }

  lemma PrefixFacts(actions: seq<Action>)
    requires actions != []
    ensures var front, last := actions[..|actions|-1], actions[|actions|-1];
            Cycled(actions) <==> Cycled(front) || (last.Unintegrate? && Integrated(front))
  {
    var front, last := actions[..|actions|-1], actions[|actions|-1];
    if Cycled(actions) {
      var i, j :| 0 <= i < j < |actions| && actions[i].Integrate? && actions[j].Unintegrate?;
      assert front[i].Integrate?;
      if j < |front| { assert front[j].Unintegrate?; }
    }
    if Cycled(front) {
      var i, j :| 0 <= i < j < |front| && front[i].Integrate? && front[j].Unintegrate?;
      assert actions[i].Integrate? && actions[j].Unintegrate?;
    }
    if last.Unintegrate? && Integrated(front) {
      var i :| 0 <= i < |front| && front[i].Integrate?;
      assert actions[i].Integrate? && actions[|front|].Unintegrate?;
    }
  }

  lemma BaseIsMarkerFree(st: Style, x: string, actions: seq<Action>)
    requires Proper(st.m) && MarkerFree(st, x)
    ensures MarkerFree(st, Base(st, x, actions))
    ensures Settled(st, Base(st, x, actions)) == Settled(st, x)
  {
    SettledIsMarkerFree(st, x);
    SettledTwice(st, x);
  }

  /** No drift: whatever the history, the file is the original text, or the original text
      settled once, with at most the last prompt's block appended. */
  lemma {:induction false} HistoryIsForgotten(st: Style, x: string, actions: seq<Action>)
    requires Proper(st.m) && MarkerFree(st, x) && Harmless(st, actions)
    ensures ApplyAll(st, x, actions) == Outcome(st, x, actions)
  {
    if actions != [] {
      var front, last := actions[..|actions|-1], actions[|actions|-1];
      HistoryIsForgotten(st, x, front);
      PrefixFacts(actions);
      BaseIsMarkerFree(st, x, front);
      var b := Base(st, x, front);
      if front != [] && front[|front|-1].Integrate? {
        var p := front[|front|-1].prompt;
        assert front[|front|-1] in actions && Integrated(front);
        match last
        case Integrate(p') => LastWriterWinsIff(st, b, p, p');
        case Unintegrate => RemoveUndoesAppend(st, b, p);
      } else {
        if last.Unintegrate? {
          MarkerFreeIsNotLocated(st, b);
          EndsUnintegrated(front);
        }
      }
    }
  }

  lemma EndsUnintegrated(actions: seq<Action>)
    requires actions == [] || actions[|actions|-1].Unintegrate?
    ensures Integrated(actions) ==> Cycled(actions)
  {
    if Integrated(actions) {
      var i :| 0 <= i < |actions| && actions[i].Integrate?;
      assert actions[|actions|-1].Unintegrate?;
    }
  }
}
