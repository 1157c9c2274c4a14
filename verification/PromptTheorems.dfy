/** Last writer wins, idempotence and absence of drift for the managed prompt block:
    when they hold, exactly. */
module PromptTheorems {
  import opened Options
  import opened Text
  import opened PromptBlock
  import opened PromptLaws

  lemma MergeOntoWellFormed(st: Style, x: string, p1: string, p2: string)
    requires Proper(st.m) && WellFormed(st, x)
    ensures var y := Merge(st, x, p1);
            Located(st, y) && Merge(st, y, p2) == Before(st, x) + Core(st, TrimEnd(p2)) + TailOf(st, y)
  {
    var h := Before(st, x);
    BeforeIsClear(st, x);
    MergeShape(st, x, p1);
    HeadIsFound(st, h, TrimEnd(p1), After(st, x));
    MergeShape(st, Merge(st, x, p1), p2);
  }

  lemma WellFormedCase(st: Style, x: string, p1: string, p2: string)
    requires Proper(st.m) && WellFormed(st, x)
    ensures Merge(st, Merge(st, x, p1), p2) == Merge(st, x, p2) <==> !Occurs(TrimEnd(p1), st.m.end)
  {
    var h, t := Before(st, x), After(st, x);
    BeforeIsClear(st, x);
    MergeShape(st, x, p1);
    MergeShape(st, x, p2);
    MergeOntoWellFormed(st, x, p1, p2);
    if Occurs(TrimEnd(p1), st.m.end) {
      TailIsLonger(st, h, TrimEnd(p1), t);
    } else {
      TailIsFound(st, h, TrimEnd(p1), t);
    }
  }

  /** An end marker that comes first keeps coming first. */
  lemma EndStaysFirst(st: Style, x: string, p: string)
    requires Proper(st.m) && !Located(st, x) && Occurs(x, st.m.end)
    ensures !Located(st, Merge(st, x, p))
    ensures Merge(st, x, p) == x + Glue(st, x) + Core(st, TrimEnd(p))
  {
    var m, core := st.m, Core(st, TrimEnd(p));
    var y, k := Merge(st, x, p), Find(x, m.end).value;
    MergeShape(st, x, p);
    AppendTwo(x, Glue(st, x), core);
    FindInPrefix(x, Glue(st, x) + core + "", m.end);
    forall i: nat | i < k ensures !At(y, m.start, i) { AtAcrossGlue(st, x, core, m.start, i); }
  }

  /** So every merge appends one more block. */
  lemma EndFirstCase(st: Style, x: string, p1: string, p2: string)
    requires Proper(st.m) && !Located(st, x) && Occurs(x, st.m.end)
    ensures |Merge(st, Merge(st, x, p1), p2)| > |Merge(st, x, p2)|
  {
    EndStaysFirst(st, x, p1);
    MergeShape(st, Merge(st, x, p1), p2);
    MergeShape(st, x, p2);
  }

  /** A start marker without an end: the first merge appends, the second replaces from the
      stray marker on, and what stood after it is gone. */
  lemma StrayStartResult(st: Style, x: string, p1: string, p2: string)
    requires Proper(st.m) && Occurs(x, st.m.start) && !Occurs(x, st.m.end)
    ensures var s, y := Find(x, st.m.start).value, Merge(st, x, p1);
            && y == x + Glue(st, x) + Core(st, TrimEnd(p1))
            && Located(st, y)
            && Merge(st, y, p2) == x[..s] + Core(st, TrimEnd(p2)) + TailOf(st, y)
            && (!Occurs(TrimEnd(p1), st.m.end) ==> Merge(st, y, p2) == x[..s] + Core(st, TrimEnd(p2)))
  {
    var g, q1 := x + Glue(st, x), TrimEnd(p1);
    MergeShape(st, x, p1);
    StrayStartLocates(st, x, q1);
    assert g + Core(st, q1) + "" == g + Core(st, q1);
    MergeShape(st, Merge(st, x, p1), p2);
    NoEndAfterGlue(st, x);
    EndPosition(st, g, q1, "");
    if !Occurs(q1, st.m.end) { TailAtEnd(st, g, q1, ""); }
  }

  lemma StrayStartCase(st: Style, x: string, p1: string, p2: string)
    requires Proper(st.m) && Occurs(x, st.m.start) && !Occurs(x, st.m.end)
    ensures Merge(st, Merge(st, x, p1), p2) != Merge(st, x, p2)
  {
    var m, g, s := st.m, x + Glue(st, x), Find(x, st.m.start).value;
    var q2, y := TrimEnd(p2), Merge(st, x, p1);
    StrayStartResult(st, x, p1, p2);
    MergeShape(st, x, p2);
    NoEndAfterGlue(st, x);
    EndPosition(st, g, q2, "");
    StrayHead(st, x, s);
    EndPosition(st, x[..s], q2, TailOf(st, y));
  }

  lemma EndPosition(st: Style, h: string, body: string, t: string)
    requires Proper(st.m) && !Occurs(h + st.m.start, st.m.end)
    ensures Find(h + Core(st, body) + t, st.m.end) == Some(|h| + |st.m.start| + 1 + EndWithin(st.m, body))
  {
    RegroupBlock(h, st.m.start, body, st.m.end, Closing(st), t);
    FindsEnd(st.m, h, body, Closing(st) + t);
  }

  lemma FindInPrefix(x: string, rest: string, pat: string)
    requires Occurs(x, pat)
    ensures Find(x + rest, pat) == Find(x, pat)
  {
    var k := Find(x, pat).value;
    AtInPrefix(x, rest, pat, k);
    forall i: nat | i < k ensures !At(x + rest, pat, i) { AtInPrefix(x, rest, pat, i); }
    FindIs(x + rest, pat, k);
  }

  lemma StrayStartLocates(st: Style, x: string, body: string)
    requires Proper(st.m) && Occurs(x, st.m.start) && !Occurs(x, st.m.end)
    ensures var y := x + Glue(st, x) + Core(st, body) + "";
            Located(st, y) && HeadOf(st, y) == x[..Find(x, st.m.start).value]
  {
    var rest := Glue(st, x) + Core(st, body) + "";
    AppendTwo(x, Glue(st, x), Core(st, body));
    FindInPrefix(x, rest, st.m.start);
    NoEndAfterGlue(st, x);
    EndPosition(st, x + Glue(st, x), body, "");
  }

  lemma AppendTwo(a: string, b: string, c: string)
    ensures a + b + c + "" == a + (b + c + "")
  {
  }

  lemma StrayHead(st: Style, x: string, s: nat)
    requires Proper(st.m) && At(x, st.m.start, s) && !Occurs(x, st.m.end)
    ensures !Occurs(x[..s] + st.m.start, st.m.end)
  {
    var w := x[..s] + st.m.start;
    assert x == w + x[|w|..];
    forall i: nat ensures !At(w, st.m.end, i) { AtInPrefix(w, x[|w|..], st.m.end, i); }
  }

  /** Last writer wins, exactly: merging p2 after p1 is the same as merging p2 alone if and
      only if the file's markers are absent or in order, and p1 as written does not contain
      the end marker. */
  lemma LastWriterWinsIff(st: Style, x: string, p1: string, p2: string)
    requires Proper(st.m)
    ensures Merge(st, Merge(st, x, p1), p2) == Merge(st, x, p2)
       <==> WellFormed(st, x) && !Occurs(TrimEnd(p1), st.m.end)
  {
    if WellFormed(st, x) {
      WellFormedCase(st, x, p1, p2);
    } else if Occurs(x, st.m.end) {
      EndFirstCase(st, x, p1, p2);
    } else {
      StrayStartCase(st, x, p1, p2);
    }
  }

  /** The two places the program uses it. */
  lemma MergeIsIdempotentIff(x: string, prompt: string)
    ensures MergeSystemPrompt(SYSTEM_PROMPT, MergeSystemPrompt(SYSTEM_PROMPT, x, prompt), prompt)
         == MergeSystemPrompt(SYSTEM_PROMPT, x, prompt)
       <==> WellFormed(RulesFile(SYSTEM_PROMPT), x) && !Occurs(TrimEnd(prompt), SYSTEM_PROMPT_MARKER_END)
    ensures MergeJsonPrompt(JSON_PROMPT, MergeJsonPrompt(JSON_PROMPT, x, prompt), prompt)
         == MergeJsonPrompt(JSON_PROMPT, x, prompt)
       <==> WellFormed(JsonField(JSON_PROMPT), x) && !Occurs(TrimEnd(prompt), JSON_MARKER_END)
  {
    SystemPromptIsProper();
    JsonPromptIsProper();
    LastWriterWinsIff(RulesFile(SYSTEM_PROMPT), x, prompt, prompt);
    LastWriterWinsIff(JsonField(JSON_PROMPT), x, prompt, prompt);
  }
}
