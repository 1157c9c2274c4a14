/** What merging and removing the managed block guarantee, for both kinds of host file. */
module PromptLaws {
  import opened Options
  import opened Text
  import opened PromptBlock

  datatype Style = RulesFile(m: Markers) | JsonField(m: Markers)

  function Merge(st: Style, x: string, prompt: string): string {
    if st.RulesFile? then MergeSystemPrompt(st.m, x, prompt) else MergeJsonPrompt(st.m, x, prompt)
  }

  function Remove(st: Style, x: string): string {
    if st.RulesFile? then RemovedSystemPrompt(st.m, x) else RemoveJsonPrompt(st.m, x)
  }

  // ---------- the two styles in one shape ----------

  /** The block from its start marker on. */
  function Core(st: Style, body: string): string {
    st.m.start + "\n" + body + "\n" + (st.m.end + Closing(st))
  }

  function Closing(st: Style): string {
    if st.RulesFile? then "\n" else ""
  }

  /** Line breaks put between existing text and a new block. */
  function Glue(st: Style, x: string): string {
    if st.JsonField? then "\n"
    else if x == "" || EndsWith(x, "\n\n") then ""
    else if EndsWith(x, "\n") then "\n"
    else "\n\n"
  }

  predicate Located(st: Style, x: string) {
    var start, end := Find(x, st.m.start), Find(x, st.m.end);
    start.Some? && end.Some? && end.value > start.value
  }

  function HeadOf(st: Style, x: string): string
    requires Located(st, x)
  {
    x[..Find(x, st.m.start).value]
  }

  function TailOf(st: Style, x: string): string
    requires Located(st, x)
  {
    var tail := Find(x, st.m.end).value + |st.m.end|;
    if st.RulesFile? then x[PastNewline(x, tail)..] else x[tail..]
  }

  function Before(st: Style, x: string): string {
    if Located(st, x) then HeadOf(st, x) else x + Glue(st, x)
  }

  function After(st: Style, x: string): string {
    if Located(st, x) then TailOf(st, x) else ""
  }

  lemma MergeShape(st: Style, x: string, prompt: string)
    ensures Merge(st, x, prompt) == Before(st, x) + Core(st, TrimEnd(prompt)) + After(st, x)
  {
    if st.RulesFile? {
      MergeRulesShape(st, x, TrimEnd(prompt), prompt);
    } else {
      MergeJsonShape(st, x, TrimEnd(prompt), prompt);
    }
  }

  lemma RulesBlock(s: string, q: string, e: string)
    ensures s + "\n" + q + "\n" + e + "\n" == s + "\n" + q + "\n" + (e + "\n")
  {
  }

  lemma MergeRulesShape(st: Style, x: string, q: string, prompt: string)
    requires st.RulesFile? && q == TrimEnd(prompt)
    ensures MergeSystemPrompt(st.m, x, prompt) == Before(st, x) + Core(st, q) + After(st, x)
  {
    RulesBlock(st.m.start, q, st.m.end);
    if !Located(st, x) {
      assert x == "" ==> x + Glue(st, x) + Core(st, q) == Core(st, q);
      assert x + "" == x;
    }
  }

  lemma JsonBlock(s: string, q: string, e: string)
    ensures "\n" + s + "\n" + q + "\n" + e == "\n" + (s + "\n" + q + "\n" + (e + ""))
  {
  }

  lemma MergeJsonShape(st: Style, x: string, q: string, prompt: string)
    requires st.JsonField? && q == TrimEnd(prompt)
    ensures MergeJsonPrompt(st.m, x, prompt) == Before(st, x) + Core(st, q) + After(st, x)
  {
    JsonBlock(st.m.start, q, st.m.end);
    assert ("\n" + Core(st, q))[1..] == Core(st, q);
  }

  /** Text without a block, as a remove leaves it: trailing blanks become one line break. */
  function Settled(st: Style, h: string): string {
    var t := if st.RulesFile? then TrimEndBy(IsBlank, h) else TrimEndBy(IsNewline, h);
    if t == "" then "" else t + "\n"
  }

  lemma RemoveShape(st: Style, x: string)
    ensures Remove(st, x) == if Located(st, x) then Joined(st, HeadOf(st, x), TailOf(st, x)) else x
  {
    if st.RulesFile? && Located(st, x) {
      LastIsNoBreak(TrimEndBy(IsBlank, HeadOf(st, x)));
    }
  }

  /** Head and tail around a removed block. */
  function Joined(st: Style, h: string, t: string): string {
    if st.JsonField? && t != "" && Settled(st, h) == "" then "\n" + t else Settled(st, h) + t
  }

  lemma LastIsNoBreak(t: string)
    requires t != "" ==> t[|t|-1] != '\n'
    ensures !EndsWith(t, "\n")
  {
  }

  // ---------- where the markers are after a merge ----------

  /** Nothing in h, nor across its end, can be taken for a marker of a block that follows. */
  ghost predicate Clear(m: Markers, h: string) {
    && (forall i: nat :: i < |h| ==> !At(h + m.start, m.start, i))
    && !Occurs(h + m.start, m.end)
  }

  lemma FindsStart(m: Markers, h: string, y: string)
    requires Proper(m) && Clear(m, h)
    ensures Find(h + m.start + y, m.start) == Some(|h|)
  {
    var x := h + m.start + y;
    assert x[|h|..|h|+|m.start|] == m.start;
    forall i: nat | i < |h| ensures !At(x, m.start, i) {
      AtInPrefix(h + m.start, y, m.start, i);
    }
    FindIs(x, m.start, |h|);
  }

  /** Where the first end marker shows up behind body: inside it, or after it. */
  function EndWithin(m: Markers, body: string): nat {
    match Find(body, m.end) case Some(j) => j case None => |body| + 1
  }

  lemma FindsEndBehind(m: Markers, body: string, y: string)
    requires Proper(m)
    ensures Find(body + "\n" + (m.end + y), m.end) == Some(EndWithin(m, body))
  {
    var x, k := body + "\n" + (m.end + y), EndWithin(m, body);
    assert At(m.end + y, m.end, 0);
    forall i: nat
      ensures At(x, m.end, i) <==> At(body, m.end, i) || (i > |body| && At(m.end + y, m.end, i - |body| - 1))
    {
      AtAcrossNewline(body, m.end + y, m.end, i);
    }
    FindIs(x, m.end, k);
  }

  lemma FindAfterNewline(w: string, z: string, pat: string)
    requires '\n' !in pat && pat != "" && !Occurs(w, pat) && Occurs(z, pat)
    ensures Find(w + "\n" + z, pat) == Some(|w| + 1 + Find(z, pat).value)
  {
    var x, k := w + "\n" + z, |w| + 1 + Find(z, pat).value;
    AtAcrossNewline(w, z, pat, k);
    forall i: nat | i < k ensures !At(x, pat, i) { AtAcrossNewline(w, z, pat, i); }
    FindIs(x, pat, k);
  }

  lemma FindsEnd(m: Markers, h: string, body: string, y: string)
    requires Proper(m) && !Occurs(h + m.start, m.end)
    ensures Find(h + m.start + "\n" + (body + "\n" + (m.end + y)), m.end) == Some(|h| + |m.start| + 1 + EndWithin(m, body))
  {
    var w, z := h + m.start, body + "\n" + (m.end + y);
    FindsEndBehind(m, body, y);
    FindAfterNewline(w, z, m.end);
  }

  lemma RegroupBlock(h: string, s: string, q: string, e: string, c: string, t: string)
    ensures h + (s + "\n" + q + "\n" + (e + c)) + t == h + s + "\n" + (q + "\n" + (e + (c + t)))
    ensures h + (s + "\n" + q + "\n" + (e + c)) + t == h + s + ("\n" + (q + "\n" + (e + (c + t))))
  {
  }

  /** A file with a block behind a clear head is located there. */
  lemma BlockIsLocated(st: Style, h: string, body: string, t: string)
    requires Proper(st.m) && Clear(st.m, h)
    ensures var x := h + Core(st, body) + t;
            Find(x, st.m.start) == Some(|h|)
            && Find(x, st.m.end) == Some(|h| + |st.m.start| + 1 + EndWithin(st.m, body))
  {
    var m, c := st.m, Closing(st);
    RegroupBlock(h, m.start, body, m.end, c, t);
    FindsStart(m, h, "\n" + (body + "\n" + (m.end + (c + t))));
    FindsEnd(m, h, body, c + t);
  }

  lemma HeadIsFound(st: Style, h: string, body: string, t: string)
    requires Proper(st.m) && Clear(st.m, h)
    ensures var x := h + Core(st, body) + t; Located(st, x) && HeadOf(st, x) == h
  {
    BlockIsLocated(st, h, body, t);
  }

  lemma TailIsFound(st: Style, h: string, body: string, t: string)
    requires Proper(st.m) && Clear(st.m, h) && !Occurs(body, st.m.end)
    ensures var x := h + Core(st, body) + t; Located(st, x) && TailOf(st, x) == t
  {
    BlockIsLocated(st, h, body, t);
    TailAtEnd(st, h, body, t);
  }

  lemma TailAtEnd(st: Style, h: string, body: string, t: string)
    requires !Occurs(body, st.m.end) && Located(st, h + Core(st, body) + t)
    requires Find(h + Core(st, body) + t, st.m.end) == Some(|h| + |st.m.start| + 1 + EndWithin(st.m, body))
    ensures TailOf(st, h + Core(st, body) + t) == t
  {
    var x, k := h + Core(st, body) + t, |h| + |st.m.start| + 2 + |body|;
    SplitAtEnd(h, st.m.start, body, st.m.end, Closing(st), t);
    if st.RulesFile? {
      assert x[k + |st.m.end|] == (Closing(st) + t)[0];
      assert (Closing(st) + t)[1..] == t;
      assert x[k + |st.m.end| + 1..] == x[k + |st.m.end|..][1..];
    } else {
      assert Closing(st) + t == t;
    }
  }

  lemma SplitAtEnd(h: string, s: string, q: string, e: string, c: string, t: string)
    ensures (h + (s + "\n" + q + "\n" + (e + c)) + t)[|h| + |s| + 2 + |q| + |e|..] == c + t
  {
  }

  /** If the body contains the end marker, the located tail is longer than the real one. */
  lemma TailIsLonger(st: Style, h: string, body: string, t: string)
    requires Proper(st.m) && Clear(st.m, h) && Occurs(body, st.m.end)
    ensures var x := h + Core(st, body) + t; Located(st, x) && |TailOf(st, x)| > |t|
  {
    BlockIsLocated(st, h, body, t);
  }

  // ---------- clear heads ----------

  lemma AtAcrossGlue(st: Style, x: string, y: string, pat: string, i: nat)
    requires '\n' !in pat && pat != ""
    ensures var g := x + Glue(st, x);
            At(g + y, pat, i) ==> At(x, pat, i) || (i >= |g| && At(y, pat, i - |g|))
  {
    var g := x + Glue(st, x);
    if g == "" {
      assert g + y == y;
    } else {
      GluedEndsInNewline(st, x);
      var front := g[..|g|-1];
      assert g + y == front + "\n" + y by { assert g == front + "\n"; }
      AtAcrossNewline(front, y, pat, i);
      if At(front, pat, i) { FrontOccurrence(st, x, front, pat, i); }
    }
  }

  lemma GluedEndsInNewline(st: Style, x: string)
    ensures var g := x + Glue(st, x);
            g != "" ==> g[|g|-1] == '\n' && (g[..|g|-1] <= x || g[..|g|-1] == x + "\n")
  {
    if st.RulesFile? && EndsWith(x, "\n\n") { assert x[|x|-2..][1] == '\n'; }
  }

  lemma FrontOccurrence(st: Style, x: string, front: string, pat: string, i: nat)
    requires '\n' !in pat && pat != "" && At(front, pat, i)
    requires front <= x || front == x + "\n"
    ensures At(x, pat, i)
  {
    if front == x + "\n" {
      AtAcrossNewline(x, "", pat, i);
      assert front == x + "\n" + "";
    } else {
      AtInPrefix(front, x[|front|..], pat, i);
      assert front + x[|front|..] == x;
    }
  }

  /** A file whose markers are both absent, or in order. */
  ghost predicate WellFormed(st: Style, x: string) {
    Located(st, x) || (!Occurs(x, st.m.start) && !Occurs(x, st.m.end))
  }

  lemma NoEarlierStart(st: Style, x: string, i: nat)
    requires Proper(st.m) && !Occurs(x, st.m.start) && i < |x + Glue(st, x)|
    ensures !At(x + Glue(st, x) + st.m.start, st.m.start, i)
  {
    AtAcrossGlue(st, x, st.m.start, st.m.start, i);
  }

  lemma AppendedHeadIsClear(st: Style, x: string, h: string)
    requires Proper(st.m) && !Occurs(x, st.m.start) && !Occurs(x, st.m.end) && h == x + Glue(st, x)
    ensures Clear(st.m, h)
  {
    forall i: nat | i < |h| ensures !At(h + st.m.start, st.m.start, i) { NoEarlierStart(st, x, i); }
    NoEndAfterGlue(st, x);
  }

  lemma NoEndAfterGlue(st: Style, x: string)
    requires Proper(st.m) && !Occurs(x, st.m.end)
    ensures !Occurs(x + Glue(st, x) + st.m.start, st.m.end)
  {
    forall i: nat ensures !At(x + Glue(st, x) + st.m.start, st.m.end, i) { NoEndAt(st, x, i); }
  }

  lemma NoEndAt(st: Style, x: string, i: nat)
    requires Proper(st.m) && !Occurs(x, st.m.end)
    ensures !At(x + Glue(st, x) + st.m.start, st.m.end, i)
  {
    var h := x + Glue(st, x);
    AtAcrossGlue(st, x, st.m.start, st.m.end, i);
    if i >= |h| { NoEndInStart(st.m, i - |h|); }
  }

  lemma NoEndInStart(m: Markers, i: nat)
    requires Proper(m)
    ensures !At(m.start, m.end, i)
  {
    if 0 < i && i + |m.end| <= |m.start| {
      assert m.start[1..][i-1] == m.start[i..i+|m.end|][0];
    }
  }

  lemma CutHeadIsClear(st: Style, x: string)
    requires Proper(st.m) && Located(st, x)
    ensures Clear(st.m, HeadOf(st, x))
  {
    var m, h := st.m, HeadOf(st, x);
    var w := h + m.start;
    assert x == w + x[|w|..];
    forall i: nat | i < |h| ensures !At(w, m.start, i) { AtInPrefix(w, x[|w|..], m.start, i); }
    forall i: nat ensures !At(w, m.end, i) {
      AtInPrefix(w, x[|w|..], m.end, i);
      if i >= |h| {
        AtInSuffix(h, m.start, m.end, i - |h|);
        NoEndInStart(m, i - |h|);
      }
    }
  }

  lemma BeforeIsClear(st: Style, x: string)
    requires Proper(st.m) && WellFormed(st, x)
    ensures Clear(st.m, Before(st, x))
  {
    if Located(st, x) { CutHeadIsClear(st, x); } else { AppendedHeadIsClear(st, x, x + Glue(st, x)); }
  }
}
