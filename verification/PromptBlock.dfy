/** The managed prompt block in a host's rules file, or in a string field of its JSON
    config: merging and removing (crates/mnem-cli/src/integrate.rs). Text is a sequence of
    characters; the markers are ASCII, so the byte offsets of the program cut it alike. */
module PromptBlock {
  import opened Text

  datatype Markers = Markers(start: string, end: string)

  const SYSTEM_PROMPT_MARKER_START := "<!-- mnem-system-prompt:v1:start -->"
  const SYSTEM_PROMPT_MARKER_END := "<!-- mnem-system-prompt:v1:end -->"
  const JSON_MARKER_START := "[mnem-prompt:start]"
  const JSON_MARKER_END := "[mnem-prompt:end]"

  const SYSTEM_PROMPT := Markers(SYSTEM_PROMPT_MARKER_START, SYSTEM_PROMPT_MARKER_END)
  const JSON_PROMPT := Markers(JSON_MARKER_START, JSON_MARKER_END)

  /** All that the two pairs of markers are relied on for. */
  ghost predicate Proper(m: Markers) {
    && '\n' !in m.start && '\n' !in m.end && m.start != "" && m.end != ""
    && m.end[0] !in m.start[1..]
    && !At(m.start, m.end, 0)
  }

  lemma SystemPromptIsProper()
    ensures Proper(SYSTEM_PROMPT)
  {
    SystemPromptLines();
    forall k | 0 < k < |SYSTEM_PROMPT_MARKER_START| ensures SYSTEM_PROMPT_MARKER_START[k] != '<' { SystemPromptChar(k); }
    NotInTail(SYSTEM_PROMPT_MARKER_START, '<');
    DifferAt(SYSTEM_PROMPT_MARKER_START, SYSTEM_PROMPT_MARKER_END, 27);
  }

  lemma SystemPromptChar(k: nat)
    requires 0 < k < |SYSTEM_PROMPT_MARKER_START|
    ensures SYSTEM_PROMPT_MARKER_START[k] != '<'
  {
  }

  lemma SystemPromptLines()
    ensures '\n' !in SYSTEM_PROMPT_MARKER_START && '\n' !in SYSTEM_PROMPT_MARKER_END
  {
  }

  lemma JsonPromptIsProper()
    ensures Proper(JSON_PROMPT)
  {
    JsonPromptLines();
    forall k | 0 < k < |JSON_MARKER_START| ensures JSON_MARKER_START[k] != '[' { JsonPromptChar(k); }
    NotInTail(JSON_MARKER_START, '[');
    DifferAt(JSON_MARKER_START, JSON_MARKER_END, 13);
  }

  lemma JsonPromptChar(k: nat)
    requires 0 < k < |JSON_MARKER_START|
    ensures JSON_MARKER_START[k] != '['
  {
  }

  lemma JsonPromptLines()
    ensures '\n' !in JSON_MARKER_START && '\n' !in JSON_MARKER_END
  {
  }

  lemma NotInTail(s: string, c: char)
    requires s != "" && forall k :: 0 < k < |s| ==> s[k] != c
    ensures c !in s[1..]
  {
  }

  lemma DifferAt(s: string, pat: string, k: nat)
    requires k < |s| && k < |pat| && s[k] != pat[k]
    ensures !At(s, pat, 0)
  {
    if |pat| <= |s| { assert s[0..0+|pat|][k] == s[k]; }
  }

  // ---------- rules files ----------

  /** Skips the line break after a block. */
  function PastNewline(s: string, i: nat): (r: nat)
    requires i <= |s|
    ensures i <= r <= |s|
  {
    if i < |s| && s[i] == '\n' then i + 1 else i
  }

  function MergeSystemPrompt(m: Markers, existing: string, prompt: string): string {
    var block := m.start + "\n" + TrimEnd(prompt) + "\n" + m.end + "\n";
    var start, end := Find(existing, m.start), Find(existing, m.end);
    if start.Some? && end.Some? && end.value > start.value then
      existing[..start.value] + block + existing[PastNewline(existing, end.value + |m.end|)..]
    else if existing == "" then
      block
    else
      var needsSeparator := !EndsWith(existing, "\n\n");
      var separator := if EndsWith(existing, "\n") then "\n" else "\n\n";
      if needsSeparator then existing + separator + block else existing + block
  }

  predicate EndsWith(s: string, suffix: string) {
    |suffix| <= |s| && s[|s|-|suffix|..] == suffix
  }

  lemma EndsWithIff(s: string, suffix: string)
    ensures EndsWith(s, suffix) <==> exists p :: s == p + suffix
  {
    if EndsWith(s, suffix) { assert s == s[..|s|-|suffix|] + suffix; }
  }

  predicate IsBlank(c: char) {
    c == '\n' || c == ' ' || c == '\r' || c == '\t'
  }

  function Terminated(head: string): string {
    if head != "" && !EndsWith(head, "\n") then head + "\n" else head
  }

  function KeptHead(existing: string, start: nat): string
    requires start <= |existing|
  {
    Terminated(TrimEndBy(IsBlank, existing[..start]))
  }

  function RemovedSystemPrompt(m: Markers, existing: string): string {
    var start, end := Find(existing, m.start), Find(existing, m.end);
    if start.Some? && end.Some? && end.value > start.value then
      KeptHead(existing, start.value) + existing[PastNewline(existing, end.value + |m.end|)..]
    else
      existing
  }

  /** The loop that eats the blank line a merge may have inserted. */
  method EatBlanks(existing: string, start: nat) returns (headEnd: nat)
    requires start <= |existing|
    ensures headEnd <= start
    ensures existing[..headEnd] == TrimEndBy(IsBlank, existing[..start])
    ensures forall i :: headEnd <= i < start ==> existing[i] in ['\n', ' ', '\r', '\t']
    ensures headEnd > 0 ==> existing[headEnd-1] !in ['\n', ' ', '\r', '\t']
  {
    headEnd := start;
    while headEnd > 0
      invariant headEnd <= start
      invariant TrimEndBy(IsBlank, existing[..headEnd]) == TrimEndBy(IsBlank, existing[..start])
      invariant forall i :: headEnd <= i < start ==> existing[i] in ['\n', ' ', '\r', '\t']
    {
      var ch := existing[headEnd - 1];
      if ch == '\n' || ch == ' ' || ch == '\r' || ch == '\t' {
        assert existing[..headEnd][..headEnd-1] == existing[..headEnd-1];
        headEnd := headEnd - 1;
      } else {
        break;
      }
    }
  }

  method TrimmedHead(existing: string, start: nat) returns (out: string)
    requires start <= |existing|
    ensures out == KeptHead(existing, start)
  {
    var headEnd := EatBlanks(existing, start);
    out := existing[..headEnd];
    if out != "" && !EndsWith(out, "\n") {
      out := out + "\n";
    }
  }

  method SkipNewline(s: string, i: nat) returns (tail: nat)
    requires i <= |s|
    ensures tail == PastNewline(s, i)
  {
    tail := i;
    if tail < |s| && s[tail] == '\n' {
      tail := tail + 1;
    }
  }

  method RemoveSystemPrompt(m: Markers, existing: string) returns (out: string)
    ensures out == RemovedSystemPrompt(m, existing)
  {
    var start := Find(existing, m.start);
    var end := Find(existing, m.end);
    if start.Some? && end.Some? && end.value > start.value {
      var tail := SkipNewline(existing, end.value + |m.end|);
      out := TrimmedHead(existing, start.value);
      out := out + existing[tail..];
      return;
    }
    out := existing;
  }

  // ---------- JSON string fields ----------

  function MergeJsonPrompt(m: Markers, existing: string, prompt: string): string {
    var block := "\n" + m.start + "\n" + TrimEnd(prompt) + "\n" + m.end;
    var start, end := Find(existing, m.start), Find(existing, m.end);
    if start.Some? && end.Some? && end.value > start.value then
      existing[..start.value] + block[1..] + existing[end.value + |m.end|..]
    else
      existing + block
  }

  // ---------- the text of a new block ----------

  /** What is written to an empty rules file. */
  lemma NewRulesFile(prompt: string)
    ensures MergeSystemPrompt(SYSTEM_PROMPT, "", prompt)
         == "<!-- mnem-system-prompt:v1:start -->" + "\n" + TrimEnd(prompt) + "\n" + "<!-- mnem-system-prompt:v1:end -->" + "\n"
  {
    EmptyIsAppendedTo(SYSTEM_PROMPT, prompt);
  }

  /** What is written to an empty field. */
  lemma NewField(prompt: string)
    ensures MergeJsonPrompt(JSON_PROMPT, "", prompt)
         == "\n" + "[mnem-prompt:start]" + "\n" + TrimEnd(prompt) + "\n" + "[mnem-prompt:end]"
  {
    EmptyIsAppendedTo(JSON_PROMPT, prompt);
  }

  lemma EmptyIsAppendedTo(m: Markers, prompt: string)
    ensures MergeSystemPrompt(m, "", prompt) == m.start + "\n" + TrimEnd(prompt) + "\n" + m.end + "\n"
    ensures MergeJsonPrompt(m, "", prompt) == "\n" + m.start + "\n" + TrimEnd(prompt) + "\n" + m.end
  {
  }

  predicate IsNewline(c: char) {
    c == '\n'
  }

  function RemoveJsonPrompt(m: Markers, existing: string): string {
    var start, end := Find(existing, m.start), Find(existing, m.end);
    if start.Some? && end.Some? && end.value > start.value then
      var head := TrimEndBy(IsNewline, existing[..start.value]);
      var rest := existing[end.value + |m.end|..];
      if rest == "" then
        if head == "" then "" else head + "\n"
      else
        head + "\n" + rest
    else
      existing
  }
}
