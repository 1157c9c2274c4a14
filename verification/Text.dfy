/** Substring search and trimming, as the standard library does them. */
module Text {
  import opened Options

  predicate At(s: string, pat: string, i: nat) {
    i + |pat| <= |s| && s[i..i+|pat|] == pat
  }

  ghost predicate Occurs(s: string, pat: string) {
    exists i: nat :: At(s, pat, i)
  }

  function FindFrom(s: string, pat: string, i: nat): (r: Option<nat>)
    requires i <= |s|
    ensures r.Some? ==> i <= r.value && At(s, pat, r.value) && forall j: nat :: i <= j < r.value ==> !At(s, pat, j)
    ensures r.None? ==> forall j: nat :: i <= j ==> !At(s, pat, j)
    decreases |s| - i
  {
    if At(s, pat, i) then Some(i)
    else if i == |s| then None
    else FindFrom(s, pat, i + 1)
  }

  function Find(s: string, pat: string): (r: Option<nat>)
    ensures r.Some? ==> At(s, pat, r.value) && forall j: nat :: j < r.value ==> !At(s, pat, j)
    ensures r.None? <==> !Occurs(s, pat)
  {
    FindFrom(s, pat, 0)
  }

  function TrimEndBy(drop: char -> bool, s: string): (r: string)
    ensures r <= s
    ensures forall i :: |r| <= i < |s| ==> drop(s[i])
    ensures r != "" ==> !drop(r[|r|-1])
  {
    if s == "" || !drop(s[|s|-1]) then s else TrimEndBy(drop, s[..|s|-1])
  }

  /** Unicode White_Space. */
  predicate IsWhitespace(c: char) {
    || '\U{0009}' <= c <= '\U{000D}' || c == ' ' || c == '\U{0085}' || c == '\U{00A0}'
    || c == '\U{1680}' || '\U{2000}' <= c <= '\U{200A}' || c == '\U{2028}' || c == '\U{2029}'
    || c == '\U{202F}' || c == '\U{205F}' || c == '\U{3000}'
  }

  function TrimEnd(s: string): string {
    TrimEndBy(IsWhitespace, s)
  }

  /** The 25 code points that Unicode lists as White_Space. */
  predicate IsWhiteSpaceCode(n: int) {
    n in [9, 10, 11, 12, 13, 32, 133, 160, 5760, 8192, 8193, 8194, 8195, 8196, 8197, 8198, 8199, 8200, 8201, 8202,
          8232, 8233, 8239, 8287, 12288]
  }

  lemma WhitespaceIff(c: char)
    ensures IsWhitespace(c) <==> IsWhiteSpaceCode(c as int)
  {
  }

  /** Trimming cuts off exactly the white space at the end. */
  lemma TrimEndMeans(s: string)
    ensures TrimEnd(s) <= s && forall i :: |TrimEnd(s)| <= i < |s| ==> IsWhiteSpaceCode(s[i] as int)
    ensures TrimEnd(s) != "" ==> !IsWhiteSpaceCode(TrimEnd(s)[|TrimEnd(s)|-1] as int)
  {
    forall i | 0 <= i < |s| ensures IsWhitespace(s[i]) <==> IsWhiteSpaceCode(s[i] as int) { WhitespaceIff(s[i]); }
  }

  // ---------- occurrences across a splice ----------

  lemma AtInPrefix(s: string, t: string, pat: string, i: nat)
    ensures At(s, pat, i) ==> At(s + t, pat, i)
    ensures At(s + t, pat, i) && i + |pat| <= |s| ==> At(s, pat, i)
  {
    if i + |pat| <= |s| { assert (s + t)[i..i+|pat|] == s[i..i+|pat|]; }
  }

  lemma AtInSuffix(s: string, t: string, pat: string, i: nat)
    ensures At(s + t, pat, |s| + i) <==> At(t, pat, i)
  {
    if i + |pat| <= |t| { assert (s + t)[|s|+i..|s|+i+|pat|] == t[i..i+|pat|]; }
  }

  /** A pattern without line breaks occurs on one side of a line break or on the other. */
  lemma AtAcrossNewline(s: string, t: string, pat: string, i: nat)
    requires '\n' !in pat && pat != ""
    ensures At(s + "\n" + t, pat, i) <==> At(s, pat, i) || (i > |s| && At(t, pat, i - |s| - 1))
  {
    var whole := s + "\n" + t;
    if i <= |s| < i + |pat| <= |whole| {
      assert whole[i..i+|pat|][|s|-i] == '\n';
    }
    if i + |pat| <= |s| {
      assert whole[i..i+|pat|] == s[i..i+|pat|];
    }
    if i > |s| && i + |pat| <= |whole| {
      assert whole[i..i+|pat|] == t[i-|s|-1..i-|s|-1+|pat|];
    }
  }

  lemma FindIs(s: string, pat: string, i: nat)
    requires At(s, pat, i) && forall j: nat :: j < i ==> !At(s, pat, j)
    ensures Find(s, pat) == Some(i)
  {
  }
}
