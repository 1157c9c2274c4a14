/** Re-ordering candidates by the numbers a chat model answered with
    (benchmarks/harness/adapters/longmemeval_session.py:116-181). */
module Rerank {
  import opened Options
  import opened Ordering

  /** Numbers in range, at their first mention. */
  function Mentioned(nums: seq<nat>, n: nat): seq<nat> {
    if nums == [] then []
    else
      var front, last := Mentioned(nums[..|nums|-1], n), nums[|nums|-1];
      if last < n && last !in front then front + [last] else front
  }

  /** The first i indices without those mentioned. */
  function Skipped(mentioned: seq<nat>, i: nat): seq<nat> {
    if i == 0 then []
    else Skipped(mentioned, i - 1) + if i - 1 in mentioned then [] else [i - 1]
  }

  function Order(nums: seq<nat>, n: nat): seq<nat> {
    Mentioned(nums, n) + Skipped(Mentioned(nums, n), n)
  }

  predicate InRange(order: seq<nat>, n: nat) {
    forall k :: 0 <= k < |order| ==> order[k] < n
  }

  function Picked<T>(xs: seq<T>, order: seq<nat>): seq<T>
    requires InRange(order, |xs|)
  {
    if order == [] then [] else Picked(xs, order[..|order|-1]) + [xs[order[|order|-1]]]
  }

  function HeadSize<T>(candidates: seq<T>, pool: nat): nat {
    if pool < |candidates| then pool else |candidates|
  }

  /** The answer is the numbers found in the text of the model, or None if the call failed. */
  function Reranked<T>(candidates: seq<T>, pool: nat, answer: Option<seq<nat>>): seq<T> {
    var n := HeadSize(candidates, pool);
    if answer == None then candidates
    else
      OrderInRange(answer.value, n);
      Picked(candidates[..n], Order(answer.value, n)) + candidates[n..]
  }

  lemma EmptyHead(nums: seq<nat>)
    ensures Mentioned(nums, 0) == [] && Order(nums, 0) == []
  {
  }

  /** The numbers in range at their first mention, then what was skipped. */
  method OrderOf(nums: seq<nat>, n: nat) returns (order: seq<nat>)
    ensures order == Order(nums, n)
  {
    order := [];
    var seen: set<nat> := {};
    for k := 0 to |nums|
      invariant order == Mentioned(nums[..k], n)
      invariant forall i :: i in seen <==> i in order
    {
      assert nums[..k+1][..k] == nums[..k];
      if nums[k] < n && nums[k] !in seen {
        order := order + [nums[k]];
        seen := seen + {nums[k]};
      }
    }
    assert nums[..|nums|] == nums;
    ghost var mentioned := order;
    for i := 0 to n
      invariant order == mentioned + Skipped(mentioned, i)
    {
      if i !in seen {
        order := order + [i];
      }
    }
  }

  method LlmRerank<T>(candidates: seq<T>, pool: nat, answer: Option<seq<nat>>) returns (r: seq<T>)
    ensures r == Reranked(candidates, pool, answer)
    ensures |r| == |candidates| && forall i :: pool <= i < |candidates| ==> r[i] == candidates[i]
    ensures answer == None ==> r == candidates
    ensures answer.Some? ==>
              exists order :: IsByFirstMention(answer.value, if pool < |candidates| then pool else |candidates|, order)
                              && Follows(candidates, order, r)
  {
    RerankedHead(candidates, pool, answer);
    var n := HeadSize(candidates, pool);
    var head := candidates[..n];
    if head == [] {
      if answer.Some? { EmptyHead(answer.value); }
      return candidates;
    }
    if answer == None {
      return candidates;
    }
    var order := OrderOf(answer.value, n);
    OrderInRange(answer.value, n);
    return Picked(head, order) + candidates[n..];
  }

  // ---------- the order is a permutation ----------

  lemma {:induction false} MentionedMembers(nums: seq<nat>, n: nat, i: nat)
    ensures i in Mentioned(nums, n) <==> i < n && i in nums
  {
    if nums != [] {
      MentionedMembers(nums[..|nums|-1], n, i);
      assert nums == nums[..|nums|-1] + [nums[|nums|-1]];
    }
  }

  lemma {:induction false} SkippedMembers(mentioned: seq<nat>, n: nat, i: nat)
    ensures i in Skipped(mentioned, n) <==> i < n && i !in mentioned
    decreases n
  {
    if n > 0 { SkippedMembers(mentioned, n - 1, i); }
  }

  lemma OrderInRange(nums: seq<nat>, n: nat)
    ensures forall i: nat :: i in Order(nums, n) <==> i < n
    ensures InRange(Order(nums, n), n)
  {
    forall i: nat ensures i in Order(nums, n) <==> i < n {
      MentionedMembers(nums, n, i);
      SkippedMembers(Mentioned(nums, n), n, i);
    }
    forall k | 0 <= k < |Order(nums, n)| ensures Order(nums, n)[k] < n { assert Order(nums, n)[k] in Order(nums, n); }
  }

  // ---------- the order is by first mention ----------

  /** Where a number first occurs; numbers that do not occur come after, by size. */
  function Rank(nums: seq<nat>, i: nat): (r: nat)
    ensures if i in nums then r < |nums| && nums[r] == i && forall k :: 0 <= k < r ==> nums[k] != i
            else r == |nums| + i
  {
    if nums == [] then i
    else if nums[0] == i then 0
    else 1 + Rank(nums[1..], i)
  }

  lemma RankIs(nums: seq<nat>, i: nat, k: nat)
    requires k < |nums| && nums[k] == i && forall j :: 0 <= j < k ==> nums[j] != i
    ensures Rank(nums, i) == k
  {
    assert nums[k] in nums;
  }

  lemma RankInPrefix(nums: seq<nat>, i: nat)
    requires nums != [] && i in nums[..|nums|-1]
    ensures Rank(nums, i) == Rank(nums[..|nums|-1], i)
  {
    var front := nums[..|nums|-1];
    RankIs(nums, i, Rank(front, i));
  }

  lemma {:induction false} MentionedByRank(nums: seq<nat>, n: nat)
    ensures forall j, k :: 0 <= j < k < |Mentioned(nums, n)| ==>
              Rank(nums, Mentioned(nums, n)[j]) < Rank(nums, Mentioned(nums, n)[k])
  {
    if nums != [] {
      var front, last := nums[..|nums|-1], nums[|nums|-1];
      var before := Mentioned(front, n);
      MentionedByRank(front, n);
      forall j | 0 <= j < |before|
        ensures Rank(nums, before[j]) == Rank(front, before[j]) < |front|
      {
        assert before[j] in before;
        MentionedMembers(front, n, before[j]);
        RankInPrefix(nums, before[j]);
      }
      if last < n && last !in before {
        MentionedMembers(front, n, last);
        RankIs(nums, last, |front|);
      }
    }
  }

  lemma {:induction false} SkippedAscends(mentioned: seq<nat>, n: nat)
    ensures forall j, k :: 0 <= j < k < |Skipped(mentioned, n)| ==> Skipped(mentioned, n)[j] < Skipped(mentioned, n)[k]
    decreases n
  {
    if n > 0 {
      SkippedAscends(mentioned, n - 1);
      var front := Skipped(mentioned, n - 1);
      forall j | 0 <= j < |front| ensures front[j] < n - 1 {
        assert front[j] in front;
        SkippedMembers(mentioned, n - 1, front[j]);
      }
    }
  }

  ghost predicate IsByFirstMention(nums: seq<nat>, n: nat, order: seq<nat>) {
    && (forall i: nat :: i in order <==> i < n)
    && StrictlySorted((a, b) => Rank(nums, a) < Rank(nums, b), order)
  }

  /** Every index of the head once: those mentioned, in the order of their first mention, then
      the others in their own order. */
  lemma OrderIsByFirstMention(nums: seq<nat>, n: nat)
    ensures IsByFirstMention(nums, n, Order(nums, n))
  {
    var m := Mentioned(nums, n);
    var s := Skipped(m, n);
    OrderInRange(nums, n);
    MentionedByRank(nums, n);
    SkippedAscends(m, n);
    forall j | 0 <= j < |m| ensures Rank(nums, m[j]) < |nums| {
      assert m[j] in m;
      MentionedMembers(nums, n, m[j]);
    }
    forall k | 0 <= k < |s| ensures Rank(nums, s[k]) == |nums| + s[k] {
      assert s[k] in s;
      SkippedMembers(m, n, s[k]);
      MentionedMembers(nums, n, s[k]);
    }
  }

  /** Only one order has that property. */
  lemma FirstMentionOrderIsUnique(nums: seq<nat>, n: nat, order: seq<nat>)
    ensures IsByFirstMention(nums, n, order) <==> order == Order(nums, n)
  {
    OrderIsByFirstMention(nums, n);
    if IsByFirstMention(nums, n, order) {
      StrictlySortedIsUnique((a, b) => Rank(nums, a) < Rank(nums, b), order, Order(nums, n));
    }
  }

  // ---------- nothing is lost ----------

  function Dropped(order: seq<nat>, p: nat): seq<nat>
    requires p < |order|
  {
    order[..p] + order[p+1..]
  }

  lemma {:induction false} PickedConcat<T>(xs: seq<T>, a: seq<nat>, b: seq<nat>)
    requires InRange(a, |xs|) && InRange(b, |xs|)
    ensures InRange(a + b, |xs|) && Picked(xs, a + b) == Picked(xs, a) + Picked(xs, b)
  {
    if b == [] {
      assert a + b == a;
    } else {
      assert (a + b)[..|a+b|-1] == a + b[..|b|-1];
      PickedConcat(xs, a, b[..|b|-1]);
    }
  }

  lemma {:induction false} PickedFromPrefix<T>(xs: seq<T>, n: nat, a: seq<nat>)
    requires n <= |xs| && InRange(a, n)
    ensures Picked(xs, a) == Picked(xs[..n], a)
  {
    if a != [] { PickedFromPrefix(xs, n, a[..|a|-1]); }
  }

  lemma PickedAround<T>(xs: seq<T>, a: seq<nat>, n: nat, b: seq<nat>)
    requires n < |xs| && InRange(a, n) && InRange(b, n)
    ensures InRange(a + [n] + b, |xs|) && InRange(a + b, n)
    ensures multiset(Picked(xs, a + [n] + b)) == multiset(Picked(xs[..n], a + b)) + multiset{xs[n]}
  {
    PickedConcat(xs, a, [n]);
    PickedConcat(xs, a + [n], b);
    PickedConcat(xs, a, b);
    PickedFromPrefix(xs, n, a + b);
    assert Picked(xs, [n]) == [xs[n]];
  }

  lemma DroppedKeeps(order: seq<nat>, p: nat)
    requires Distinct(order) && p < |order| && InRange(order, order[p] + 1)
    ensures Distinct(Dropped(order, p)) && InRange(Dropped(order, p), order[p])
    ensures InRange(order[..p], order[p]) && InRange(order[p+1..], order[p])
    ensures forall i: nat :: i in Dropped(order, p) <==> i in order && i != order[p]
  {
    forall i: nat ensures i in Dropped(order, p) <==> i in order && i != order[p] { SplitMembers(order, p, i); }
  }

  lemma PickedWithout<T>(xs: seq<T>, order: seq<nat>, n: nat, p: nat)
    requires n < |xs| && InRange(order, |xs|) && p < |order| && order[p] == n
    requires InRange(order[..p], n) && InRange(order[p+1..], n)
    ensures InRange(Dropped(order, p), n)
    ensures multiset(Picked(xs, order)) == multiset(Picked(xs[..n], Dropped(order, p))) + multiset{xs[n]}
  {
    PickedAround(xs, order[..p], n, order[p+1..]);
    assert order == order[..p] + [n] + order[p+1..];
  }

  lemma {:induction false} PickedPermutes<T>(xs: seq<T>, order: seq<nat>)
    requires Distinct(order) && InRange(order, |xs|) && forall i: nat :: i < |xs| ==> i in order
    ensures multiset(Picked(xs, order)) == multiset(xs)
    decreases |xs|
  {
    if xs != [] {
      var n: nat := |xs| - 1;
      assert n in order;
      var p: nat :| p < |order| && order[p] == n;
      DroppedKeeps(order, p);
      PickedWithout(xs, order, n, p);
      PickedPermutes(xs[..n], Dropped(order, p));
      SplitLast(xs);
    }
  }

  lemma SplitMembers(order: seq<nat>, p: nat, i: nat)
    requires Distinct(order) && p < |order|
    ensures i in Dropped(order, p) <==> i in order && i != order[p]
  {
    var rest := Dropped(order, p);
    if i in order && i != order[p] {
      var k :| 0 <= k < |order| && order[k] == i;
      assert rest[if k < p then k else k - 1] == i;
    }
  }

  /** The result starts with the candidates at these positions. */
  ghost predicate Follows<T>(candidates: seq<T>, order: seq<nat>, r: seq<T>) {
    |order| <= |r| && forall k :: 0 <= k < |order| ==> order[k] < |candidates| && r[k] == candidates[order[k]]
  }

  lemma {:induction false} PickedAt<T>(xs: seq<T>, order: seq<nat>)
    requires InRange(order, |xs|)
    ensures |Picked(xs, order)| == |order| && forall k :: 0 <= k < |order| ==> Picked(xs, order)[k] == xs[order[k]]
  {
    if order != [] { PickedAt(xs, order[..|order|-1]); }
  }

  lemma OrderLength(nums: seq<nat>, n: nat)
    ensures |Order(nums, n)| == n
  {
    var order := Order(nums, n);
    OrderInRange(nums, n);
    OrderIsByFirstMention(nums, n);
    PickedPermutes(Unmoved(n), order);
    PickedAt(Unmoved(n), order);
    assert |multiset(Picked(Unmoved(n), order))| == n;
  }

  /** The first min(pool, n) results are the candidates of the head by first mention, numbers at
      or above the pool being ignored; the others stay where they are. */
  lemma RerankedHead<T>(candidates: seq<T>, pool: nat, answer: Option<seq<nat>>)
    ensures var r := Reranked(candidates, pool, answer);
            && |r| == |candidates| && (forall i :: pool <= i < |candidates| ==> r[i] == candidates[i])
            && (answer == None ==> r == candidates)
            && (answer.Some? ==>
                  exists order :: IsByFirstMention(answer.value, if pool < |candidates| then pool else |candidates|, order)
                                  && Follows(candidates, order, r))
  {
    if answer.Some? {
      var n := HeadSize(candidates, pool);
      var order := Order(answer.value, n);
      OrderInRange(answer.value, n);
      OrderIsByFirstMention(answer.value, n);
      OrderLength(answer.value, n);
      PickedAt(candidates[..n], order);
      assert Follows(candidates, order, Reranked(candidates, pool, answer));
    }
  }

  /** Whatever the model answers, the result permutes the candidates, and those at or past the
      pool stay where they are. */
  lemma NothingIsLost<T>(candidates: seq<T>, pool: nat, answer: Option<seq<nat>>)
    ensures var r := Reranked(candidates, pool, answer);
            && multiset(r) == multiset(candidates) && |r| == |candidates|
            && forall i :: pool <= i < |candidates| ==> r[i] == candidates[i]
  {
    RerankedHead(candidates, pool, answer);
    var n := HeadSize(candidates, pool);
    assert candidates == candidates[..n] + candidates[n..];
    if answer.Some? {
      var order := Order(answer.value, n);
      OrderInRange(answer.value, n);
      OrderIsByFirstMention(answer.value, n);
      PickedPermutes(candidates[..n], order);
      assert |multiset(Picked(candidates[..n], order))| == n;
    }
  }

  function Unmoved(n: nat): seq<nat> {
    seq(n, i => i)
  }

  predicate CountsUp(m: seq<nat>) {
    forall k :: 0 <= k < |m| ==> m[k] == k
  }

  lemma CountingUpMovesNothing(m: seq<nat>, n: nat)
    requires CountsUp(m) && InRange(m, n)
    ensures m + Skipped(m, n) == Unmoved(n)
  {
    if |m| > 0 { assert m[|m|-1] < n; }
    forall i: nat ensures i in m <==> i < |m| { if i < |m| { assert m[i] == i; } }
    SkippedFrom(m, n);
  }

  lemma MovingNothingCountsUp(m: seq<nat>, rest: seq<nat>, n: nat)
    requires m + rest == Unmoved(n)
    ensures CountsUp(m)
  {
    forall k | 0 <= k < |m| ensures m[k] == k { assert (m + rest)[k] == m[k] && Unmoved(n)[k] == k; }
  }

  /** The order is that of the candidates exactly when the numbers in range are first
      mentioned as 0, 1, 2, and so on. */
  lemma NothingMovesIff(nums: seq<nat>, n: nat)
    ensures Order(nums, n) == Unmoved(n) <==> CountsUp(Mentioned(nums, n))
  {
    var m := Mentioned(nums, n);
    forall k | 0 <= k < |m| ensures m[k] < n { assert m[k] in m; MentionedMembers(nums, n, m[k]); }
    if CountsUp(m) {
      CountingUpMovesNothing(m, n);
    } else if Order(nums, n) == Unmoved(n) {
      MovingNothingCountsUp(m, Skipped(m, n), n);
    }
  }

  lemma {:induction false} SkippedFrom(m: seq<nat>, n: nat)
    requires forall i: nat :: i in m <==> i < |m|
    ensures forall k :: 0 <= k < |Skipped(m, n)| ==> Skipped(m, n)[k] == |m| + k
    ensures |Skipped(m, n)| == if n < |m| then 0 else n - |m|
    decreases n
  {
    if n > 0 { SkippedFrom(m, n - 1); }
  }
}
