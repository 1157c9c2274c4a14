/** Sorting by a comparator, as the standard library's stable `sort_by` does it,
    and the facts that make a sorted result canonical. */
module Ordering {

  ghost predicate Irreflexive<T(!new)>(before: (T, T) -> bool) {
    forall x :: !before(x, x)
  }

  ghost predicate Transitive<T(!new)>(before: (T, T) -> bool) {
    forall x, y, z :: before(x, y) && before(y, z) ==> before(x, z)
  }

  ghost predicate Connected<T(!new)>(before: (T, T) -> bool) {
    forall x, y :: x != y ==> before(x, y) || before(y, x)
  }

  /** Strict weak order: "neither is before the other" is transitive. */
  ghost predicate WeakOrder<T(!new)>(before: (T, T) -> bool) {
    && Irreflexive(before)
    && Transitive(before)
    && forall x, y, z :: before(x, z) ==> before(x, y) || before(y, z)
  }

  ghost predicate StrictTotal<T(!new)>(before: (T, T) -> bool) {
    Irreflexive(before) && Transitive(before) && Connected(before)
  }

  ghost predicate Sorted<T(!new)>(before: (T, T) -> bool, s: seq<T>) {
    forall i, j :: 0 <= i < j < |s| ==> !before(s[j], s[i])
  }

  ghost predicate StrictlySorted<T(!new)>(before: (T, T) -> bool, s: seq<T>) {
    forall i, j :: 0 <= i < j < |s| ==> before(s[i], s[j])
  }

  ghost predicate Distinct<T>(s: seq<T>) {
    forall i, j :: 0 <= i < j < |s| ==> s[i] != s[j]
  }

  lemma SameMembers<T>(s: seq<T>, t: seq<T>, x: T)
    requires multiset(s) == multiset(t)
    ensures x in s <==> x in t
  {
    assert x in s <==> x in multiset(s);
  }

  lemma SplitLast<T>(s: seq<T>)
    requires s != []
    ensures multiset(s) == multiset(s[..|s|-1]) + multiset{s[|s|-1]}
  {
    assert s == s[..|s|-1] + [s[|s|-1]];
  }

  lemma BagOfThree<T>(a: seq<T>, x: T, b: seq<T>)
    ensures multiset(a + [x] + b) == multiset(a + b) + multiset{x}
  {
  }

  lemma SameRest<T>(a: multiset<T>, b: multiset<T>, c: multiset<T>)
    requires a + c == b + c
    ensures a == b
  {
    assert a == (a + c) - c && b == (b + c) - c;
  }

  /** In a permutation t of s, what surrounds the last element of s. */
  lemma TakeOut<T>(s: seq<T>, t: seq<T>) returns (a: seq<T>, b: seq<T>)
    requires s != [] && multiset(s) == multiset(t)
    ensures t == a + [s[|s|-1]] + b
    ensures multiset(a + b) == multiset(s[..|s|-1])
  {
    var last := s[|s|-1];
    SameMembers(s, t, last);
    var p :| 0 <= p < |t| && t[p] == last;
    a, b := t[..p], t[p+1..];
    assert t == a + [last] + b;
    SplitLast(s);
    BagOfThree(a, last, b);
    SameRest(multiset(s[..|s|-1]), multiset(a + b), multiset{last});
  }

  lemma {:induction false} SubsetSize<T>(a: set<T>, b: set<T>)
    requires a <= b
    ensures |a| <= |b|
  {
    if a != {} {
      var x :| x in a;
      SubsetSize(a - {x}, b - {x});
    }
  }

  function Insert<T>(before: (T, T) -> bool, x: T, s: seq<T>): seq<T> {
    if s == [] then [x]
    else if before(s[0], x) then [s[0]] + Insert(before, x, s[1..])
    else [x] + s
  }

  function SortBy<T>(before: (T, T) -> bool, s: seq<T>): seq<T> {
    if s == [] then [] else Insert(before, s[0], SortBy(before, s[1..]))
  }

  lemma {:induction false} InsertKeeps<T(!new)>(before: (T, T) -> bool, x: T, s: seq<T>)
    ensures multiset(Insert(before, x, s)) == multiset{x} + multiset(s)
  {
    if s != [] {
      InsertKeeps(before, x, s[1..]);
      assert s == [s[0]] + s[1..];
    }
  }

  lemma {:induction false} SortKeeps<T(!new)>(before: (T, T) -> bool, s: seq<T>)
    ensures multiset(SortBy(before, s)) == multiset(s)
    ensures |SortBy(before, s)| == |s|
  {
    if s != [] {
      SortKeeps(before, s[1..]);
      InsertKeeps(before, s[0], SortBy(before, s[1..]));
      assert s == [s[0]] + s[1..];
    }
    assert |multiset(SortBy(before, s))| == |multiset(s)|;
  }

  lemma {:induction false} InsertSorts<T(!new)>(before: (T, T) -> bool, x: T, s: seq<T>)
    requires WeakOrder(before) && Sorted(before, s)
    ensures Sorted(before, Insert(before, x, s))
  {
    if s != [] && before(s[0], x) {
      var rest := Insert(before, x, s[1..]);
      InsertSorts(before, x, s[1..]);
      InsertKeeps(before, x, s[1..]);
      forall j | 0 <= j < |rest| ensures !before(rest[j], s[0]) {
        assert rest[j] in multiset(rest);
        assert rest[j] == x || rest[j] in s[1..];
      }
    }
  }

  lemma {:induction false} SortSorts<T(!new)>(before: (T, T) -> bool, s: seq<T>)
    requires WeakOrder(before)
    ensures Sorted(before, SortBy(before, s))
  {
    if s != [] {
      SortSorts(before, s[1..]);
      InsertSorts(before, s[0], SortBy(before, s[1..]));
    }
  }

  lemma TotalIsWeak<T(!new)>(before: (T, T) -> bool)
    requires StrictTotal(before)
    ensures WeakOrder(before)
  {
    forall x, y, z | before(x, z) ensures before(x, y) || before(y, z) {
      if y != x && !before(x, y) { assert before(y, x); }
    }
  }

  lemma SameFirst<T(!new)>(before: (T, T) -> bool, s: seq<T>, t: seq<T>)
    requires Connected(before) && s != [] && t != []
    requires Sorted(before, s) && Sorted(before, t) && multiset(s) == multiset(t)
    ensures s[0] == t[0]
  {
    assert s[0] in multiset(t) && t[0] in multiset(s);
    var i :| 0 <= i < |t| && t[i] == s[0];
    var j :| 0 <= j < |s| && s[j] == t[0];
    Comparable(before, s[0], t[0]);
  }

  lemma Comparable<T(!new)>(before: (T, T) -> bool, x: T, y: T)
    requires Connected(before)
    ensures x == y || before(x, y) || before(y, x)
  {
  }

  lemma SortedTail<T(!new)>(before: (T, T) -> bool, s: seq<T>)
    requires s != [] && Sorted(before, s)
    ensures Sorted(before, s[1..]) && multiset(s[1..]) == multiset(s) - multiset{s[0]}
    ensures s == [s[0]] + s[1..]
  {
    assert s == [s[0]] + s[1..];
  }

  /** Same elements, sorted under a total order: the same list. */
  lemma {:induction false} SortedIsUnique<T(!new)>(before: (T, T) -> bool, s: seq<T>, t: seq<T>)
    requires StrictTotal(before)
    requires Sorted(before, s) && Sorted(before, t) && multiset(s) == multiset(t)
    ensures s == t
  {
    assert |multiset(s)| == |multiset(t)|;
    if s != [] {
      SameFirst(before, s, t);
      SortedTail(before, s);
      SortedTail(before, t);
      SortedIsUnique(before, s[1..], t[1..]);
    }
  }

  /** Sorting is insensitive to the order of the input. */
  lemma SortIsCanonical<T(!new)>(before: (T, T) -> bool, s: seq<T>, t: seq<T>)
    requires StrictTotal(before) && multiset(s) == multiset(t)
    ensures SortBy(before, s) == SortBy(before, t)
  {
    TotalIsWeak(before);
    SortSorts(before, s); SortKeeps(before, s);
    SortSorts(before, t); SortKeeps(before, t);
    SortedIsUnique(before, SortBy(before, s), SortBy(before, t));
  }

  /** Two strictly sorted lists with the same members are the same list. */
  lemma {:induction false} StrictlySortedIsUnique<T(!new)>(before: (T, T) -> bool, s: seq<T>, t: seq<T>)
    requires Irreflexive(before) && Transitive(before)
    requires StrictlySorted(before, s) && StrictlySorted(before, t)
    requires forall x :: x in s <==> x in t
    ensures s == t
  {
    assert s != [] ==> s[0] in t;
    assert t != [] ==> t[0] in s;
    if s != [] {
      var a, b := s[0], t[0];
      assert a == b || (before(a, b) && before(b, a));
      forall x ensures x in s[1..] <==> x in t[1..] {
        if x in s[1..] { assert x in s && x != s[0]; }
        if x in t[1..] { assert x in t && x != t[0]; }
      }
      StrictlySortedIsUnique(before, s[1..], t[1..]);
    }
  }

  lemma DistinctByMultiset<T(!new)>(s: seq<T>, t: seq<T>)
    requires Distinct(s) && multiset(s) == multiset(t)
    ensures Distinct(t)
  {
    forall i, j | 0 <= i < j < |t| ensures t[i] != t[j] {
      if t[i] == t[j] {
        CountTwo(t, i, j);
        CountOne(s, t[i]);
      }
    }
  }

  lemma CountTwo<T>(t: seq<T>, i: nat, j: nat)
    requires i < j < |t| && t[i] == t[j]
    ensures multiset(t)[t[i]] >= 2
  {
    assert t == t[..j] + [t[j]] + t[j+1..];
    assert t[i] in t[..j];
    assert multiset(t[..j])[t[i]] >= 1;
  }

  lemma {:induction false} CountOne<T>(s: seq<T>, x: T)
    requires Distinct(s)
    ensures multiset(s)[x] <= 1
  {
    if s != [] {
      assert s == [s[0]] + s[1..];
      CountOne(s[1..], x);
      if x == s[0] { assert x !in s[1..]; }
    }
  }

  /** A sorted, duplicate-free list is strictly sorted under a total order. */
  lemma SortedDistinctIsStrict<T(!new)>(before: (T, T) -> bool, s: seq<T>)
    requires StrictTotal(before) && Sorted(before, s) && Distinct(s)
    ensures StrictlySorted(before, s)
  {
    forall i, j | 0 <= i < j < |s| ensures before(s[i], s[j]) {
      assert s[i] != s[j];
    }
  }

  /** The first k of a sorted list: in order, and none of the others before any of them. */
  lemma TakeOfSorted<T(!new)>(before: (T, T) -> bool, s: seq<T>, k: nat)
    requires WeakOrder(before) && k <= |s|
    ensures |SortBy(before, s)| == |s| && Sorted(before, SortBy(before, s)[..k])
    ensures forall x :: x in SortBy(before, s)[..k] ==> x in s
    ensures forall x, i :: x in s && x !in SortBy(before, s)[..k] && 0 <= i < k ==> !before(x, SortBy(before, s)[i])
  {
    var sorted := SortBy(before, s);
    SortKeeps(before, s);
    SortSorts(before, s);
    forall x | x in sorted[..k] ensures x in s { SameMembers(s, sorted, x); }
    assert forall p :: 0 <= p < k ==> sorted[p] in sorted[..k];
    forall x, i | x in s && x !in sorted[..k] && 0 <= i < k ensures !before(x, sorted[i]) {
      SameMembers(s, sorted, x);
      var p :| 0 <= p < |sorted| && sorted[p] == x;
      assert !before(sorted[p], sorted[i]) || p < k;
    }
  }

  /** Position in a strictly sorted list is the number of members that come before. */
  ghost function Predecessors<T(!new)>(before: (T, T) -> bool, s: seq<T>, x: T): set<T> {
    set y | y in s && before(y, x)
  }

  lemma PositionIsRank<T(!new)>(before: (T, T) -> bool, s: seq<T>, i: nat)
    requires Irreflexive(before) && Transitive(before) && StrictlySorted(before, s) && i < |s|
    ensures |Predecessors(before, s, s[i])| == i
  {
    var early := set y | y in s[..i];
    forall y ensures y in Predecessors(before, s, s[i]) <==> y in early {
      if y in s && before(y, s[i]) {
        var j :| 0 <= j < |s| && s[j] == y;
        assert j < i;
        assert s[..i][j] == y;
      }
      if y in s[..i] {
        var j :| 0 <= j < i && s[..i][j] == y;
        assert before(s[j], s[i]);
      }
    }
    assert Predecessors(before, s, s[i]) == early;
    assert Distinct(s[..i]) by {
      forall a, b | 0 <= a < b < i ensures s[..i][a] != s[..i][b] { assert before(s[a], s[b]); }
    }
    DistinctSize(s[..i]);
  }

  lemma {:induction false} DistinctSize<T>(s: seq<T>)
    requires Distinct(s)
    ensures |set y | y in s| == |s|
  {
    if s == [] {
      assert (set y | y in s) == {};
    } else {
      DistinctSize(s[1..]);
      assert (set y | y in s) == {s[0]} + set y | y in s[1..];
    }
  }

  /** The first k of a sorted duplicate-free list are the members with fewer than k before them. */
  lemma TakeIsLowRank<T(!new)>(before: (T, T) -> bool, s: seq<T>, k: nat, x: T)
    requires Irreflexive(before) && Transitive(before) && StrictlySorted(before, s) && k <= |s|
    ensures x in s[..k] <==> x in s && |Predecessors(before, s, x)| < k
  {
    if x in s {
      var i :| 0 <= i < |s| && s[i] == x;
      PositionIsRank(before, s, i);
      if i < k { assert s[..k][i] == x; }
      if x in s[..k] {
        var j :| 0 <= j < k && s[..k][j] == x;
        PositionIsRank(before, s, j);
      }
    }
  }
}
