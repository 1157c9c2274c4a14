/** Lists that hold entries of this program among entries of other tools. */
module HookLists {

  function Foreign<T>(owned: T -> bool, xs: seq<T>): seq<T> {
    if xs == [] then []
    else
      var front, last := Foreign(owned, xs[..|xs|-1]), xs[|xs|-1];
      if owned(last) then front else front + [last]
  }

  function OwnedCount<T>(owned: T -> bool, xs: seq<T>): nat {
    if xs == [] then 0
    else OwnedCount(owned, xs[..|xs|-1]) + if owned(xs[|xs|-1]) then 1 else 0
  }

  ghost predicate FirstOwned<T>(owned: T -> bool, xs: seq<T>, i: nat) {
    i < |xs| && owned(xs[i]) && forall j :: 0 <= j < i ==> !owned(xs[j])
  }

  lemma {:induction false} ForeignConcat<T>(owned: T -> bool, a: seq<T>, b: seq<T>)
    ensures Foreign(owned, a + b) == Foreign(owned, a) + Foreign(owned, b)
    ensures OwnedCount(owned, a + b) == OwnedCount(owned, a) + OwnedCount(owned, b)
  {
    if b == [] {
      assert a + b == a;
    } else {
      assert (a + b)[..|a+b|-1] == a + b[..|b|-1];
      ForeignConcat(owned, a, b[..|b|-1]);
    }
  }

  lemma {:induction false} NothingOwned<T>(owned: T -> bool, xs: seq<T>)
    ensures OwnedCount(owned, xs) == 0 <==> forall x :: x in xs ==> !owned(x)
    ensures OwnedCount(owned, xs) == 0 ==> Foreign(owned, xs) == xs
  {
    if xs != [] {
      NothingOwned(owned, xs[..|xs|-1]);
      assert xs == xs[..|xs|-1] + [xs[|xs|-1]];
    }
  }

  lemma {:induction false} ForeignIsForeign<T>(owned: T -> bool, xs: seq<T>)
    ensures OwnedCount(owned, Foreign(owned, xs)) == 0
    ensures Foreign(owned, Foreign(owned, xs)) == Foreign(owned, xs)
    ensures |Foreign(owned, xs)| + OwnedCount(owned, xs) == |xs|
  {
    if xs != [] {
      var front, last := Foreign(owned, xs[..|xs|-1]), xs[|xs|-1];
      ForeignIsForeign(owned, xs[..|xs|-1]);
      assert (front + [last])[..|front|] == front;
    }
  }

  // ---------- replace the first owned entry, else append ----------

  /** The entry in place of the first owned one, or at the end; and whether that is a change. */
  function Placed<T(==)>(owned: T -> bool, xs: seq<T>, v: T, i: nat): (seq<T>, bool)
    requires i <= |xs|
    decreases |xs| - i
  {
    if i == |xs| then (xs + [v], true)
    else if owned(xs[i]) then (xs[i := v], xs[i] != v)
    else Placed(owned, xs, v, i + 1)
  }

  method PlaceEntry<T(==)>(owned: T -> bool, xs: seq<T>, v: T) returns (ys: seq<T>, changed: bool)
    ensures (ys, changed) == Placed(owned, xs, v, 0)
  {
    for i := 0 to |xs|
      invariant Placed(owned, xs, v, 0) == Placed(owned, xs, v, i)
    {
      if owned(xs[i]) {
        if xs[i] == v {
          assert xs[i := v] == xs;
          return xs, false;
        }
        return xs[i := v], true;
      }
    }
    return xs + [v], true;
  }

  /** A change is reported exactly when there is one. */
  lemma {:induction false} PlacedReports<T>(owned: T -> bool, xs: seq<T>, v: T, i: nat)
    requires i <= |xs|
    ensures Placed(owned, xs, v, i).1 <==> Placed(owned, xs, v, i).0 != xs
    ensures v in Placed(owned, xs, v, i).0
    decreases |xs| - i
  {
    if i < |xs| && !owned(xs[i]) {
      PlacedReports(owned, xs, v, i + 1);
    } else if i < |xs| {
      assert xs[i := v][i] == v && (xs[i] == v ==> xs[i := v] == xs) && v in xs[i := v];
    } else {
      assert |xs + [v]| != |xs|;
    }
  }

  ghost predicate PlacedThere<T>(owned: T -> bool, xs: seq<T>, v: T, r: (seq<T>, bool), k: nat) {
    FirstOwned(owned, xs, k) && r == (xs[..k] + [v] + xs[k+1..], xs[k] != v)
  }

  lemma {:induction false} PlacedShape<T>(owned: T -> bool, xs: seq<T>, v: T, i: nat)
    requires i <= |xs| && forall j :: 0 <= j < i ==> !owned(xs[j])
    ensures if OwnedCount(owned, xs) == 0 then Placed(owned, xs, v, i) == (xs + [v], true)
            else exists k: nat :: PlacedThere(owned, xs, v, Placed(owned, xs, v, i), k)
    decreases |xs| - i
  {
    if i == |xs| {
      NothingOwned(owned, xs);
    } else if owned(xs[i]) {
      assert xs[i := v] == xs[..i] + [v] + xs[i+1..];
      assert PlacedThere(owned, xs, v, Placed(owned, xs, v, i), i);
      NothingOwned(owned, xs);
      assert xs[i] in xs;
    } else {
      PlacedShape(owned, xs, v, i + 1);
      if OwnedCount(owned, xs) > 0 {
        var k: nat :| PlacedThere(owned, xs, v, Placed(owned, xs, v, i + 1), k);
        assert PlacedThere(owned, xs, v, Placed(owned, xs, v, i), k);
      }
    }
  }

  /** Placing changes one position at most: the first owned one; every other entry, owned or
      not, stays where it is. */
  lemma PlacingReplacesFirst<T>(owned: T -> bool, xs: seq<T>, v: T)
    ensures OwnedCount(owned, xs) == 0 ==> Placed(owned, xs, v, 0) == (xs + [v], true)
    ensures OwnedCount(owned, xs) > 0 ==>
              exists k: nat :: FirstOwned(owned, xs, k) && Placed(owned, xs, v, 0) == (xs[k := v], xs[k] != v)
  {
    PlacedShape(owned, xs, v, 0);
    if OwnedCount(owned, xs) > 0 {
      var k: nat :| PlacedThere(owned, xs, v, Placed(owned, xs, v, 0), k);
      assert xs[k := v] == xs[..k] + [v] + xs[k+1..];
    }
  }

  /** Placing an entry keeps the entries of others, in order, and makes at least one owned;
      further owned entries stay. */
  lemma PlacingKeepsForeign<T>(owned: T -> bool, xs: seq<T>, v: T)
    requires owned(v)
    ensures var ys := Placed(owned, xs, v, 0).0;
            v in ys && Foreign(owned, ys) == Foreign(owned, xs)
            && OwnedCount(owned, ys) == if OwnedCount(owned, xs) == 0 then 1 else OwnedCount(owned, xs)
  {
    PlacedShape(owned, xs, v, 0);
    if OwnedCount(owned, xs) > 0 {
      var k: nat :| PlacedThere(owned, xs, v, Placed(owned, xs, v, 0), k);
      assert xs == xs[..k] + [xs[k]] + xs[k+1..];
      SwapKeepsForeign(owned, xs[..k], xs[k], v, xs[k+1..]);
    } else {
      ForeignConcat(owned, xs, [v]);
    }
  }

  lemma SwapKeepsForeign<T>(owned: T -> bool, a: seq<T>, x: T, y: T, b: seq<T>)
    requires owned(x) && owned(y)
    ensures Foreign(owned, a + [x] + b) == Foreign(owned, a + [y] + b)
    ensures OwnedCount(owned, a + [x] + b) == OwnedCount(owned, a + [y] + b) >= 1
  {
    ForeignConcat(owned, a + [x], b);
    ForeignConcat(owned, a + [y], b);
    ForeignConcat(owned, a, [x]);
    ForeignConcat(owned, a, [y]);
    assert Foreign(owned, [x]) == [] && Foreign(owned, [y]) == [];
    assert OwnedCount(owned, [x]) == 1 && OwnedCount(owned, [y]) == 1;
  }

  /** Into a list without owned entries, placing twice is placing once exactly when the entry
      is recognised as owned; otherwise each run appends one more. */
  lemma PlacingTwiceIff<T>(owned: T -> bool, xs: seq<T>, v: T)
    requires OwnedCount(owned, xs) == 0
    ensures var ys := Placed(owned, xs, v, 0).0;
            Placed(owned, ys, v, 0) == (ys, false) <==> owned(v)
  {
    NothingOwned(owned, xs);
    PlacedShape(owned, xs, v, 0);
    var ys := xs + [v];
    forall i | 0 <= i < |xs| ensures !owned(ys[i]) { assert ys[i] == xs[i]; assert xs[i] in xs; }
    PlacedAt(owned, ys, v, 0, |xs|);
    assert ys[|xs| := v] == ys;
  }

  lemma {:induction false} PlacedAt<T>(owned: T -> bool, xs: seq<T>, v: T, i: nat, k: nat)
    requires i <= k < |xs| && forall j :: i <= j < k ==> !owned(xs[j])
    ensures Placed(owned, xs, v, i) == Placed(owned, xs, v, k)
    decreases k - i
  {
    if i < k { PlacedAt(owned, xs, v, i + 1, k); }
  }

  /** A repeated placement changes nothing and says so. */
  lemma PlacingIsIdempotent<T>(owned: T -> bool, xs: seq<T>, v: T)
    requires owned(v)
    ensures var ys := Placed(owned, xs, v, 0).0; Placed(owned, ys, v, 0) == (ys, false)
  {
    PlacedShape(owned, xs, v, 0);
    if OwnedCount(owned, xs) > 0 {
      var k: nat :| PlacedThere(owned, xs, v, Placed(owned, xs, v, 0), k);
      var ys := xs[..k] + [v] + xs[k+1..];
      forall j | 0 <= j < k ensures !owned(ys[j]) { assert ys[j] == xs[j]; }
      PlacedAt(owned, ys, v, 0, k);
      assert ys[k := v] == ys;
    } else {
      PlacingTwiceIff(owned, xs, v);
    }
  }

  // ---------- drop the owned entries, then append ----------

  method Retain<T>(owned: T -> bool, xs: seq<T>) returns (ys: seq<T>)
    ensures ys == Foreign(owned, xs)
  {
    ys := [];
    for i := 0 to |xs|
      invariant ys == Foreign(owned, xs[..i])
    {
      assert xs[..i+1][..i] == xs[..i];
      if !owned(xs[i]) {
        ys := ys + [xs[i]];
      }
    }
    assert xs[..|xs|] == xs;
  }

  /** Afterwards exactly one entry is owned, the others' are as they were, and doing it
      again changes nothing. */
  lemma ReplacingAll<T>(owned: T -> bool, xs: seq<T>, v: T)
    requires owned(v)
    ensures var ys := Foreign(owned, xs) + [v];
            OwnedCount(owned, ys) == 1 && Foreign(owned, ys) == Foreign(owned, xs)
            && Foreign(owned, ys) + [v] == ys
  {
    ForeignIsForeign(owned, xs);
    ForeignConcat(owned, Foreign(owned, xs), [v]);
  }

  // ---------- histories ----------

  datatype Action<T> = Place(entry: T) | Replace(entry: T) | Drop

  function Step<T(==)>(owned: T -> bool, xs: seq<T>, a: Action<T>): seq<T> {
    match a
    case Place(v) => Placed(owned, xs, v, 0).0
    case Replace(v) => Foreign(owned, xs) + [v]
    case Drop => Foreign(owned, xs)
  }

  function Steps<T(==)>(owned: T -> bool, xs: seq<T>, actions: seq<Action<T>>): seq<T> {
    if actions == [] then xs
    else Step(owned, Steps(owned, xs, actions[..|actions|-1]), actions[|actions|-1])
  }

  /** Over any sequence of sets and removes the entries of other tools never change. */
  lemma {:induction false} HistoryKeepsForeign<T>(owned: T -> bool, xs: seq<T>, actions: seq<Action<T>>)
    requires forall a :: a in actions && !a.Drop? ==> owned(a.entry)
    ensures Foreign(owned, Steps(owned, xs, actions)) == Foreign(owned, xs)
  {
    if actions != [] {
      var front, last := actions[..|actions|-1], actions[|actions|-1];
      var ys := Steps(owned, xs, front);
      HistoryKeepsForeign(owned, xs, front);
      assert last in actions;
      match last
      case Place(v) => PlacingKeepsForeign(owned, ys, v);
      case Replace(v) => ReplacingAll(owned, ys, v);
      case Drop => ForeignIsForeign(owned, ys);
    }
  }

  // ---------- parts of entries ----------

  /** The parts of all entries, in order. */
  function Gather<T, U>(part: T -> seq<U>, xs: seq<T>): seq<U> {
    if xs == [] then [] else Gather(part, xs[..|xs|-1]) + part(xs[|xs|-1])
  }

  /** No owned entry has a part. */
  ghost predicate OwnedHaveNone<T, U>(owned: T -> bool, part: T -> seq<U>, xs: seq<T>) {
    forall x :: x in xs && owned(x) ==> part(x) == []
  }

  lemma {:induction false} GatherConcat<T, U>(part: T -> seq<U>, a: seq<T>, b: seq<T>)
    ensures Gather(part, a + b) == Gather(part, a) + Gather(part, b)
  {
    if b == [] {
      assert a + b == a;
    } else {
      assert (a + b)[..|a+b|-1] == a + b[..|b|-1];
      GatherConcat(part, a, b[..|b|-1]);
    }
  }

  lemma GatherSnoc<T, U>(part: T -> seq<U>, a: seq<T>, x: T)
    ensures Gather(part, a + [x]) == Gather(part, a) + part(x)
  {
    assert (a + [x])[..|a|] == a;
  }

  lemma SameFront<T>(a: seq<T>, b: seq<T>, c: seq<T>)
    ensures a + c == b + c <==> a == b
  {
    if a + c == b + c {
      assert |a| == |b|;
      assert a == (a + c)[..|a|] && b == (b + c)[..|b|];
    }
  }

  lemma OwnedHaveNoneSnoc<T, U>(owned: T -> bool, part: T -> seq<U>, a: seq<T>, x: T)
    ensures OwnedHaveNone(owned, part, a + [x]) <==> OwnedHaveNone(owned, part, a) && (owned(x) ==> part(x) == [])
  {
    assert forall y :: y in a + [x] <==> y in a || y == x;
  }

  lemma {:induction false} DroppingShortens<T, U>(owned: T -> bool, part: T -> seq<U>, xs: seq<T>)
    ensures |Gather(part, Foreign(owned, xs))| <= |Gather(part, xs)|
  {
    if xs != [] {
      var front, last := xs[..|xs|-1], xs[|xs|-1];
      DroppingShortens(owned, part, front);
      GatherSnoc(part, Foreign(owned, front), last);
    }
  }

  ghost predicate DroppingKeepsParts<T, U>(owned: T -> bool, part: T -> seq<U>, xs: seq<T>) {
    Gather(part, Foreign(owned, xs)) == Gather(part, xs)
  }

  /** Dropping the owned entries keeps all parts exactly when no owned entry has one. */
  lemma {:induction false} DroppingKeepsPartsIff<T, U>(owned: T -> bool, part: T -> seq<U>, xs: seq<T>)
    ensures DroppingKeepsParts(owned, part, xs) <==> OwnedHaveNone(owned, part, xs)
  {
    if xs != [] {
      var front, last := xs[..|xs|-1], xs[|xs|-1];
      var kept := Foreign(owned, front);
      DroppingKeepsPartsIff(owned, part, front);
      DroppingShortens(owned, part, front);
      assert xs == front + [last];
      OwnedHaveNoneSnoc(owned, part, front, last);
      GatherSnoc(part, kept, last);
      SameFront(Gather(part, kept), Gather(part, front), part(last));
    }
  }

  lemma {:induction false} KeptAreMembers<T>(owned: T -> bool, xs: seq<T>, x: T)
    requires x in Foreign(owned, xs)
    ensures x in xs && !owned(x)
  {
    if x in Foreign(owned, xs[..|xs|-1]) {
      KeptAreMembers(owned, xs[..|xs|-1], x);
      assert x in xs[..|xs|-1];
    }
  }

  lemma GatherAround<T, U>(part: T -> seq<U>, a: seq<T>, x: T, b: seq<T>)
    requires part(x) == []
    ensures Gather(part, a + [x] + b) == Gather(part, a) + Gather(part, b)
  {
    GatherConcat(part, a + [x], b);
    GatherSnoc(part, a, x);
  }

  /** So does placing an entry without parts. */
  lemma PlacingKeepsParts<T, U>(owned: T -> bool, part: T -> seq<U>, xs: seq<T>, v: T)
    requires OwnedHaveNone(owned, part, xs) && part(v) == []
    ensures Gather(part, Placed(owned, xs, v, 0).0) == Gather(part, xs)
    ensures OwnedHaveNone(owned, part, Placed(owned, xs, v, 0).0)
  {
    PlacedShape(owned, xs, v, 0);
    if OwnedCount(owned, xs) == 0 {
      GatherSnoc(part, xs, v);
    } else {
      var k: nat :| PlacedThere(owned, xs, v, Placed(owned, xs, v, 0), k);
      assert xs[k] in xs;
      assert xs == xs[..k] + [xs[k]] + xs[k+1..];
      GatherAround(part, xs[..k], xs[k], xs[k+1..]);
      GatherAround(part, xs[..k], v, xs[k+1..]);
    }
  }
}
