/** Configuration trees and updates along a path of object keys
    (crates/mnem-cli/src/integrate.rs). Serves for YAML mappings with string keys as well. */
module Json {
  import opened Options

  datatype Json =
    | Null
    | Bool(b: bool)
    | Number(n: int)
    | Str(s: string)
    | Arr(items: seq<Json>)
    | Obj(fields: map<string, Json>)

  type Path = seq<string>

  function Lookup(root: Json, path: Path): Option<Json> {
    if path == [] then Some(root)
    else if root.Obj? && path[0] in root.fields then Lookup(root.fields[path[0]], path[1..])
    else None
  }

  function GetStr(root: Json, path: Path): Option<string> {
    match Lookup(root, path)
    case Some(Str(s)) => Some(s)
    case _ => None
  }

  const EMPTY := Obj(map[])

  function Child(root: Json, key: string): Json
    requires root.Obj?
  {
    if key in root.fields then root.fields[key] else EMPTY
  }

  /** Sets a string, creating missing objects on the way; stops at anything else. */
  function SetStr(root: Json, path: Path, val: string): Json
    decreases |path|
  {
    if path == [] || !root.Obj? then root
    else if |path| == 1 then Obj(root.fields[path[0] := Str(val)])
    else Obj(root.fields[path[0] := SetStr(Child(root, path[0]), path[1..], val)])
  }

  /** Something that is not an object lies on the way. */
  predicate Blocked(root: Json, path: Path) {
    path != [] &&
    (!root.Obj? || (|path| > 1 && path[0] in root.fields && Blocked(root.fields[path[0]], path[1..])))
  }

  /** Sets a value, replacing whatever is not an object on the way. */
  function Force(root: Json, path: Path, val: Json): Json
    decreases |path|
  {
    if path == [] then val
    else
      var fields := if root.Obj? then root.fields else map[];
      var child := if path[0] in fields then fields[path[0]] else EMPTY;
      Obj(fields[path[0] := Force(child, path[1..], val)])
  }

  /** Removes a key, if objects lead to it. */
  function Without(root: Json, path: Path): Json {
    if path == [] || !root.Obj? || path[0] !in root.fields then root
    else if |path| == 1 then Obj(root.fields - {path[0]})
    else Obj(root.fields[path[0] := Without(root.fields[path[0]], path[1..])])
  }

  predicate Extends(longer: Path, shorter: Path) {
    shorter <= longer
  }

  // ---------- laws ----------

  /** Set then get; a blocked path leaves the tree as it is. */
  lemma {:induction false} SetThenGet(root: Json, path: Path, val: string)
    requires path != []
    ensures Blocked(root, path) ==> SetStr(root, path, val) == root
    ensures !Blocked(root, path) ==> GetStr(SetStr(root, path, val), path) == Some(val)
    decreases |path|
  {
    if root.Obj? {
      if |path| == 1 {
        assert Lookup(Str(val), path[1..]) == Some(Str(val));
      } else {
        var child := Child(root, path[0]);
        SetThenGet(child, path[1..], val);
        if path[0] in root.fields { assert root.fields[path[0] := child] == root.fields; }
      }
    }
  }

  /** Reads at paths that do not extend the written one are unaffected. */
  lemma {:induction false} SetLeavesOthers(root: Json, path: Path, val: string, other: Path)
    requires !Extends(other, path)
    ensures GetStr(SetStr(root, path, val), other) == GetStr(root, other)
    decreases |path|
  {
    if path != [] && root.Obj? && other != [] && other[0] == path[0] {
      assert path == [path[0]] + path[1..] && other == [other[0]] + other[1..];
      if |path| > 1 {
        SetLeavesOthers(Child(root, path[0]), path[1..], val, other[1..]);
        if path[0] !in root.fields { EmptyHasNoStrings(other[1..]); }
      }
    }
  }

  lemma EmptyHasNoStrings(path: Path)
    ensures GetStr(EMPTY, path) == None
  {
  }

  /** Writing back what was read changes nothing. */
  lemma {:induction false} GetThenSet(root: Json, path: Path)
    ensures GetStr(root, path).Some? ==> SetStr(root, path, GetStr(root, path).value) == root
  {
    if path != [] && GetStr(root, path).Some? {
      GetThenSet(root.fields[path[0]], path[1..]);
      if |path| == 1 {
        assert Lookup(root.fields[path[0]], path[1..]) == Some(root.fields[path[0]]);
      }
      assert root.fields[path[0] := root.fields[path[0]]] == root.fields;
    }
  }

  /** The last write wins. */
  lemma {:induction false} SetThenSet(root: Json, path: Path, v: string, w: string)
    ensures SetStr(SetStr(root, path, v), path, w) == SetStr(root, path, w)
    decreases |path|
  {
    if path != [] && root.Obj? {
      var k := path[0];
      if |path| == 1 {
        assert root.fields[k := Str(v)][k := Str(w)] == root.fields[k := Str(w)];
      } else {
        var a, b := SetStr(Child(root, k), path[1..], v), SetStr(Child(root, k), path[1..], w);
        SetThenSet(Child(root, k), path[1..], v, w);
        assert root.fields[k := a][k := b] == root.fields[k := b];
      }
    }
  }

  /** A forced write is there afterwards, and writing it again changes nothing. */
  lemma {:induction false} ForceThenLookup(root: Json, path: Path, val: Json)
    ensures Lookup(Force(root, path, val), path) == Some(val)
    ensures Force(Force(root, path, val), path, val) == Force(root, path, val)
    decreases |path|
  {
    if path != [] {
      var fields := if root.Obj? then root.fields else map[];
      var child := if path[0] in fields then fields[path[0]] else EMPTY;
      var made := Force(child, path[1..], val);
      ForceThenLookup(child, path[1..], val);
      assert fields[path[0] := made][path[0] := made] == fields[path[0] := made];
    }
  }

  /** Where the value already is, forcing it changes nothing. */
  lemma {:induction false} ForcePresent(root: Json, path: Path, val: Json)
    requires Lookup(root, path) == Some(val)
    ensures Force(root, path, val) == root
  {
    if path != [] {
      ForcePresent(root.fields[path[0]], path[1..], val);
      assert root.fields[path[0] := root.fields[path[0]]] == root.fields;
    }
  }

  /** Values off the path survive a forced write: only what stood on the path, where an
      object is needed, can be lost. */
  lemma {:induction false} ForceLeavesOthers(root: Json, path: Path, val: Json, other: Path)
    requires !Extends(other, path) && !Extends(path, other)
    ensures Lookup(Force(root, path, val), other) == Lookup(root, other)
    decreases |path|
  {
    var fields := if root.Obj? then root.fields else map[];
    if other[0] == path[0] {
      assert path == [path[0]] + path[1..] && other == [other[0]] + other[1..];
      var child := if path[0] in fields then fields[path[0]] else EMPTY;
      ForceLeavesOthers(child, path[1..], val, other[1..]);
      assert other[1..] != [];
    }
  }

  /** Every value that is not an object, and not at or below the written path, is kept. */
  ghost predicate LosesNothing(root: Json, path: Path, val: Json) {
    forall other ::
      IsLeaf(root, other) && !Extends(other, path) ==> Lookup(Force(root, path, val), other) == Lookup(root, other)
  }

  predicate IsLeaf(root: Json, path: Path) {
    Lookup(root, path).Some? && !Lookup(root, path).value.Obj?
  }

  /** Where a forced write overwrites: the first value on the way that is not an object. */
  lemma {:induction false} BlockedAt(root: Json, path: Path, val: Json) returns (at: Path)
    requires Blocked(root, path)
    ensures Extends(path, at) && at != path && IsLeaf(root, at)
    ensures Lookup(Force(root, path, val), at).Some? && Lookup(Force(root, path, val), at).value.Obj?
    decreases |path|
  {
    if !root.Obj? {
      at := [];
    } else {
      var below := BlockedAt(root.fields[path[0]], path[1..], val);
      at := [path[0]] + below;
      assert at[1..] == below;
      assert path == [path[0]] + path[1..];
    }
  }

  lemma {:induction false} OpenPathHasObjects(root: Json, path: Path, at: Path)
    requires !Blocked(root, path) && Extends(path, at) && at != path
    ensures !IsLeaf(root, at)
    decreases |path|
  {
    if at != [] && root.Obj? && path[0] in root.fields {
      assert at[0] == path[0] && Extends(path[1..], at[1..]);
      assert at == [at[0]] + at[1..] && path == [path[0]] + path[1..];
      OpenPathHasObjects(root.fields[path[0]], path[1..], at[1..]);
    }
  }

  /** A forced write loses a value of the user exactly when the path is blocked. */
  lemma ForceLosesNothingIff(root: Json, path: Path, val: Json)
    requires path != []
    ensures LosesNothing(root, path, val) <==> !Blocked(root, path)
  {
    if Blocked(root, path) {
      var at := BlockedAt(root, path, val);
      assert IsLeaf(root, at) && !Extends(at, path);
    } else {
      forall other | IsLeaf(root, other) && !Extends(other, path)
        ensures Lookup(Force(root, path, val), other) == Lookup(root, other)
      {
        if Extends(path, other) {
          OpenPathHasObjects(root, path, other);
        } else {
          ForceLeavesOthers(root, path, val, other);
        }
      }
    }
  }

  lemma {:induction false} WithoutThenLookup(root: Json, path: Path)
    requires path != []
    ensures Lookup(Without(root, path), path) == None
    ensures Lookup(root, path) == None ==> Without(root, path) == root
  {
    if root.Obj? && path[0] in root.fields {
      if |path| > 1 {
        WithoutThenLookup(root.fields[path[0]], path[1..]);
        assert root.fields[path[0] := root.fields[path[0]]] == root.fields;
      } else {
        assert Lookup(root.fields[path[0]], path[1..]) == Some(root.fields[path[0]]);
      }
    }
  }

  /** Integrating and removing restores the tree exactly when the container was there and
      the entry was not. */
  lemma {:induction false} ForceThenWithoutIff(root: Json, path: Path, val: Json)
    requires path != []
    ensures Without(Force(root, path, val), path) == root <==> HasContainer(root, path) && Lookup(root, path) == None
    decreases |path|
  {
    var fields := if root.Obj? then root.fields else map[];
    var k := path[0];
    if |path| == 1 {
      assert fields[k := val] - {k} == fields - {k};
      assert Lookup(val, path[1..]) == Some(val);
      if root.Obj? && k !in root.fields { assert fields - {k} == fields; }
      if root.Obj? && k in root.fields {
        assert Lookup(root.fields[k], path[1..]) == Some(root.fields[k]);
        assert k !in (fields - {k});
      }
    } else {
      var child := if k in fields then fields[k] else EMPTY;
      var made := Force(child, path[1..], val);
      ForceThenWithoutIff(child, path[1..], val);
      var back := Without(made, path[1..]);
      assert Without(Force(root, path, val), path) == Obj(fields[k := made][k := back]);
      assert fields[k := made][k := back] == fields[k := back];
      if root.Obj? && k in root.fields {
        assert fields[k := back][k] == back;
        if back == child { assert fields[k := child] == fields; }
      }
    }
  }

  /** Setting a string and removing it restores the tree exactly when its container was there
      and nothing was at its place. */
  lemma {:induction false} SetThenWithoutIff(root: Json, path: Path, val: string)
    requires path != [] && !Blocked(root, path)
    ensures Without(SetStr(root, path, val), path) == root <==> HasContainer(root, path) && Lookup(root, path) == None
    decreases |path|
  {
    var fields, k := root.fields, path[0];
    if |path| == 1 {
      assert fields[k := Str(val)] - {k} == fields - {k};
      if k in fields {
        assert Lookup(fields[k], path[1..]) == Some(fields[k]);
        assert k !in (fields - {k});
      } else {
        assert fields - {k} == fields;
      }
    } else {
      var child := Child(root, k);
      var made := SetStr(child, path[1..], val);
      SetThenWithoutIff(child, path[1..], val);
      var back := Without(made, path[1..]);
      assert Without(SetStr(root, path, val), path) == Obj(fields[k := made][k := back]);
      assert fields[k := made][k := back] == fields[k := back];
      if k in fields {
        assert fields[k := back][k] == back;
        if back == child { assert fields[k := child] == fields; }
      }
    }
  }

  /** Objects lead up to the last key. */
  predicate HasContainer(root: Json, path: Path) {
    path != [] && root.Obj? &&
    (|path| == 1 || (path[0] in root.fields && HasContainer(root.fields[path[0]], path[1..])))
  }

  // ---------- short paths, written out ----------

  function ObjectFields(v: Json): map<string, Json> {
    if v.Obj? then v.fields else map[]
  }

  function ChildOr(fields: map<string, Json>, key: string): Json {
    if key in fields then fields[key] else EMPTY
  }

  lemma OneKey(root: Json, a: string, val: Json)
    ensures Lookup(root, [a]) == if a in ObjectFields(root) then Some(root.fields[a]) else None
    ensures Force(root, [a], val) == Obj(ObjectFields(root)[a := val])
    ensures Without(root, [a]) == if a in ObjectFields(root) then Obj(root.fields - {a}) else root
  {
    assert [a][1..] == [];
    if a in ObjectFields(root) { assert Lookup(root.fields[a], []) == Some(root.fields[a]); }
  }

  lemma TwoKeys(root: Json, a: string, b: string, val: Json)
    ensures Lookup(root, [a, b]) == if a in ObjectFields(root) then Lookup(root.fields[a], [b]) else None
    ensures Force(root, [a, b], val) == Obj(ObjectFields(root)[a := Force(ChildOr(ObjectFields(root), a), [b], val)])
    ensures Without(root, [a, b]) ==
            if a in ObjectFields(root) then Obj(root.fields[a := Without(root.fields[a], [b])]) else root
  {
    assert [a, b][1..] == [b];
  }

  lemma ThreeKeys(root: Json, a: string, b: string, c: string, val: Json)
    ensures Lookup(root, [a, b, c]) == if a in ObjectFields(root) then Lookup(root.fields[a], [b, c]) else None
    ensures Force(root, [a, b, c], val) == Obj(ObjectFields(root)[a := Force(ChildOr(ObjectFields(root), a), [b, c], val)])
    ensures Without(root, [a, b, c]) ==
            if a in ObjectFields(root) then Obj(root.fields[a := Without(root.fields[a], [b, c])]) else root
  {
    assert [a, b, c][1..] == [b, c];
  }

  lemma SameField(root: Json, a: string)
    ensures root.Obj? && a in root.fields ==> Obj(root.fields[a := root.fields[a]]) == root
  {
    if root.Obj? && a in root.fields { assert root.fields[a := root.fields[a]] == root.fields; }
  }
}
