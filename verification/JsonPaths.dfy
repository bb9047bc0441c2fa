/** Fields of nested objects addressed by key paths (insert, extract and unflatten of json_utils.cpp). */
module JsonPaths {
  import opened Results
  import opened Json
  import opened Sequences

  type Path = seq<string>

  // ---------- Dotted keys ----------

  /** The parts of a key between its dots; there is always at least one. */
  function Split(key: string): (parts: Path)
    ensures parts != []
  {
    if key == "" then [""]
    else
      var rest := Split(key[1..]);
      if key[0] == '.' then [""] + rest else [[key[0]] + rest[0]] + rest[1..]
  }

  ghost function Join(parts: Path): string
    requires parts != []
  {
    if |parts| == 1 then parts[0] else parts[0] + "." + Join(parts[1..])
  }

  /** The parts hold no dots, and joined with dots they are the key. */
  lemma {:induction false} SplitJoin(key: string)
    ensures Join(Split(key)) == key
    ensures forall part <- Split(key) :: '.' !in part
  {
    if key != "" {
      SplitJoin(key[1..]);
      var rest := Split(key[1..]);
      if key[0] == '.' {
        assert Split(key)[1..] == rest;
        assert Join(Split(key)) == "" + "." + Join(rest);
      } else {
        assert Split(key)[1..] == rest[1..];
        if |rest| > 1 {
          assert ([key[0]] + rest[0]) + "." + Join(rest[1..]) == [key[0]] + (rest[0] + "." + Join(rest[1..]));
        }
      }
    }
  }

  // ---------- insert ----------

  /** What evaluating `object[key]` does to the object: a missing field is added as null. */
  function Touch(fields: Fields, key: string): (touched: Fields)
    ensures Find(touched, key).Some?
  {
    FindPut(fields, key, Null, key);
    if Find(fields, key) == None then Put(fields, key, Null) else fields
  }

  /** Whether the insertion succeeded, and the object as it is left either way. */
  function Insert(fields: Fields, path: Path, value: Value): (bool, Fields)
    decreases |path|
  {
    if path == [] then (true, fields)
    else
      var touched := Touch(fields, path[0]);
      var field := Find(touched, path[0]).value;
      if |path| == 1 then
        if field.Null? then (true, Put(touched, path[0], value)) else (false, touched)
      else if field.Null? || field.Object? then
        var (ok, sub) := Insert(if field.Object? then field.fields else [], path[1..], value);
        (ok, Put(touched, path[0], Object(sub)))
      else (false, touched)
  }

  /** The whole object, from the sub-object the path has led to and the objects and keys on the way there. */
  ghost function Rebuild(spine: seq<(Fields, string)>, current: Fields): Fields
    decreases |spine|
  {
    if spine == [] then current
    else
      var (outer, key) := spine[|spine| - 1];
      Rebuild(spine[..|spine| - 1], Put(outer, key, Object(current)))
  }

  /** The original moves a pointer down the path and assigns through it; `spine` is the way back up. */
  method InsertField(root: Fields, path: Path, value: Value) returns (ok: bool, result: Fields)
    ensures (ok, result) == Insert(root, path, value)
  {
    var spine: seq<(Fields, string)> := [];
    var current := root;
    ok := true;
    for i := 0 to |path|
      invariant ok
      invariant var (done, left) := Insert(current, path[i..], value);
                Insert(root, path, value) == (done, Rebuild(spine, left))
    {
      var key := path[i];
      assert path[i..][1..] == path[i + 1..];
      current := Touch(current, key);
      var field := Find(current, key).value;
      if i + 1 < |path| {
        if !field.Null? && !field.Object? {
          ok := false;
          break;
        }
        var inner := if field.Object? then field.fields else [];
        ghost var before := spine;
        spine := spine + [(current, key)];
        assert spine[..|spine| - 1] == before;
        current := inner;
      } else {
        if !field.Null? {
          ok := false;
          break;
        }
        current := Put(current, key, value);
        assert path[i + 1..] == [];
      }
    }
    result := Ascend(spine, current);
  }

  method Ascend(path: seq<(Fields, string)>, bottom: Fields) returns (top: Fields)
    ensures top == Rebuild(path, bottom)
  {
    top := bottom;
    var spine := path;
    while spine != []
      invariant Rebuild(spine, top) == Rebuild(path, bottom)
      decreases |spine|
    {
      var (outer, key) := spine[|spine| - 1];
      top := Put(outer, key, Object(top));
      spine := spine[..|spine| - 1];
    }
  }

  // ---------- extract ----------

  /** The objects an intermediate field leads to: itself, or the objects among its elements. */
  function Children(v: Value): seq<Fields> {
    match v
    case Array(elements) => ObjectsOf(elements)
    case Object(fields) => [fields]
    case _ => []
  }

  function ObjectOf(v: Value): seq<Fields> {
    if v.Object? then [v.fields] else []
  }

  function ObjectsOf(elements: seq<Value>): seq<Fields> {
    if elements == [] then []
    else ObjectOf(elements[0]) + ObjectsOf(elements[1..])
  }

  function ChildrenAt(fields: Fields, key: string): seq<Fields> {
    if Find(fields, key).Some? then Children(Find(fields, key).value) else []
  }

  /** The values the path leads to, in document order. */
  function Collect(fields: Fields, path: Path): seq<Value>
    requires path != []
    decreases |path|, 0
  {
    if |path| == 1 then
      if Find(fields, path[0]).Some? then [Find(fields, path[0]).value] else []
    else CollectAll(ChildrenAt(fields, path[0]), path[1..])
  }

  function CollectAll(objects: seq<Fields>, path: Path): seq<Value>
    requires path != []
    decreases |path|, 1, |objects|
  {
    if objects == [] then [] else Collect(objects[0], path) + CollectAll(objects[1..], path)
  }

  /** Whether an array is met on the path before its last key. */
  function MeetsArray(fields: Fields, path: Path): bool
    decreases |path|
  {
    |path| > 1 &&
    match Find(fields, path[0])
    case Some(Array(_)) => true
    case Some(Object(inner)) => MeetsArray(inner, path[1..])
    case _ => false
  }

  /** Arrays found at the last key are merged into the result. */
  function Spliced(values: seq<Value>): seq<Value> {
    if values == [] then []
    else (if values[0].Array? then values[0].elements else [values[0]]) + Spliced(values[1..])
  }

  function ResultOf(values: seq<Value>, met: bool): Value {
    if met then Array(Spliced(values)) else if values == [] then Null else values[0]
  }

  /** Whether anything was found, and the result: an array if one was met on the way, the value itself if not. */
  function Extract(fields: Fields, path: Path): (bool, Value) {
    if path == [] then (false, Null)
    else
      var found := Collect(fields, path);
      (found != [], ResultOf(found, MeetsArray(fields, path)))
  }

  // ---------- extract's loops ----------

  ghost function AllChildrenAt(objects: seq<Fields>, key: string): seq<Fields> {
    if objects == [] then [] else ChildrenAt(objects[0], key) + AllChildrenAt(objects[1..], key)
  }

  ghost predicate AnyMeetsArray(objects: seq<Fields>, path: Path) {
    exists o <- objects :: MeetsArray(o, path)
  }

  lemma {:induction false} CollectAllAppend(a: seq<Fields>, b: seq<Fields>, path: Path)
    requires path != []
    ensures CollectAll(a + b, path) == CollectAll(a, path) + CollectAll(b, path)
  {
    if a == [] {
      assert a + b == b;
    } else {
      assert (a + b)[1..] == a[1..] + b;
      CollectAllAppend(a[1..], b, path);
    }
  }

  ghost predicate IsArrayAt(fields: Fields, key: string) {
    Find(fields, key).Some? && Find(fields, key).value.Array?
  }

  ghost predicate AnyArrayAt(objects: seq<Fields>, key: string) {
    exists i | 0 <= i < |objects| :: IsArrayAt(objects[i], key)
  }

  lemma AnyArrayAppend(objects: seq<Fields>, o: Fields, key: string)
    ensures AnyArrayAt(objects + [o], key) == (AnyArrayAt(objects, key) || IsArrayAt(o, key))
  {
    if AnyArrayAt(objects, key) {
      var i :| 0 <= i < |objects| && IsArrayAt(objects[i], key);
      assert IsArrayAt((objects + [o])[i], key);
    }
    assert (objects + [o])[|objects|] == o;
  }

  /** Going one level down for all objects at once finds the same values in the same order. */
  lemma {:induction false} CollectLevel(objects: seq<Fields>, path: Path)
    requires |path| > 1
    ensures CollectAll(objects, path) == CollectAll(AllChildrenAt(objects, path[0]), path[1..])
    decreases |objects|
  {
    if objects != [] {
      CollectLevel(objects[1..], path);
      CollectAllAppend(ChildrenAt(objects[0], path[0]), AllChildrenAt(objects[1..], path[0]), path[1..]);
    }
  }

  lemma {:induction false} AllChildrenAppend(objects: seq<Fields>, o: Fields, key: string)
    ensures AllChildrenAt(objects + [o], key) == AllChildrenAt(objects, key) + ChildrenAt(o, key)
  {
    if objects == [] {
      assert objects + [o] == [o] && [o][1..] == [];
    } else {
      assert (objects + [o])[1..] == objects[1..] + [o];
      AllChildrenAppend(objects[1..], o, key);
    }
  }

  lemma {:induction false} ObjectsAppend(elements: seq<Value>, e: Value)
    ensures ObjectsOf(elements + [e]) == ObjectsOf(elements) + ObjectOf(e)
  {
    if elements == [] {
      assert elements + [e] == [e] && [e][1..] == [];
      assert ObjectsOf([e]) == ObjectOf(e) + [];
    } else {
      assert (elements + [e])[0] == elements[0] && (elements + [e])[1..] == elements[1..] + [e];
      ObjectsAppend(elements[1..], e);
      Associates(ObjectOf(elements[0]), ObjectsOf(elements[1..]), ObjectOf(e));
    }
  }

  lemma {:induction false} SplicedAppend(values: seq<Value>, v: Value)
    ensures Spliced(values + [v]) == Spliced(values) + if v.Array? then v.elements else [v]
  {
    if values == [] {
      assert values + [v] == [v] && [v][1..] == [];
    } else {
      assert (values + [v])[1..] == values[1..] + [v];
      SplicedAppend(values[1..], v);
      Associates(if values[0].Array? then values[0].elements else [values[0]], Spliced(values[1..]),
                 if v.Array? then v.elements else [v]);
    }
  }

  /** Replaces the object at `at` by the objects its field leads to, which are inserted before it. */
  method Descend(objects: seq<Fields>, at: nat, field: Value) returns (grown: seq<Fields>, next: nat)
    requires at < |objects|
    ensures grown == objects[..at] + Children(field) + objects[at..] && next == at + |Children(field)|
  {
    grown, next := objects, at;
    if field.Array? {
      for i := 0 to |field.elements|
        invariant grown == objects[..at] + ObjectsOf(field.elements[..i]) + objects[at..]
        invariant next == at + |ObjectsOf(field.elements[..i])|
      {
        assert field.elements[..i + 1] == field.elements[..i] + [field.elements[i]];
        ObjectsAppend(field.elements[..i], field.elements[i]);
        if field.elements[i].Object? {
          grown := grown[..next] + [field.elements[i].fields] + grown[next..];
          next := next + 1;
        }
      }
      assert field.elements[..|field.elements|] == field.elements;
    } else if field.Object? {
      grown := grown[..next] + [field.fields] + grown[next..];
      next := next + 1;
    }
  }

  lemma LevelNext(level: seq<Fields>, key: string, j: nat)
    requires j < |level|
    ensures AllChildrenAt(level[..j + 1], key) == AllChildrenAt(level[..j], key) + ChildrenAt(level[j], key)
    ensures AnyArrayAt(level[..j + 1], key) == (AnyArrayAt(level[..j], key) || IsArrayAt(level[j], key))
  {
    assert level[..j + 1] == level[..j] + [level[j]];
    AllChildrenAppend(level[..j], level[j], key);
    AnyArrayAppend(level[..j], level[j], key);
  }

  /** One level of the descent: the list of objects is rewritten in place, each object giving way to the
      objects its field leads to. `met` records whether `results` has become an array. */
  method MapLevel(level: seq<Fields>, key: string, alreadyMet: bool) returns (objects: seq<Fields>, met: bool)
    requires alreadyMet || |level| <= 1
    ensures objects == AllChildrenAt(level, key)
    ensures met == (alreadyMet || AnyArrayAt(level, key))
    ensures met || |objects| <= 1
  {
    objects, met := level, alreadyMet;
    var at := 0;
    ghost var j := 0;
    while at < |objects|
      invariant 0 <= j <= |level| && 0 <= at <= |objects|
      invariant objects[..at] == AllChildrenAt(level[..j], key) && objects[at..] == level[j..]
      invariant met == (alreadyMet || AnyArrayAt(level[..j], key))
      invariant met || at <= j
      decreases |level| - j
    {
      var found := Find(objects[at], key);
      assert level[j] == objects[at] && level[j..][1..] == level[j + 1..];
      LevelNext(level, key, j);
      if found.Some? {
        if found.value.Array? {
          met := true;
        }
        ghost var front, rest := objects[..at], objects[at..];
        objects, at := Descend(objects, at, found.value);
        Parts(front + Children(found.value), rest);
      }
      Removed(objects, at);
      objects := objects[..at] + objects[at + 1..];
      j := j + 1;
    }
    assert level[..j] == level;
  }

  /** The last key: each object contributes its field, and arrays are merged once `results` is an array. */
  method MergeLeaves(objects: seq<Fields>, key: string, met: bool) returns (found: bool, results: Value)
    requires met || |objects| <= 1
    ensures var values := CollectAll(objects, [key]);
            found == (values != []) && results == ResultOf(values, met)
  {
    found := false;
    results := if met then Array([]) else Null;
    for i := 0 to |objects|
      invariant i == 0 ==> CollectAll(objects[..i], [key]) == []
      invariant found == (CollectAll(objects[..i], [key]) != [])
      invariant results == ResultOf(CollectAll(objects[..i], [key]), met)
    {
      ghost var before := CollectAll(objects[..i], [key]);
      assert objects[..i + 1] == objects[..i] + [objects[i]];
      CollectAllAppend(objects[..i], [objects[i]], [key]);
      assert CollectAll([objects[i]], [key]) == Collect(objects[i], [key]) + [];
      assert CollectAll(objects[..i + 1], [key]) == before + Collect(objects[i], [key]);
      var leaf := Find(objects[i], key);
      if leaf.Some? {
        SplicedAppend(before, leaf.value);
        if !met {
          assert before == [];
          results := leaf.value;
        } else if leaf.value.Array? {
          results := Array(results.elements + leaf.value.elements);
        } else {
          results := Array(results.elements + [leaf.value]);
        }
        found := true;
        assert results == ResultOf(before + [leaf.value], met);
      } else {
        assert before + [] == before;
      }
    }
    assert objects[..|objects|] == objects;
  }

  method ExtractFields(root: Fields, path: Path) returns (found: bool, results: Value)
    ensures (found, results) == Extract(root, path)
  {
    found, results := false, Null;
    var objects := [root];
    var met := false;
    if path != [] {
      assert CollectAll(objects, path) == Collect(root, path);
      for i := 0 to |path| - 1
        invariant met || |objects| <= 1
        invariant CollectAll(objects, path[i..]) == Collect(root, path)
        invariant MeetsArray(root, path) == (met || AnyMeetsArray(objects, path[i..]))
      {
        CollectLevel(objects, path[i..]);
        assert path[i..][1..] == path[i + 1..];
        ghost var level := objects;
        ghost var before := met;
        objects, met := MapLevel(objects, path[i], met);
        MeetsArrayLevel(level, path[i..], before);
      }
      assert path[|path| - 1..] == [path[|path| - 1]];
      found, results := MergeLeaves(objects, path[|path| - 1], met);
    }
  }

  /** While no array has been met there is at most one object, so one level tells the whole story. */
  lemma MeetsArrayLevel(level: seq<Fields>, path: Path, met: bool)
    requires |path| > 1 && (met || |level| <= 1)
    ensures (met || AnyMeetsArray(level, path)) ==
            (met || AnyArrayAt(level, path[0]) || AnyMeetsArray(AllChildrenAt(level, path[0]), path[1..]))
  {
    if !met && level != [] {
      var o := level[0];
      assert level == [o] && level[1..] == [];
      assert AllChildrenAt(level, path[0]) == ChildrenAt(o, path[0]) + [];
      assert AnyArrayAt(level, path[0]) == IsArrayAt(o, path[0]);
      assert AnyMeetsArray(level, path) == MeetsArray(o, path);
      if Find(o, path[0]).Some? && Find(o, path[0]).value.Object? {
        var inner := Find(o, path[0]).value.fields;
        assert AllChildrenAt(level, path[0]) == [inner];
        assert AnyMeetsArray([inner], path[1..]) == MeetsArray(inner, path[1..]);
      }
    }
  }

  // ---------- unflatten ----------

  function InsertAll(fields: Fields, params: Fields): Fields
    decreases |params|
  {
    if params == [] then fields
    else InsertAll(Insert(fields, Split(params[0].key), params[0].value).1, params[1..])
  }

  /** An object with a nested field for every parameter whose dotted key can still be inserted. */
  function Unflatten(params: Fields): Fields {
    InsertAll([], params)
  }

  method UnflattenParams(params: Fields) returns (result: Fields)
    ensures result == Unflatten(params)
  {
    result := [];
    for i := 0 to |params|
      invariant InsertAll(result, params[i..]) == Unflatten(params)
    {
      assert params[i..][1..] == params[i + 1..];
      var path := Split(params[i].key);
      var ok, grown := InsertField(result, path, params[i].value);
      result := grown;
    }
  }
}
