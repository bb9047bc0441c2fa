/** The laws of inserting and extracting by key path, and what unflatten lets extract recover. */
module JsonPathsProofs {
  import opened Results
  import opened Json
  import opened JsonPaths

  lemma TouchFinds(fields: Fields, key: string, other: string)
    ensures Find(Touch(fields, key), other) ==
            if other == key && Find(fields, key) == None then Some(Null) else Find(fields, other)
  {
    FindPut(fields, key, Null, other);
  }

  /** A failed insertion leaves the object exactly as it was: no sub-object is left half-made. */
  lemma {:induction false} FailedInsertChangesNothing(fields: Fields, path: Path, value: Value)
    requires !Insert(fields, path, value).0
    ensures Insert(fields, path, value).1 == fields
    decreases |path|
  {
    var touched := Touch(fields, path[0]);
    TouchFinds(fields, path[0], path[0]);
    var field := Find(touched, path[0]).value;
    if |path| > 1 && (field.Null? || field.Object?) {
      var inner := if field.Object? then field.fields else [];
      if field.Null? {
        InsertIntoEmpty(path[1..], value);
      } else {
        FailedInsertChangesNothing(inner, path[1..], value);
        PutSame(fields, path[0]);
      }
    }
  }

  lemma {:induction false} InsertIntoEmpty(path: Path, value: Value)
    ensures Insert([], path, value).0
    decreases |path|
  {
    if |path| > 1 {
      TouchFinds([], path[0], path[0]);
      InsertIntoEmpty(path[1..], value);
    }
  }

  /** Nothing on the path but missing or null fields and objects, and nothing but null at its end. */
  ghost predicate Vacant(fields: Fields, path: Path)
    decreases |path|
  {
    path == [] ||
    match Find(fields, path[0])
    case None => true
    case Some(Null) => true
    case Some(Object(inner)) => |path| > 1 && Vacant(inner, path[1..])
    case _ => false
  }

  lemma {:induction false} InsertSucceedsIffVacant(fields: Fields, path: Path, value: Value)
    ensures Insert(fields, path, value).0 <==> Vacant(fields, path)
    decreases |path|
  {
    if path != [] {
      TouchFinds(fields, path[0], path[0]);
      var field := Find(Touch(fields, path[0]), path[0]).value;
      if |path| > 1 {
        if field.Null? {
          InsertIntoEmpty(path[1..], value);
        } else if field.Object? {
          InsertSucceedsIffVacant(field.fields, path[1..], value);
        }
      }
    }
  }

  lemma OneObject(fields: Fields, path: Path)
    requires path != []
    ensures CollectAll([fields], path) == Collect(fields, path)
  {
    assert CollectAll([fields], path) == Collect(fields, path) + [];
  }

  /** The field at the head of the path after a successful insertion. */
  lemma InsertedHead(fields: Fields, path: Path, value: Value)
    requires path != [] && Insert(fields, path, value).0
    ensures var inserted := Insert(fields, path, value).1;
            var inner := match Find(fields, path[0]) case Some(Object(f)) => f case _ => [];
            && Find(inserted, path[0]) ==
               (if |path| == 1 then Some(value) else Some(Object(Insert(inner, path[1..], value).1)))
            && (|path| > 1 ==> Insert(inner, path[1..], value).0)
            && (|path| > 1 ==> Find(fields, path[0]) == None || Find(fields, path[0]) == Some(Null) || Find(fields, path[0]) == Some(Object(inner)))
            && forall key | key != path[0] :: Find(inserted, key) == Find(fields, key)
  {
    var touched := Touch(fields, path[0]);
    TouchFinds(fields, path[0], path[0]);
    var inserted := Insert(fields, path, value).1;
    var v := if |path| == 1 then value
             else Object(Insert(if Find(touched, path[0]).value.Object? then Find(touched, path[0]).value.fields else [], path[1..], value).1);
    assert inserted == Put(touched, path[0], v);
    forall key
      ensures Find(inserted, key) == if key == path[0] then Some(v) else Find(fields, key)
    {
      FindPut(touched, path[0], v, key);
      TouchFinds(fields, path[0], key);
    }
  }

  /** What was inserted is what is extracted. */
  lemma {:induction false} ExtractInserted(fields: Fields, path: Path, value: Value)
    requires path != [] && Insert(fields, path, value).0
    ensures Extract(Insert(fields, path, value).1, path) == (true, value)
    ensures Collect(Insert(fields, path, value).1, path) == [value]
    decreases |path|
  {
    InsertedHead(fields, path, value);
    if |path| > 1 {
      var inner := match Find(fields, path[0]) case Some(Object(f)) => f case _ => [];
      ExtractInserted(inner, path[1..], value);
      OneObject(Insert(inner, path[1..], value).1, path[1..]);
    }
  }

  ghost predicate Incomparable(p: Path, q: Path) {
    !(p <= q) && !(q <= p)
  }

  lemma {:induction false} NothingInEmpty(path: Path)
    requires path != []
    ensures Collect([], path) == [] && !MeetsArray([], path)
  {
  }

  /** Through an object, or through nothing as through an empty one. */
  lemma OneDown(fields: Fields, inner: Fields, path: Path)
    requires |path| > 1
    requires Find(fields, path[0]) == Some(Object(inner)) || (inner == [] && Find(fields, path[0]) in [None, Some(Null)])
    ensures Collect(fields, path) == Collect(inner, path[1..])
    ensures MeetsArray(fields, path) == MeetsArray(inner, path[1..])
  {
    OneObject(inner, path[1..]);
    NothingInEmpty(path[1..]);
  }

  /** Paths that are neither prefixes nor extensions of the inserted one lead where they led before. */
  lemma {:induction false} InsertLeavesOthers(fields: Fields, path: Path, value: Value, other: Path)
    requires Insert(fields, path, value).0 && Incomparable(path, other)
    ensures Collect(Insert(fields, path, value).1, other) == Collect(fields, other)
    ensures MeetsArray(Insert(fields, path, value).1, other) == MeetsArray(fields, other)
    decreases |path|
  {
    InsertedHead(fields, path, value);
    if path[0] == other[0] {
      var inner := match Find(fields, path[0]) case Some(Object(f)) => f case _ => [];
      InsertLeavesOthers(inner, path[1..], value, other[1..]);
      OneDown(Insert(fields, path, value).1, Insert(inner, path[1..], value).1, other);
      OneDown(fields, inner, other);
    }
  }

  lemma ExtractUnaffected(fields: Fields, path: Path, value: Value, other: Path)
    requires Insert(fields, path, value).0 && Incomparable(path, other)
    ensures Extract(Insert(fields, path, value).1, other) == Extract(fields, other)
  {
    InsertLeavesOthers(fields, path, value, other);
  }

  lemma {:induction false} InsertKeepsVacant(fields: Fields, path: Path, value: Value, other: Path)
    requires Insert(fields, path, value).0 && Incomparable(path, other) && Vacant(fields, other)
    ensures Vacant(Insert(fields, path, value).1, other)
    decreases |path|
  {
    InsertedHead(fields, path, value);
    if path[0] == other[0] {
      var inner := match Find(fields, path[0]) case Some(Object(f)) => f case _ => [];
      InsertKeepsVacant(inner, path[1..], value, other[1..]);
    }
  }

  /** Keys stay unique at every depth, whether or not the insertion succeeds. */
  lemma {:induction false} InsertKeepsWellFormed(fields: Fields, path: Path, value: Value)
    requires WellFormedFields(fields) && WellFormed(value)
    ensures WellFormedFields(Insert(fields, path, value).1)
    decreases |path|
  {
    if path != [] {
      var touched := Touch(fields, path[0]);
      PutWellFormed(fields, path[0], Null);
      FindIsField(touched, path[0]);
      var field := Find(touched, path[0]).value;
      if |path| == 1 {
        PutWellFormed(touched, path[0], value);
      } else if field.Null? || field.Object? {
        var inner := if field.Object? then field.fields else [];
        InsertKeepsWellFormed(inner, path[1..], value);
        PutWellFormed(touched, path[0], Object(Insert(inner, path[1..], value).1));
      }
    }
  }

  // ---------- unflatten ----------

  /** Whatever the dotted keys, repeated ones included. */
  lemma UnflattenIsWellFormed(params: Fields)
    requires forall p <- params :: WellFormed(p.value)
    ensures WellFormedFields(Unflatten(params))
  {
    InsertAllWellFormed([], params);
  }

  lemma {:induction false} InsertAllWellFormed(fields: Fields, params: Fields)
    requires WellFormedFields(fields) && forall p <- params :: WellFormed(p.value)
    ensures WellFormedFields(InsertAll(fields, params))
    decreases |params|
  {
    if params != [] {
      InsertKeepsWellFormed(fields, KeyPath(params[0]), params[0].value);
      InsertAllWellFormed(Insert(fields, KeyPath(params[0]), params[0].value).1, params[1..]);
    }
  }

  ghost function KeyPath(f: Field): Path {
    Split(f.key)
  }

  /** No dotted key is a prefix of another, part by part. */
  ghost predicate PrefixFree(params: Fields) {
    forall i, j | 0 <= i < j < |params| :: Incomparable(KeyPath(params[i]), KeyPath(params[j]))
  }

  lemma {:induction false} InsertAllLeavesOthers(fields: Fields, params: Fields, other: Path)
    requires PrefixFree(params) && forall p <- params :: Vacant(fields, KeyPath(p)) && Incomparable(KeyPath(p), other)
    ensures Extract(InsertAll(fields, params), other) == Extract(fields, other)
    decreases |params|
  {
    if params != [] {
      var p := params[0];
      InsertSucceedsIffVacant(fields, KeyPath(p), p.value);
      ExtractUnaffected(fields, KeyPath(p), p.value, other);
      KeepsAllVacant(fields, params);
      InsertAllLeavesOthers(Insert(fields, KeyPath(p), p.value).1, params[1..], other);
    }
  }

  lemma KeepsAllVacant(fields: Fields, params: Fields)
    requires params != [] && PrefixFree(params) && forall p <- params :: Vacant(fields, KeyPath(p))
    ensures Insert(fields, KeyPath(params[0]), params[0].value).0
    ensures PrefixFree(params[1..])
    ensures forall p <- params[1..] :: Vacant(Insert(fields, KeyPath(params[0]), params[0].value).1, KeyPath(p))
  {
    InsertSucceedsIffVacant(fields, KeyPath(params[0]), params[0].value);
    forall i | 0 <= i < |params[1..]|
      ensures Vacant(Insert(fields, KeyPath(params[0]), params[0].value).1, KeyPath(params[1..][i]))
    {
      assert params[1..][i] == params[i + 1];
      InsertKeepsVacant(fields, KeyPath(params[0]), params[0].value, KeyPath(params[i + 1]));
    }
  }

  lemma {:induction false} InsertAllRecovers(fields: Fields, params: Fields, i: nat)
    requires PrefixFree(params) && i < |params| && forall p <- params :: Vacant(fields, KeyPath(p))
    ensures Extract(InsertAll(fields, params), KeyPath(params[i])) == (true, params[i].value)
    decreases |params|
  {
    var next := Insert(fields, KeyPath(params[0]), params[0].value).1;
    KeepsAllVacant(fields, params);
    if i > 0 {
      InsertAllRecovers(next, params[1..], i - 1);
    } else {
      ExtractInserted(fields, KeyPath(params[0]), params[0].value);
      forall j | 0 <= j < |params[1..]|
        ensures Incomparable(KeyPath(params[1..][j]), KeyPath(params[0]))
      {
        assert params[1..][j] == params[j + 1];
        assert Incomparable(KeyPath(params[0]), KeyPath(params[j + 1]));
      }
      InsertAllLeavesOthers(next, params[1..], KeyPath(params[0]));
    }
  }

  /** Of a prefix-free set of dotted keys, unflatten lets extract recover every parameter, and nothing else. */
  lemma UnflattenRecovers(params: Fields)
    requires PrefixFree(params)
    ensures forall p <- params :: Extract(Unflatten(params), KeyPath(p)) == (true, p.value)
    ensures forall other: Path | other != [] && forall p <- params :: Incomparable(KeyPath(p), other) ::
              Extract(Unflatten(params), other) == (false, Null)
  {
    forall i | 0 <= i < |params| {
      InsertAllRecovers([], params, i);
    }
    forall other: Path | other != [] && forall p <- params :: Incomparable(KeyPath(p), other)
      ensures Extract(Unflatten(params), other) == (false, Null)
    {
      InsertAllLeavesOthers([], params, other);
      NothingInEmpty(other);
    }
  }
}
