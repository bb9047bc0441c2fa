/** JSON values. An object is the list of its fields; keys are unique in a well-formed value.
    A field that is new to an object goes to the end. */
module Json {
  import opened Results

  datatype Value =
    | Null
    | Bool(b: bool)
    | Number(text: string)
    | String(s: string)
    | Array(elements: seq<Value>)
    | Object(fields: seq<Field>)
  {
    predicate IsComposite() {
      Array? || Object?
    }
  }

  datatype Field = Field(key: string, value: Value)

  type Fields = seq<Field>

  function Find(fields: Fields, key: string): Option<Value> {
    if fields == [] then None
    else if fields[0].key == key then Some(fields[0].value)
    else Find(fields[1..], key)
  }

  function ValueOr(found: Option<Value>, otherwise: Value): Value {
    if found.Some? then found.value else otherwise
  }

  /** Assigns to the field with this key, which is added if there is none. */
  function Put(fields: Fields, key: string, value: Value): Fields {
    if fields == [] then [Field(key, value)]
    else if fields[0].key == key then [Field(key, value)] + fields[1..]
    else [fields[0]] + Put(fields[1..], key, value)
  }

  function Erase(fields: Fields, key: string): Fields {
    if fields == [] then []
    else if fields[0].key == key then fields[1..]
    else [fields[0]] + Erase(fields[1..], key)
  }

  ghost predicate UniqueKeys(fields: Fields) {
    forall i, j | 0 <= i < j < |fields| :: fields[i].key != fields[j].key
  }

  ghost predicate WellFormed(v: Value) {
    || (v.Array? && forall e <- v.elements :: WellFormed(e))
    || (v.Object? && UniqueKeys(v.fields) && forall f <- v.fields :: WellFormed(f.value))
    || !v.IsComposite()
  }

  ghost predicate WellFormedFields(fields: Fields) {
    WellFormed(Object(fields))
  }

  // ---------- Reading what was written ----------

  lemma {:induction false} FindPut(fields: Fields, key: string, value: Value, other: string)
    ensures Find(Put(fields, key, value), other) == if other == key then Some(value) else Find(fields, other)
  {
    if fields != [] && fields[0].key != key {
      FindPut(fields[1..], key, value, other);
    }
  }

  lemma {:induction false} FindIsField(fields: Fields, key: string)
    ensures Find(fields, key).Some? ==> Field(key, Find(fields, key).value) in fields
    ensures Find(fields, key) == None <==> forall f <- fields :: f.key != key
  {
    if fields != [] {
      FindIsField(fields[1..], key);
      assert forall f <- fields :: f == fields[0] || f in fields[1..];
    }
  }

  lemma {:induction false} FindOfField(fields: Fields, i: nat)
    requires UniqueKeys(fields) && i < |fields|
    ensures Find(fields, fields[i].key) == Some(fields[i].value)
  {
    if i > 0 {
      FindOfField(fields[1..], i - 1);
    }
  }

  lemma {:induction false} FindErase(fields: Fields, key: string, other: string)
    requires UniqueKeys(fields)
    ensures Find(Erase(fields, key), other) == if other == key then None else Find(fields, other)
  {
    if fields != [] {
      if fields[0].key != key {
        FindErase(fields[1..], key, other);
      } else if other == key {
        FindIsField(fields[1..], key);
      }
    }
  }

  lemma {:induction false} PutSame(fields: Fields, key: string)
    requires Find(fields, key).Some?
    ensures Put(fields, key, Find(fields, key).value) == fields
  {
    if fields[0].key != key {
      PutSame(fields[1..], key);
    } else {
      assert [Field(key, fields[0].value)] + fields[1..] == fields;
    }
  }

  lemma {:induction false} PutKeys(fields: Fields, key: string, value: Value)
    ensures forall f <- Put(fields, key, value) :: f == Field(key, value) || f in fields
    ensures UniqueKeys(fields) ==> UniqueKeys(Put(fields, key, value))
  {
    if fields != [] && fields[0].key != key {
      PutKeys(fields[1..], key, value);
      var tail := Put(fields[1..], key, value);
      assert Put(fields, key, value)[1..] == tail;
      if UniqueKeys(fields) {
        assert UniqueKeys(fields[1..]);
        forall i | 0 <= i < |tail|
          ensures tail[i].key != fields[0].key
        {
          assert tail[i] in tail;
        }
      }
    }
  }

  lemma {:induction false} PutNew(fields: Fields, key: string, value: Value)
    requires forall f <- fields :: f.key != key
    ensures Put(fields, key, value) == fields + [Field(key, value)]
  {
    if fields != [] {
      PutNew(fields[1..], key, value);
      assert fields == [fields[0]] + fields[1..];
    }
  }

  lemma {:induction false} EraseKeys(fields: Fields, key: string)
    ensures forall f <- Erase(fields, key) :: f in fields
    ensures UniqueKeys(fields) ==> UniqueKeys(Erase(fields, key))
  {
    if fields != [] && fields[0].key != key {
      EraseKeys(fields[1..], key);
      var tail := Erase(fields[1..], key);
      if UniqueKeys(fields) {
        assert UniqueKeys(fields[1..]);
        forall i | 0 <= i < |tail|
          ensures tail[i].key != fields[0].key
        {
          assert tail[i] in tail;
        }
      }
    }
  }

  lemma PutWellFormed(fields: Fields, key: string, value: Value)
    requires WellFormedFields(fields) && WellFormed(value)
    ensures WellFormedFields(Put(fields, key, value))
  {
    PutKeys(fields, key, value);
  }
}
