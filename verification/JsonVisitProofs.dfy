/** The visitor that rebuilds a value rebuilds it from every valid sequence of callbacks. */
module JsonVisitProofs {
  import opened Results
  import opened Json
  import opened JsonVisit

  // ---------- Positions ----------

  lemma {:induction false} PutTwice(fields: Fields, key: string, a: Value, b: Value)
    ensures Put(Put(fields, key, a), key, b) == Put(fields, key, b)
  {
    if fields != [] && fields[0].key != key {
      PutTwice(fields[1..], key, a, b);
    }
  }

  lemma {:induction false} AssignAt(v: Value, position: Position, w: Value)
    requires At(v, position).Some?
    ensures At(Assign(v, position, w), position) == Some(w)
    decreases |position|
  {
    if position != [] {
      match (v, position[0])
      case (Object(fields), Key(key)) =>
        AssignAt(Find(fields, key).value, position[1..], w);
        FindPut(fields, key, Assign(Find(fields, key).value, position[1..], w), key);
      case (Array(elements), Index(i)) =>
        AssignAt(elements[i], position[1..], w);
    }
  }

  lemma {:induction false} AssignTwice(v: Value, position: Position, w: Value, x: Value)
    requires At(v, position).Some?
    ensures At(Assign(v, position, w), position).Some?
    ensures Assign(Assign(v, position, w), position, x) == Assign(v, position, x)
    decreases |position|
  {
    AssignAt(v, position, w);
    if position != [] {
      match (v, position[0])
      case (Object(fields), Key(key)) =>
        var inner := Assign(Find(fields, key).value, position[1..], w);
        AssignTwice(Find(fields, key).value, position[1..], w, x);
        FindPut(fields, key, inner, key);
        PutTwice(fields, key, inner, Assign(inner, position[1..], x));
      case (Array(elements), Index(i)) =>
        AssignTwice(elements[i], position[1..], w, x);
    }
  }

  /** A child of the value at `position`. */
  ghost function Child(v: Value, step: Step): Option<Value> {
    At(v, [step])
  }

  /** One step further down is the child, and assigning there is assigning the parent with the child replaced. */
  lemma {:induction false} AssignBelow(v: Value, position: Position, step: Step, w: Value)
    requires At(v, position).Some? && Child(At(v, position).value, step).Some?
    ensures At(v, position + [step]) == Child(At(v, position).value, step)
    ensures Assign(v, position + [step], w) == Assign(v, position, Assign(At(v, position).value, [step], w))
    decreases |position|
  {
    if position == [] {
      assert position + [step] == [step];
    } else {
      assert (position + [step])[0] == position[0] && (position + [step])[1..] == position[1..] + [step];
      match (v, position[0])
      case (Object(fields), Key(key)) =>
        AssignBelow(Find(fields, key).value, position[1..], step, w);
      case (Array(elements), Index(i)) =>
        AssignBelow(elements[i], position[1..], step, w);
    }
  }

  // ---------- Running the visitor ----------

  ghost function Run(st: AssignState, events: seq<Event>): Option<AssignState>
    decreases |events|
  {
    if events == [] then Some(st)
    else match AssignStep(st, events[0])
      case None => None
      case Some(next) => Run(next, events[1..])
  }

  lemma {:induction false} RunAppend(st: AssignState, a: seq<Event>, b: seq<Event>)
    ensures Run(st, a + b) == match Run(st, a) case None => None case Some(mid) => Run(mid, b)
    decreases |a|
  {
    if a == [] {
      assert a + b == b;
    } else {
      assert (a + b)[0] == a[0] && (a + b)[1..] == a[1..] + b;
      match AssignStep(st, a[0])
      case None =>
      case Some(next) => RunAppend(next, a[1..], b);
    }
  }

  ghost predicate Leads(st: AssignState, events: seq<Event>, next: AssignState) {
    Run(st, events) == Some(next)
  }

  lemma LeadsAppend(st: AssignState, a: seq<Event>, mid: AssignState, b: seq<Event>, next: AssignState)
    requires Leads(st, a, mid) && Leads(mid, b, next)
    ensures Leads(st, a + b, next)
  {
    RunAppend(st, a, b);
  }

  // ---------- Valid callback sequences ----------

  /** How a value is delivered: whole, or taken apart, with its parts delivered either way in turn. */
  datatype Delivery =
    | Whole(value: Value)
    | ByFields(fields: seq<DeliveredField>)
    | ByElements(elements: seq<Delivery>)

  datatype DeliveredField = DeliveredField(key: string, value: Delivery)

  ghost function Delivered(d: Delivery): Value
    decreases d, 1
  {
    match d
    case Whole(v) => v
    case ByFields(fields) => Object(DeliveredFields(fields))
    case ByElements(elements) => Array(DeliveredElements(elements))
  }

  ghost function DeliveredFields(fields: seq<DeliveredField>): Fields
    decreases fields, 0
  {
    if fields == [] then []
    else DeliveredFields(fields[..|fields| - 1]) + [Field(fields[|fields| - 1].key, Delivered(fields[|fields| - 1].value))]
  }

  ghost function DeliveredElements(elements: seq<Delivery>): seq<Value>
    decreases elements, 0
  {
    if elements == [] then []
    else DeliveredElements(elements[..|elements| - 1]) + [Delivered(elements[|elements| - 1])]
  }

  ghost function Events(d: Delivery): seq<Event>
    decreases d, 2
  {
    match d
    case Whole(v) => [VisitValue(v)]
    case ByFields(fields) => [EnterObject] + FieldsEvents(fields) + [LeaveObject]
    case ByElements(elements) => [EnterArray] + ElementsEvents(elements) + [LeaveArray]
  }

  ghost function FieldEvents(f: DeliveredField): seq<Event>
    decreases f, 3
  {
    [EnterField, VisitValue(String(f.key)), FieldSeparator] + Events(f.value) + [LeaveField]
  }

  ghost function FieldsEvents(fields: seq<DeliveredField>): seq<Event>
    decreases fields, 0
  {
    if fields == [] then []
    else FieldsEvents(fields[..|fields| - 1]) + (if |fields| == 1 then [] else [ObjectSeparator]) + FieldEvents(fields[|fields| - 1])
  }

  ghost function ElementEvents(d: Delivery): seq<Event>
    decreases d, 3
  {
    [EnterElement] + Events(d) + [LeaveElement]
  }

  ghost function ElementsEvents(elements: seq<Delivery>): seq<Event>
    decreases elements, 0
  {
    if elements == [] then []
    else ElementsEvents(elements[..|elements| - 1]) + (if |elements| == 1 then [] else [ArraySeparator]) + ElementEvents(elements[|elements| - 1])
  }

  /** The keys of an object taken apart are distinct, at every depth. */
  ghost predicate DistinctKeys(d: Delivery) {
    || d.Whole?
    || (d.ByFields?
        && (forall i, j | 0 <= i < j < |d.fields| :: d.fields[i].key != d.fields[j].key)
        && (forall f <- d.fields :: DistinctKeys(f.value)))
    || (d.ByElements? && forall e <- d.elements :: DistinctKeys(e))
  }

  // ---------- The theorem ----------

  ghost predicate Ready(st: AssignState) {
    st.cursor != [] && At(st.target, st.cursor[|st.cursor| - 1]).Some? && !st.name
  }

  ghost function Top(st: AssignState): Position
    requires st.cursor != []
  {
    st.cursor[|st.cursor| - 1]
  }

  /** The state with the value under the cursor replaced. */
  ghost function WithTop(st: AssignState, v: Value): AssignState
    requires Ready(st)
  {
    st.(target := Assign(st.target, Top(st), v))
  }

  lemma WithTopTwice(st: AssignState, v: Value, w: Value)
    requires Ready(st)
    ensures Ready(WithTop(st, v)) && At(WithTop(st, v).target, Top(st)) == Some(v)
    ensures WithTop(WithTop(st, v), w) == WithTop(st, w)
  {
    AssignAt(st.target, Top(st), v);
    AssignTwice(st.target, Top(st), v, w);
  }

  /** However a value is delivered, the visitor ends where it started, with the value under its cursor. */
  lemma {:induction false} Rebuilds(st: AssignState, d: Delivery)
    requires Ready(st) && DistinctKeys(d)
    ensures Leads(st, Events(d), WithTop(st, Delivered(d)))
    decreases d, 1
  {
    match d
    case Whole(v) =>
    case ByFields(fields) =>
      RebuildsFields(st, fields);
      var end := WithTop(st, Delivered(d));
      WithTopTwice(st, Delivered(d), Null);
      LeadsAround(st, EnterObject, WithTop(st, Object([])), FieldsEvents(fields), LeaveObject, end);
    case ByElements(elements) =>
      RebuildsElements(st, elements);
      var end := WithTop(st, Delivered(d));
      WithTopTwice(st, Delivered(d), Null);
      LeadsAround(st, EnterArray, WithTop(st, Array([])), ElementsEvents(elements), LeaveArray, end);
  }

  lemma LeadsAround(st: AssignState, enter: Event, start: AssignState, inner: seq<Event>, leave: Event, end: AssignState)
    requires Leads(st, [enter], start) && Leads(start, inner, end) && Leads(end, [leave], end)
    ensures Leads(st, [enter] + inner + [leave], end)
  {
    LeadsAppend(st, [enter], start, inner, end);
    LeadsAppend(st, [enter] + inner, end, [leave], end);
  }

  lemma {:induction false} FreshPut(fields: seq<DeliveredField>, key: string, v: Value)
    requires forall f <- fields :: f.key != key
    ensures Put(DeliveredFields(fields), key, v) == DeliveredFields(fields) + [Field(key, v)]
  {
    DeliveredKeys(fields);
    PutNew(DeliveredFields(fields), key, v);
  }

  lemma {:induction false} DeliveredKeys(fields: seq<DeliveredField>)
    ensures |DeliveredFields(fields)| == |fields|
    ensures forall i | 0 <= i < |fields| :: DeliveredFields(fields)[i].key == fields[i].key
  {
    if fields != [] {
      DeliveredKeys(fields[..|fields| - 1]);
    }
  }

  lemma {:induction false} RebuildsFields(st: AssignState, fields: seq<DeliveredField>)
    requires Ready(st) && DistinctKeys(ByFields(fields))
    ensures Leads(WithTop(st, Object([])), FieldsEvents(fields), WithTop(st, Object(DeliveredFields(fields))))
    decreases fields, 0
  {
    if fields != [] {
      var n := |fields| - 1;
      var before, f := fields[..n], fields[n];
      var start, mid := WithTop(st, Object([])), WithTop(st, Object(DeliveredFields(before)));
      RebuildsFields(st, before);
      WithTopTwice(st, Object(DeliveredFields(before)), Null);
      if |fields| == 1 {
        LeadsAppend(start, FieldsEvents(before), mid, [], mid);
      } else {
        LeadsAppend(start, FieldsEvents(before), mid, [ObjectSeparator], mid);
      }
      RebuildsField(st, before, f);
      LeadsAppend(start, FieldsEvents(before) + (if |fields| == 1 then [] else [ObjectSeparator]), mid,
                  FieldEvents(f), WithTop(st, Object(DeliveredFields(fields))));
    }
  }

  lemma {:induction false} RebuildsField(st: AssignState, before: seq<DeliveredField>, f: DeliveredField)
    requires Ready(st) && DistinctKeys(f.value) && forall g <- before :: g.key != f.key
    ensures Leads(WithTop(st, Object(DeliveredFields(before))), FieldEvents(f),
                  WithTop(st, Object(DeliveredFields(before) + [Field(f.key, Delivered(f.value))])))
    decreases f, 0
  {
    var done := DeliveredFields(before);
    var mid := WithTop(st, Object(done));
    WithTopTwice(st, Object(done), Object(Put(done, f.key, Null)));
    var named := mid.(name := true);
    var grown := WithTop(st, Object(Put(done, f.key, Null)));
    var inside := grown.(cursor := st.cursor + [Top(st) + [Key(f.key)]]);
    var v := Delivered(f.value);
    InsideField(st, done, f.key, v);
    LeadsAppend(mid, [EnterField], named, [VisitValue(String(f.key))], inside.(name := true));
    LeadsAppend(mid, [EnterField] + [VisitValue(String(f.key))], inside.(name := true), [FieldSeparator], inside);
    assert [EnterField] + [VisitValue(String(f.key))] + [FieldSeparator] == [EnterField, VisitValue(String(f.key)), FieldSeparator];
    var end := WithTop(st, Object(done + [Field(f.key, v)]));
    FreshPut(before, f.key, v);
    Rebuilds(inside, f.value);
    LeadsAppend(mid, [EnterField, VisitValue(String(f.key)), FieldSeparator], inside, Events(f.value), end.(cursor := inside.cursor));
    LeadsAppend(mid, [EnterField, VisitValue(String(f.key)), FieldSeparator] + Events(f.value), end.(cursor := inside.cursor), [LeaveField], end);
  }

  lemma AddedField(done: Fields, key: string, v: Value)
    ensures Child(Object(Put(done, key, Null)), Key(key)) == Some(Null)
    ensures Assign(Object(Put(done, key, Null)), [Key(key)], v) == Object(Put(done, key, v))
  {
    assert [Key(key)][1..] == [] && [Key(key)][0] == Key(key);
    assert At(Null, []) == Some(Null);
    FindPut(done, key, Null, key);
    PutTwice(done, key, Null, v);
  }

  /** With the cursor on a field just added, assigning there completes the object above it. */
  lemma InsideField(st: AssignState, done: Fields, key: string, v: Value)
    requires Ready(st)
    ensures var grown := WithTop(st, Object(Put(done, key, Null)));
            var inside := grown.(cursor := st.cursor + [Top(st) + [Key(key)]]);
            && Ready(inside)
            && WithTop(inside, v) == WithTop(st, Object(Put(done, key, v))).(cursor := inside.cursor)
            && At(WithTop(inside, v).target, Top(inside)).Some?
  {
    var outer := Object(Put(done, key, Null));
    var grown := WithTop(st, outer);
    WithTopTwice(st, outer, Object(Put(done, key, v)));
    AddedField(done, key, v);
    assert At(grown.target, Top(st)) == Some(outer);
    AssignBelow(grown.target, Top(st), Key(key), v);
    AssignAt(grown.target, Top(st) + [Key(key)], v);
  }

  lemma {:induction false} RebuildsElements(st: AssignState, elements: seq<Delivery>)
    requires Ready(st) && DistinctKeys(ByElements(elements))
    ensures Leads(WithTop(st, Array([])), ElementsEvents(elements), WithTop(st, Array(DeliveredElements(elements))))
    decreases elements, 0
  {
    if elements != [] {
      var n := |elements| - 1;
      var before, e := elements[..n], elements[n];
      var start, mid := WithTop(st, Array([])), WithTop(st, Array(DeliveredElements(before)));
      assert forall g <- before :: g in elements;
      RebuildsElements(st, before);
      WithTopTwice(st, Array(DeliveredElements(before)), Null);
      if |elements| == 1 {
        LeadsAppend(start, ElementsEvents(before), mid, [], mid);
      } else {
        LeadsAppend(start, ElementsEvents(before), mid, [ArraySeparator], mid);
      }
      assert e in elements;
      RebuildsElement(st, DeliveredElements(before), e);
      LeadsAppend(start, ElementsEvents(before) + (if |elements| == 1 then [] else [ArraySeparator]), mid,
                  ElementEvents(e), WithTop(st, Array(DeliveredElements(elements))));
    }
  }

  lemma {:induction false} RebuildsElement(st: AssignState, done: seq<Value>, e: Delivery)
    requires Ready(st) && DistinctKeys(e)
    ensures Leads(WithTop(st, Array(done)), ElementEvents(e), WithTop(st, Array(done + [Delivered(e)])))
    decreases e, 2
  {
    var mid := WithTop(st, Array(done));
    WithTopTwice(st, Array(done), Array(done + [Null]));
    var inside := WithTop(st, Array(done + [Null])).(cursor := st.cursor + [Top(st) + [Index(|done|)]]);
    var v := Delivered(e);
    InsideElement(st, done, v);
    Rebuilds(inside, e);
    var end := WithTop(st, Array(done + [v]));
    LeadsAppend(mid, [EnterElement], inside, Events(e), end.(cursor := inside.cursor));
    LeadsAppend(mid, [EnterElement] + Events(e), end.(cursor := inside.cursor), [LeaveElement], end);
  }

  lemma LastElement(done: seq<Value>, v: Value)
    ensures Child(Array(done + [Null]), Index(|done|)) == Some(Null)
    ensures Assign(Array(done + [Null]), [Index(|done|)], v) == Array(done + [v])
  {
    assert [Index(|done|)][1..] == [] && [Index(|done|)][0] == Index(|done|);
    assert At(Null, []) == Some(Null);
    assert (done + [Null])[|done| := v] == done + [v];
  }

  /** With the cursor on an element just added, assigning there completes the array above it. */
  lemma InsideElement(st: AssignState, done: seq<Value>, v: Value)
    requires Ready(st)
    ensures var grown := WithTop(st, Array(done + [Null]));
            var inside := grown.(cursor := st.cursor + [Top(st) + [Index(|done|)]]);
            && Ready(inside)
            && WithTop(inside, v) == WithTop(st, Array(done + [v])).(cursor := inside.cursor)
            && At(WithTop(inside, v).target, Top(inside)).Some?
  {
    var outer := Array(done + [Null]);
    var grown := WithTop(st, outer);
    WithTopTwice(st, outer, Array(done + [v]));
    LastElement(done, v);
    assert At(grown.target, Top(st)) == Some(outer);
    AssignBelow(grown.target, Top(st), Index(|done|), v);
    AssignAt(grown.target, Top(st) + [Index(|done|)], v);
  }

  /** A fresh visitor on any target: the target becomes the delivered value, the cursor stack is as deep
      as it was, and no name is awaited. */
  lemma RebuildsFromScratch(target: Value, d: Delivery)
    requires DistinctKeys(d)
    ensures Run(AssignState(target, [[]], false), Events(d)) == Some(AssignState(Delivered(d), [[]], false))
  {
    Rebuilds(AssignState(target, [[]], false), d);
  }

  // ---------- Visiting copies ----------

  /** The delivery that takes every object and array apart. */
  ghost function TakenApart(v: Value): Delivery
    decreases v, 1
  {
    match v
    case Array(elements) => ByElements(seq(|elements|, i requires 0 <= i < |elements| => TakenApart(elements[i])))
    case Object(fields) =>
      ByFields(seq(|fields|, i requires 0 <= i < |fields| => DeliveredField(fields[i].key, TakenApart(fields[i].value))))
    case _ => Whole(v)
  }

  lemma {:induction false} TakenApartDelivers(v: Value)
    requires WellFormed(v)
    ensures Delivered(TakenApart(v)) == v && DistinctKeys(TakenApart(v)) && Events(TakenApart(v)) == Callbacks(v)
    decreases v
  {
    match v
    case Array(elements) =>
      var parts := TakenApart(v).elements;
      forall i | 0 <= i < |elements|
        ensures Delivered(parts[i]) == elements[i] && DistinctKeys(parts[i]) && Events(parts[i]) == Callbacks(elements[i])
      {
        TakenApartDelivers(elements[i]);
      }
      PartsDeliver(elements, parts);
    case Object(fields) =>
      var parts := TakenApart(v).fields;
      forall i | 0 <= i < |fields|
        ensures parts[i].key == fields[i].key
        ensures Delivered(parts[i].value) == fields[i].value && DistinctKeys(parts[i].value)
        ensures Events(parts[i].value) == Callbacks(fields[i].value)
      {
        assert fields[i] in fields;
        TakenApartDelivers(fields[i].value);
      }
      FieldPartsDeliver(fields, parts);
    case _ =>
  }

  /** The callbacks of all elements but the last, then those of the last. */
  lemma {:induction false} ElementsCallbacksLast(elements: seq<Value>, last: Value)
    ensures ElementsCallbacks(elements + [last]) ==
            ElementsCallbacks(elements) + (if elements == [] then [] else [ArraySeparator]) + ElementCallbacks(last)
  {
    if elements == [] {
      assert elements + [last] == [last];
      assert ElementsCallbacks([last]) == ElementCallbacks(last) + [];
    } else {
      assert (elements + [last])[0] == elements[0] && (elements + [last])[1..] == elements[1..] + [last];
      ElementsCallbacksLast(elements[1..], last);
      var head, tail := ElementCallbacks(elements[0]), ElementsCallbacks(elements[1..]);
      if |elements| == 1 {
        BehindOne(head, ArraySeparator, ElementCallbacks(last));
      } else {
        BehindMany(head, ArraySeparator, tail, ElementCallbacks(last));
      }
    }
  }

  lemma BehindOne(head: seq<Event>, separator: Event, last: seq<Event>)
    ensures head + ([separator] + ([] + [] + last)) == head + [] + [separator] + last
  {
  }

  lemma BehindMany(head: seq<Event>, separator: Event, tail: seq<Event>, last: seq<Event>)
    ensures head + ([separator] + (tail + [separator] + last)) == head + ([separator] + tail) + [separator] + last
  {
  }

  lemma {:induction false} FieldsCallbacksLast(fields: Fields, last: Field)
    ensures FieldsCallbacks(fields + [last]) ==
            FieldsCallbacks(fields) + (if fields == [] then [] else [ObjectSeparator]) + FieldCallbacks(last)
  {
    if fields == [] {
      assert fields + [last] == [last];
      assert FieldsCallbacks([last]) == FieldCallbacks(last) + [];
    } else {
      assert (fields + [last])[0] == fields[0] && (fields + [last])[1..] == fields[1..] + [last];
      FieldsCallbacksLast(fields[1..], last);
      var head, tail := FieldCallbacks(fields[0]), FieldsCallbacks(fields[1..]);
      if |fields| == 1 {
        BehindOne(head, ObjectSeparator, FieldCallbacks(last));
      } else {
        BehindMany(head, ObjectSeparator, tail, FieldCallbacks(last));
      }
    }
  }

  lemma {:induction false} PartsDeliver(elements: seq<Value>, parts: seq<Delivery>)
    requires |parts| == |elements|
    requires forall i | 0 <= i < |elements| :: Delivered(parts[i]) == elements[i] && Events(parts[i]) == Callbacks(elements[i])
    ensures DeliveredElements(parts) == elements && ElementsEvents(parts) == ElementsCallbacks(elements)
    decreases |parts|
  {
    if parts != [] {
      var n := |parts| - 1;
      PartsDeliver(elements[..n], parts[..n]);
      assert elements == elements[..n] + [elements[n]];
      ElementsCallbacksLast(elements[..n], elements[n]);
    }
  }

  lemma {:induction false} FieldPartsDeliver(fields: Fields, parts: seq<DeliveredField>)
    requires |parts| == |fields|
    requires forall i | 0 <= i < |fields| ::
               parts[i].key == fields[i].key && Delivered(parts[i].value) == fields[i].value && Events(parts[i].value) == Callbacks(fields[i].value)
    ensures DeliveredFields(parts) == fields && FieldsEvents(parts) == FieldsCallbacks(fields)
    decreases |parts|
  {
    if parts != [] {
      var n := |parts| - 1;
      FieldPartsDeliver(fields[..n], parts[..n]);
      assert fields == fields[..n] + [fields[n]];
      FieldsCallbacksLast(fields[..n], fields[n]);
    }
  }

  /** Feeding the callbacks of a visit to the rebuilding visitor copies the visited value. */
  lemma VisitingCopies(target: Value, v: Value)
    requires WellFormed(v)
    ensures Run(AssignState(target, [[]], false), Callbacks(v)) == Some(AssignState(v, [[]], false))
  {
    TakenApartDelivers(v);
    RebuildsFromScratch(target, TakenApart(v));
  }
}
