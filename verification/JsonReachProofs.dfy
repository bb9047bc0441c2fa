/** What extract finds, said without its lists of objects: the values at the positions where the keys of the path are
    followed one after the other, with at most one array entered between two keys, in document order. */
module JsonReachProofs {
  import opened Results
  import opened Json
  import opened JsonPaths
  import JsonPathsProofs
  import opened JsonVisit
  import opened Sequences

  // ---------- Walks ----------

  /** The keys in order, with an index between two of them or not. */
  ghost predicate Follows(p: Position, path: Path)
    decreases |path|
  {
    && path != [] && p != [] && p[0] == Key(path[0])
    && if |path| == 1 then |p| == 1
       else Follows(p[1..], path[1..]) || (|p| > 1 && p[1].Index? && Follows(p[2..], path[1..]))
  }

  /** A position of the object that the path leads to. */
  ghost predicate IsWalk(fields: Fields, path: Path, p: Position) {
    Follows(p, path) && At(Object(fields), p).Some?
  }

  /** In front of the other in the document: an earlier element of an array that both are in. */
  ghost predicate Earlier(p: Position, q: Position) {
    exists k :: 0 <= k < |p| && k < |q| && p[..k] == q[..k] && p[k].Index? && q[k].Index? && p[k].i < q[k].i
  }

  ghost predicate InDocumentOrder(walks: seq<Position>) {
    forall i, j | 0 <= i < j < |walks| :: Earlier(walks[i], walks[j])
  }

  /** An array is met in front of the last key, with nothing but objects before it. */
  ghost predicate ArrayOnTheWay(fields: Fields, path: Path) {
    exists k | 0 < k < |path| :: IsArray(At(Object(fields), Keys(path[..k])))
  }

  ghost predicate IsArray(found: Option<Value>) {
    found.Some? && found.value.Array?
  }

  ghost function Keys(path: Path): Position {
    seq(|path|, i requires 0 <= i < |path| => Key(path[i]))
  }

  /** The elements of an array, or the value itself. */
  ghost function Part(v: Value): seq<Value> {
    if v.Array? then v.elements else [v]
  }

  ghost function Concatenated(parts: seq<seq<Value>>): seq<Value> {
    if parts == [] then [] else Concatenated(parts[..|parts| - 1]) + parts[|parts| - 1]
  }

  // ---------- The walks of an object, one after the other ----------

  ghost function Prefixed(step: Step, ps: seq<Position>): seq<Position> {
    seq(|ps|, i requires 0 <= i < |ps| => [step] + ps[i])
  }

  ghost function Walks(fields: Fields, path: Path): seq<Position>
    decreases |path|, 0, 0
  {
    if path == [] || Find(fields, path[0]) == None then []
    else if |path| == 1 then [[Key(path[0])]]
    else
      match Find(fields, path[0]).value
      case Object(inner) => Prefixed(Key(path[0]), Walks(inner, path[1..]))
      case Array(elements) => Prefixed(Key(path[0]), ElementWalks(elements, 0, path[1..]))
      case _ => []
  }

  ghost function ElementWalks(elements: seq<Value>, from: nat, path: Path): seq<Position>
    requires from <= |elements|
    decreases |path|, 1, |elements| - from
  {
    if from == |elements| then []
    else
      (if elements[from].Object? then Prefixed(Index(from), Walks(elements[from].fields, path)) else []) +
      ElementWalks(elements, from + 1, path)
  }

  // ---------- Their values ----------

  ghost predicate Lead(v: Value, ps: seq<Position>, values: seq<Value>) {
    |ps| == |values| && forall i | 0 <= i < |ps| :: At(v, ps[i]) == Some(values[i])
  }

  lemma LeadAppend(v: Value, ps: seq<Position>, a: seq<Value>, qs: seq<Position>, b: seq<Value>)
    requires Lead(v, ps, a) && Lead(v, qs, b)
    ensures Lead(v, ps + qs, a + b)
  {
  }

  lemma AtStep(v: Value, step: Step, p: Position)
    ensures At(v, [step] + p) == if At(v, [step]).Some? then At(At(v, [step]).value, p) else None
  {
    assert ([step] + p)[1..] == p && [step][1..] == [];
  }

  lemma LeadPrefixed(v: Value, step: Step, w: Value, ps: seq<Position>, values: seq<Value>)
    requires At(v, [step]) == Some(w) && Lead(w, ps, values)
    ensures Lead(v, Prefixed(step, ps), values)
  {
    forall i | 0 <= i < |ps| {
      AtStep(v, step, ps[i]);
    }
  }

  lemma AtKey(fields: Fields, key: string)
    ensures At(Object(fields), [Key(key)]) == Find(fields, key)
  {
    assert [Key(key)][1..] == [];
  }

  lemma AtIndex(elements: seq<Value>, i: nat)
    ensures At(Array(elements), [Index(i)]) == if i < |elements| then Some(elements[i]) else None
  {
    assert [Index(i)][1..] == [];
  }

  lemma {:induction false} WalksLead(fields: Fields, path: Path)
    requires path != []
    ensures Lead(Object(fields), Walks(fields, path), Collect(fields, path))
    decreases |path|, 0, 0
  {
    AtKey(fields, path[0]);
    if |path| > 1 && Find(fields, path[0]).Some? {
      var v := Find(fields, path[0]).value;
      match v
      case Object(inner) =>
        WalksLead(inner, path[1..]);
        JsonPathsProofs.OneObject(inner, path[1..]);
        LeadPrefixed(Object(fields), Key(path[0]), v, Walks(inner, path[1..]), Collect(inner, path[1..]));
      case Array(elements) =>
        ElementWalksLead(elements, 0, path[1..]);
        assert elements[0..] == elements;
        LeadPrefixed(Object(fields), Key(path[0]), v, ElementWalks(elements, 0, path[1..]), CollectAll(ObjectsOf(elements), path[1..]));
      case _ =>
    }
  }

  lemma {:induction false} ElementWalksLead(elements: seq<Value>, from: nat, path: Path)
    requires path != [] && from <= |elements|
    ensures Lead(Array(elements), ElementWalks(elements, from, path), CollectAll(ObjectsOf(elements[from..]), path))
    decreases |path|, 1, |elements| - from
  {
    if from < |elements| {
      var e := elements[from];
      assert elements[from..][0] == e && elements[from..][1..] == elements[from + 1..];
      ElementWalksLead(elements, from + 1, path);
      CollectAllAppend(ObjectOf(e), ObjectsOf(elements[from + 1..]), path);
      AtIndex(elements, from);
      if e.Object? {
        WalksLead(e.fields, path);
        JsonPathsProofs.OneObject(e.fields, path);
        LeadPrefixed(Array(elements), Index(from), e, Walks(e.fields, path), Collect(e.fields, path));
        LeadAppend(Array(elements), Prefixed(Index(from), Walks(e.fields, path)), Collect(e.fields, path),
                   ElementWalks(elements, from + 1, path), CollectAll(ObjectsOf(elements[from + 1..]), path));
      } else {
        EmptyPrefix(ElementWalks(elements, from + 1, path));
        EmptyPrefix(CollectAll(ObjectsOf(elements[from + 1..]), path));
      }
    }
  }

  // ---------- They are all the walks there are ----------

  lemma PrefixedMember(step: Step, ps: seq<Position>, p: Position)
    ensures p in Prefixed(step, ps) <==> p != [] && p[0] == step && p[1..] in ps
  {
    if p != [] && p[0] == step && p[1..] in ps {
      var i :| 0 <= i < |ps| && ps[i] == p[1..];
      HeadTail(p);
      assert Prefixed(step, ps)[i] == p;
    }
  }

  lemma KeyThenRest(fields: Fields, path: Path, p: Position)
    requires |path| > 1
    ensures IsWalk(fields, path, p) <==>
            && p != [] && p[0] == Key(path[0]) && Find(fields, path[0]).Some?
            && LeadsOn(Find(fields, path[0]).value, path[1..], p[1..])
  {
    if p != [] {
      HeadTail(p);
      AtStep(Object(fields), p[0], p[1..]);
      AtKey(fields, path[0]);
      if |p| > 1 {
        assert p[2..] == p[1..][1..];
      }
    }
  }

  /** From a value to the next key: through the object itself, or through an element. */
  ghost predicate LeadsOn(v: Value, path: Path, p: Position) {
    At(v, p).Some? && (Follows(p, path) || (p != [] && p[0].Index? && Follows(p[1..], path)))
  }

  lemma LeadsOnObject(inner: Fields, path: Path, p: Position)
    ensures LeadsOn(Object(inner), path, p) <==> IsWalk(inner, path, p)
  {
  }

  lemma LeadsOnArray(elements: seq<Value>, path: Path, p: Position)
    ensures LeadsOn(Array(elements), path, p) <==>
            && p != [] && p[0].Index? && p[0].i < |elements| && elements[p[0].i].Object?
            && IsWalk(elements[p[0].i].fields, path, p[1..])
  {
    if p != [] && p[0].Index? {
      HeadTail(p);
      AtStep(Array(elements), p[0], p[1..]);
      AtIndex(elements, p[0].i);
    }
  }

  lemma {:induction false} WalksAreAll(fields: Fields, path: Path, p: Position)
    ensures p in Walks(fields, path) <==> IsWalk(fields, path, p)
    decreases |path|, 0, 0
  {
    if path != [] {
      AtKey(fields, path[0]);
      if |path| == 1 {
        assert |p| == 1 && p[0] == Key(path[0]) ==> p == [Key(path[0])];
        assert Find(fields, path[0]).Some? ==> Walks(fields, path) == [[Key(path[0])]];
      } else {
        KeyThenRest(fields, path, p);
        if Find(fields, path[0]).Some? && p != [] {
          match Find(fields, path[0]).value
          case Object(inner) =>
            PrefixedMember(Key(path[0]), Walks(inner, path[1..]), p);
            WalksAreAll(inner, path[1..], p[1..]);
            LeadsOnObject(inner, path[1..], p[1..]);
          case Array(elements) =>
            PrefixedMember(Key(path[0]), ElementWalks(elements, 0, path[1..]), p);
            ElementWalksAreAll(elements, 0, path[1..], p[1..]);
            LeadsOnArray(elements, path[1..], p[1..]);
          case _ =>
        }
      }
    }
  }

  lemma {:induction false} ElementWalksAreAll(elements: seq<Value>, from: nat, path: Path, p: Position)
    requires from <= |elements|
    ensures p in ElementWalks(elements, from, path) <==>
            && p != [] && p[0].Index? && from <= p[0].i < |elements| && elements[p[0].i].Object?
            && IsWalk(elements[p[0].i].fields, path, p[1..])
    decreases |path|, 1, |elements| - from
  {
    if from < |elements| {
      ElementWalksAreAll(elements, from + 1, path, p);
      if elements[from].Object? {
        PrefixedMember(Index(from), Walks(elements[from].fields, path), p);
        if p != [] {
          WalksAreAll(elements[from].fields, path, p[1..]);
        }
      }
    }
  }

  // ---------- They are in document order ----------

  lemma EarlierBehind(step: Step, p: Position, q: Position)
    requires Earlier(p, q)
    ensures Earlier([step] + p, [step] + q)
  {
    var k :| 0 <= k < |p| && k < |q| && p[..k] == q[..k] && p[k].Index? && q[k].Index? && p[k].i < q[k].i;
    assert ([step] + p)[..k + 1] == [step] + p[..k] && ([step] + q)[..k + 1] == [step] + q[..k];
    assert ([step] + p)[k + 1] == p[k] && ([step] + q)[k + 1] == q[k];
  }

  lemma PrefixedInOrder(step: Step, ps: seq<Position>)
    requires InDocumentOrder(ps)
    ensures InDocumentOrder(Prefixed(step, ps))
  {
    forall i, j | 0 <= i < j < |ps|
      ensures Earlier(Prefixed(step, ps)[i], Prefixed(step, ps)[j])
    {
      EarlierBehind(step, ps[i], ps[j]);
    }
  }

  lemma ElementsInOrder(i: nat, ps: seq<Position>, qs: seq<Position>)
    requires InDocumentOrder(ps) && InDocumentOrder(qs)
    requires forall q: Position | q in qs :: q != [] && q[0].Index? && q[0].i > i
    ensures InDocumentOrder(Prefixed(Index(i), ps) + qs)
  {
    PrefixedInOrder(Index(i), ps);
    var first := Prefixed(Index(i), ps);
    var all := first + qs;
    forall j, k | 0 <= j < k < |all|
      ensures Earlier(all[j], all[k])
    {
      if j < |first| <= k {
        assert all[j][..0] == all[k][..0] && all[k] in qs;
      }
    }
  }

  lemma {:induction false} WalksInOrder(fields: Fields, path: Path)
    ensures InDocumentOrder(Walks(fields, path))
    decreases |path|, 0, 0
  {
    if |path| > 1 && Find(fields, path[0]).Some? {
      match Find(fields, path[0]).value
      case Object(inner) =>
        WalksInOrder(inner, path[1..]);
        PrefixedInOrder(Key(path[0]), Walks(inner, path[1..]));
      case Array(elements) =>
        ElementWalksInOrder(elements, 0, path[1..]);
        PrefixedInOrder(Key(path[0]), ElementWalks(elements, 0, path[1..]));
      case _ =>
    }
  }

  lemma {:induction false} ElementWalksInOrder(elements: seq<Value>, from: nat, path: Path)
    requires from <= |elements|
    ensures InDocumentOrder(ElementWalks(elements, from, path))
    decreases |path|, 1, |elements| - from
  {
    if from < |elements| {
      var rest := ElementWalks(elements, from + 1, path);
      ElementWalksInOrder(elements, from + 1, path);
      if elements[from].Object? {
        WalksInOrder(elements[from].fields, path);
        forall q | q in rest {
          ElementWalksAreAll(elements, from + 1, path, q);
        }
        ElementsInOrder(from, Walks(elements[from].fields, path), rest);
      } else {
        EmptyPrefix(rest);
      }
    }
  }

  // ---------- Arrays on the way ----------

  lemma {:induction false} MeetsArrayIff(fields: Fields, path: Path)
    ensures MeetsArray(fields, path) <==> ArrayOnTheWay(fields, path)
    decreases |path|
  {
    if |path| > 1 {
      AtKey(fields, path[0]);
      assert Keys(path[..1]) == [Key(path[0])];
      forall k | 0 < k < |path|
        ensures At(Object(fields), Keys(path[..k])) ==
                if Find(fields, path[0]).Some? then At(Find(fields, path[0]).value, Keys(path[1..][..k - 1])) else None
      {
        assert Keys(path[..k]) == [Key(path[0])] + Keys(path[1..][..k - 1]);
        AtStep(Object(fields), Key(path[0]), Keys(path[1..][..k - 1]));
      }
      if Find(fields, path[0]).Some? && Find(fields, path[0]).value.Object? {
        MeetsArrayBelow(fields, Find(fields, path[0]).value.fields, path);
      } else if MeetsArray(fields, path) {
        assert Keys(path[1..][..0]) == [];
        assert IsArray(At(Object(fields), Keys(path[..1])));
      } else {
        forall k | 0 < k < |path|
          ensures !IsArray(At(Object(fields), Keys(path[..k])))
        {
          if k > 1 && Find(fields, path[0]).Some? {
            assert Keys(path[1..][..k - 1])[0] == Key(path[1]);
          }
        }
      }
    }
  }

  lemma {:induction false} MeetsArrayBelow(fields: Fields, inner: Fields, path: Path)
    requires |path| > 1 && Find(fields, path[0]) == Some(Object(inner))
    requires forall k | 0 < k < |path| :: At(Object(fields), Keys(path[..k])) == At(Object(inner), Keys(path[1..][..k - 1]))
    ensures MeetsArray(fields, path) <==> ArrayOnTheWay(fields, path)
    decreases |path|, 0
  {
    MeetsArrayIff(inner, path[1..]);
    if ArrayOnTheWay(inner, path[1..]) {
      var k :| 0 < k < |path| - 1 && IsArray(At(Object(inner), Keys(path[1..][..k])));
      assert IsArray(At(Object(fields), Keys(path[..k + 1])));
    }
    if ArrayOnTheWay(fields, path) {
      var k :| 0 < k < |path| && IsArray(At(Object(fields), Keys(path[..k])));
      assert k > 1 by {
        assert Keys(path[1..][..0]) == [];
      }
      assert IsArray(At(Object(inner), Keys(path[1..][..k - 1])));
    }
  }

  /** With no array on the way there is one walk at most. */
  lemma {:induction false} OneWalk(fields: Fields, path: Path)
    requires !MeetsArray(fields, path)
    ensures |Walks(fields, path)| <= 1
    decreases |path|
  {
    if |path| > 1 && Find(fields, path[0]).Some? && Find(fields, path[0]).value.Object? {
      OneWalk(Find(fields, path[0]).value.fields, path[1..]);
    }
  }

  // ---------- The result ----------

  ghost function Parts(values: seq<Value>): seq<seq<Value>> {
    seq(|values|, i requires 0 <= i < |values| => Part(values[i]))
  }

  lemma {:induction false} SplicedParts(values: seq<Value>)
    ensures Spliced(values) == Concatenated(Parts(values))
    decreases |values|
  {
    if values != [] {
      var n := |values| - 1;
      InitLast(values);
      SplicedParts(values[..n]);
      SplicedAppend(values[..n], values[n]);
      assert Parts(values)[..n] == Parts(values[..n]);
    }
  }

  /** What extract finds: the values at all positions the path leads to, in document order. The result is an array
      exactly if an array was met on the way or the only value is one; arrays found at the end are then merged. */
  lemma ExtractReaches(fields: Fields, path: Path) returns (walks: seq<Position>, values: seq<Value>)
    requires path != []
    ensures (forall p :: p in walks <==> IsWalk(fields, path, p)) && InDocumentOrder(walks)
    ensures Lead(Object(fields), walks, values)
    ensures Extract(fields, path) ==
            (walks != [],
             if ArrayOnTheWay(fields, path) then Array(Concatenated(Parts(values))) else if values == [] then Null else values[0])
    ensures !ArrayOnTheWay(fields, path) ==> |values| <= 1
  {
    walks, values := Walks(fields, path), Collect(fields, path);
    WalksLead(fields, path);
    forall p
      ensures p in walks <==> IsWalk(fields, path, p)
    {
      WalksAreAll(fields, path, p);
    }
    WalksInOrder(fields, path);
    MeetsArrayIff(fields, path);
    SplicedParts(values);
    if !MeetsArray(fields, path) {
      OneWalk(fields, path);
    }
  }
}
