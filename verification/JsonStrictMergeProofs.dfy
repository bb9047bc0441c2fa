/** The strict form of merge_patch, position by position: what its result is where it succeeds, and which error it
    throws where it does not. */
module JsonStrictMergeProofs {
  import opened Results
  import opened Json
  import opened JsonMergePatch
  import opened JsonMergePatchProofs
  import opened JsonVisit

  // ---------- What it makes of the target ----------

  /** Wherever the patch has a scalar the result has it, and wherever the patch has nothing it has what the target had. */
  ghost predicate IsPatchedAt(value: Value, patch: Value, result: Value, p: Position) {
    && (At(result, p).Some? <==> At(value, p).Some?)
    && (At(patch, p).Some? && !At(patch, p).value.IsComposite() ==> At(result, p) == At(patch, p))
    && (At(patch, p) == None ==> At(result, p) == At(value, p))
  }

  lemma InElement(value: Value, patch: Value, result: Value, p: Position, i: nat)
    requires value.Array? && patch.Array? && result.Array? && |value.elements| == |patch.elements| == |result.elements|
    requires p != [] && p[0] == Index(i)
    requires i < |patch.elements| ==> IsPatchedAt(value.elements[i], patch.elements[i], result.elements[i], p[1..])
    ensures IsPatchedAt(value, patch, result, p)
  {
  }

  lemma InField(value: Value, patch: Value, result: Value, p: Position, key: string)
    requires value.Object? && patch.Object? && result.Object? && p != [] && p[0] == Key(key)
    requires var v, q, r := Find(value.fields, key), Find(patch.fields, key), Find(result.fields, key);
             if q == None then r == v
             else v.Some? && r.Some? && IsPatchedAt(v.value, q.value, r.value, p[1..])
    ensures IsPatchedAt(value, patch, result, p)
  {
  }

  lemma {:induction false} StrictMergedAt(value: Value, patch: Value, p: Position)
    requires WellFormed(value) && WellFormed(patch)
    ensures forall r | Merge(value, patch, false) == Ok(r) :: IsPatchedAt(value, patch, r, p)
    decreases |p|
  {
    var merged := Merge(value, patch, false);
    if merged.Ok? && p != [] {
      var r := merged.value;
      if patch.Array? {
        StrictElements(value.elements, patch.elements);
        if p[0].Index? {
          if p[0].i < |patch.elements| {
            StrictMergedAt(value.elements[p[0].i], patch.elements[p[0].i], p[1..]);
          }
          InElement(value, patch, r, p, p[0].i);
        }
      } else if patch.Object? && p[0].Key? {
        var key := p[0].key;
        MergeFieldsAt(value.fields, patch.fields, false, key);
        FindIsField(value.fields, key);
        FindIsField(patch.fields, key);
        if Find(patch.fields, key).Some? {
          StrictMergedAt(Find(value.fields, key).value, Find(patch.fields, key).value, p[1..]);
        }
        InField(value, patch, r, p, key);
      }
    }
  }

  // ---------- What it throws ----------

  /** The first field or element that does not fit, in the order of the patch, is at fault, and the first within it. */
  ghost predicate IsAtFault(value: Value, patch: Value, e: PatchError)
    decreases patch
  {
    match patch
    case Array(pa) =>
      if !value.Array? then e == InconsistentType
      else if |value.elements| != |pa| then e == InconsistentArraySize
      else exists k | 0 <= k < |pa| ::
        (forall j | 0 <= j < k :: Fits(value.elements[j], pa[j])) && IsAtFault(value.elements[k], pa[k], e)
    case Object(pf) =>
      if !value.Object? then e == InconsistentType
      else exists k | 0 <= k < |pf| ::
        (forall j | 0 <= j < k :: FieldFits(value.fields, pf[j])) && FieldIsAtFault(value.fields, pf[k], e)
    case _ => value.IsComposite() && e == InconsistentType
  }

  ghost predicate FieldIsAtFault(vf: Fields, f: Field, e: PatchError)
    decreases f
  {
    if Find(vf, f.key) == None then e == UnexpectedObjectField else IsAtFault(Find(vf, f.key).value, f.value, e)
  }

  ghost predicate FirstElementFails(va: seq<Value>, pa: seq<Value>, k: nat, e: PatchError)
    requires |va| == |pa| && k < |pa|
  {
    (forall j | 0 <= j < k :: Merge(va[j], pa[j], false).Ok?) && Merge(va[k], pa[k], false) == Err(e)
  }

  lemma FirstElementFailsBehind(va: seq<Value>, pa: seq<Value>, k: nat, e: PatchError)
    requires |va| == |pa| && k < |pa| - 1 && Merge(va[0], pa[0], false).Ok?
    ensures FirstElementFails(va[1..], pa[1..], k, e) <==> FirstElementFails(va, pa, k + 1, e)
  {
    assert forall j | 0 <= j < |pa| - 1 :: va[1..][j] == va[j + 1] && pa[1..][j] == pa[j + 1];
    if FirstElementFails(va[1..], pa[1..], k, e) {
      assert forall j | 0 < j < k + 1 :: va[j] == va[1..][j - 1] && pa[j] == pa[1..][j - 1];
    }
  }

  lemma {:induction false} ElementsReport(va: seq<Value>, pa: seq<Value>, e: PatchError)
    requires |va| == |pa|
    ensures MergeElements(va, pa, false) == Err(e) <==> exists k | 0 <= k < |pa| :: FirstElementFails(va, pa, k, e)
    decreases |pa|
  {
    if pa != [] {
      if Merge(va[0], pa[0], false).Err? {
        assert FirstElementFails(va, pa, 0, Merge(va[0], pa[0], false).error);
      } else {
        ElementsReport(va[1..], pa[1..], e);
        forall k | 0 <= k < |pa| - 1 {
          FirstElementFailsBehind(va, pa, k, e);
        }
        assert forall k | 0 < k < |pa| :: FirstElementFails(va, pa, k, e) ==> FirstElementFails(va[1..], pa[1..], k - 1, e);
      }
    }
  }

  /** What one field of the patch comes to. */
  ghost function FieldOutcome(vf: Fields, f: Field): Merged<Value> {
    if Find(vf, f.key) == None then Err(UnexpectedObjectField) else Merge(Find(vf, f.key).value, f.value, false)
  }

  ghost predicate FirstFails(vf: Fields, pf: Fields, k: nat, e: PatchError)
    requires k < |pf|
  {
    (forall j | 0 <= j < k :: FieldOutcome(vf, pf[j]).Ok?) && FieldOutcome(vf, pf[k]) == Err(e)
  }

  lemma FirstFailsBehind(vf: Fields, next: Fields, pf: Fields, k: nat, e: PatchError)
    requires k < |pf| - 1 && FieldOutcome(vf, pf[0]).Ok?
    requires forall f <- pf[1..] :: FieldOutcome(next, f) == FieldOutcome(vf, f)
    ensures FirstFails(next, pf[1..], k, e) <==> FirstFails(vf, pf, k + 1, e)
  {
    assert forall j | 0 <= j < |pf| - 1 :: pf[1..][j] == pf[j + 1] && pf[1..][j] in pf[1..];
    if FirstFails(next, pf[1..], k, e) {
      assert forall j | 0 < j < k + 1 :: FieldOutcome(vf, pf[j]) == FieldOutcome(next, pf[1..][j - 1]);
    }
  }

  lemma {:induction false} FieldsReport(vf: Fields, pf: Fields, e: PatchError)
    requires UniqueKeys(vf) && UniqueKeys(pf)
    ensures MergeFields(vf, pf, false) == Err(e) <==> exists k | 0 <= k < |pf| :: FirstFails(vf, pf, k, e)
    decreases |pf|
  {
    if pf != [] {
      if FieldOutcome(vf, pf[0]).Err? {
        assert FirstFails(vf, pf, 0, FieldOutcome(vf, pf[0]).error);
      } else {
        var next := Absorbed(vf, pf[0], false);
        AbsorbedUnique(vf, pf[0], false);
        forall g | g in pf[1..]
          ensures FieldOutcome(next, g) == FieldOutcome(vf, g)
        {
          AbsorbedAt(vf, pf[0], false, g.key);
        }
        FieldsReport(next, pf[1..], e);
        forall k | 0 <= k < |pf| - 1 {
          FirstFailsBehind(vf, next, pf, k, e);
        }
        assert forall k | 0 < k < |pf| :: FirstFails(vf, pf, k, e) ==> FirstFails(next, pf[1..], k - 1, e);
      }
    }
  }

  /** A strict merge throws the error of what is at fault, and nothing else. */
  lemma {:induction false} StrictThrowsIff(value: Value, patch: Value, e: PatchError)
    requires WellFormed(value) && WellFormed(patch)
    ensures Merge(value, patch, false) == Err(e) <==> IsAtFault(value, patch, e)
    decreases patch
  {
    if patch.Array? && value.Array? && |value.elements| == |patch.elements| {
      ElementsReport(value.elements, patch.elements, e);
      forall i | 0 <= i < |patch.elements|
        ensures Merge(value.elements[i], patch.elements[i], false).Ok? <==> Fits(value.elements[i], patch.elements[i])
        ensures Merge(value.elements[i], patch.elements[i], false) == Err(e) <==> IsAtFault(value.elements[i], patch.elements[i], e)
      {
        StrictThrowsIff(value.elements[i], patch.elements[i], e);
        StrictSucceedsIffFits(value.elements[i], patch.elements[i]);
      }
      SameElementFails(value.elements, patch.elements, e);
    } else if patch.Object? && value.Object? {
      FieldsReport(value.fields, patch.fields, e);
      forall i | 0 <= i < |patch.fields|
        ensures FieldOutcome(value.fields, patch.fields[i]).Ok? <==> FieldFits(value.fields, patch.fields[i])
        ensures FieldOutcome(value.fields, patch.fields[i]) == Err(e) <==> FieldIsAtFault(value.fields, patch.fields[i], e)
      {
        var f := patch.fields[i];
        FindIsField(value.fields, f.key);
        if Find(value.fields, f.key).Some? {
          StrictThrowsIff(Find(value.fields, f.key).value, f.value, e);
          StrictSucceedsIffFits(Find(value.fields, f.key).value, f.value);
        }
      }
      SameFirstFailure(value.fields, patch.fields, e);
    }
  }

  lemma SameElementFails(va: seq<Value>, pa: seq<Value>, e: PatchError)
    requires |va| == |pa|
    requires forall i | 0 <= i < |pa| ::
               && (Merge(va[i], pa[i], false).Ok? <==> Fits(va[i], pa[i]))
               && (Merge(va[i], pa[i], false) == Err(e) <==> IsAtFault(va[i], pa[i], e))
    ensures (exists k | 0 <= k < |pa| :: FirstElementFails(va, pa, k, e)) <==> IsAtFault(Array(va), Array(pa), e)
  {
    if k :| 0 <= k < |pa| && FirstElementFails(va, pa, k, e) {
      assert forall j | 0 <= j < k :: Fits(va[j], pa[j]);
      assert IsAtFault(va[k], pa[k], e);
    }
    if IsAtFault(Array(va), Array(pa), e) {
      var k :| 0 <= k < |pa| && (forall j | 0 <= j < k :: Fits(va[j], pa[j])) && IsAtFault(va[k], pa[k], e);
      assert FirstElementFails(va, pa, k, e);
    }
  }

  lemma SameFirstFailure(vf: Fields, pf: Fields, e: PatchError)
    requires forall i | 0 <= i < |pf| ::
               && (FieldOutcome(vf, pf[i]).Ok? <==> FieldFits(vf, pf[i]))
               && (FieldOutcome(vf, pf[i]) == Err(e) <==> FieldIsAtFault(vf, pf[i], e))
    ensures (exists k | 0 <= k < |pf| :: FirstFails(vf, pf, k, e)) <==> IsAtFault(Object(vf), Object(pf), e)
  {
    if k :| 0 <= k < |pf| && FirstFails(vf, pf, k, e) {
      assert forall j | 0 <= j < k :: FieldFits(vf, pf[j]);
      assert FieldIsAtFault(vf, pf[k], e);
    }
    if IsAtFault(Object(vf), Object(pf), e) {
      var k :| 0 <= k < |pf| && (forall j | 0 <= j < k :: FieldFits(vf, pf[j])) && FieldIsAtFault(vf, pf[k], e);
      assert FirstFails(vf, pf, k, e);
    }
  }
}
