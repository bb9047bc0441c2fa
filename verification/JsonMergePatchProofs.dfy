/** What merge_patch means: exactly when its permissive form is the JSON Merge Patch of RFC 7386, what it does
    to arrays instead, and what its strict form keeps. */
module JsonMergePatchProofs {
  import opened Results
  import opened Json
  import opened JsonMergePatch
  import opened Sequences

  // ---------- Fields, key by key ----------

  /** What becomes of one key when `pf` is merged in. */
  lemma {:induction false} MergeFieldsAt(vf: Fields, pf: Fields, permissive: bool, key: string)
    requires UniqueKeys(vf) && UniqueKeys(pf) && MergeFields(vf, pf, permissive).Ok?
    ensures var found := Find(MergeFields(vf, pf, permissive).value, key);
            var p := ValueOr(Find(pf, key), Null);
            var merged := Merge(ValueOr(Find(vf, key), Null), p, permissive);
            || (Find(pf, key) == None && found == Find(vf, key))
            || (Find(pf, key).Some? && permissive && p.Null? && found == None)
            || (Find(pf, key).Some? && !(permissive && p.Null?) && (permissive || Find(vf, key).Some?)
                && merged.Ok? && found == Some(merged.value))
    decreases |pf|
  {
    if pf != [] {
      var next := Absorbed(vf, pf[0], permissive);
      AbsorbedAt(vf, pf[0], permissive, key);
      AbsorbedUnique(vf, pf[0], permissive);
      MergeFieldsAt(next, pf[1..], permissive, key);
      if key == pf[0].key {
        FindIsField(pf[1..], key);
      }
    }
  }

  /** The object after one field of the patch, if that field applies. */
  ghost function Absorbed(vf: Fields, p: Field, permissive: bool): Fields {
    if permissive && p.value.Null? then Erase(vf, p.key)
    else
      var merged := Merge(ValueOr(Find(vf, p.key), Null), p.value, permissive);
      if merged.Ok? then Put(vf, p.key, merged.value) else vf
  }

  lemma AbsorbedAt(vf: Fields, p: Field, permissive: bool, key: string)
    requires UniqueKeys(vf) && ((permissive && p.value.Null?) || Merge(ValueOr(Find(vf, p.key), Null), p.value, permissive).Ok?)
    ensures Find(Absorbed(vf, p, permissive), key) ==
            if key != p.key then Find(vf, key)
            else if permissive && p.value.Null? then None
            else Some(Merge(ValueOr(Find(vf, p.key), Null), p.value, permissive).value)
  {
    if permissive && p.value.Null? {
      FindErase(vf, p.key, key);
    } else {
      FindPut(vf, p.key, Merge(ValueOr(Find(vf, p.key), Null), p.value, permissive).value, key);
    }
  }

  lemma AbsorbedUnique(vf: Fields, p: Field, permissive: bool)
    requires UniqueKeys(vf)
    ensures UniqueKeys(Absorbed(vf, p, permissive))
  {
    EraseKeys(vf, p.key);
    var merged := Merge(ValueOr(Find(vf, p.key), Null), p.value, permissive);
    if merged.Ok? {
      PutKeys(vf, p.key, merged.value);
    }
  }

  // ---------- Results can be merged into again ----------

  /** Whatever the patch, keys stay unique at every depth. */
  lemma {:induction false} MergeKeepsWellFormed(value: Value, patch: Value, permissive: bool)
    requires WellFormed(value)
    ensures forall r | Merge(value, patch, permissive) == Ok(r) :: WellFormed(r)
    decreases patch, 1
  {
    match patch
    case Array(pa) => MergedElementsWellFormed(if value.Array? then value.elements else [], pa, permissive);
    case Object(pf) => MergedFieldsWellFormed(if value.Object? then value.fields else [], pf, permissive);
    case _ =>
  }

  lemma {:induction false} MergedElementsWellFormed(va: seq<Value>, pa: seq<Value>, permissive: bool)
    requires forall e <- va :: WellFormed(e)
    ensures var r := MergeElements(va, pa, permissive); r.Ok? ==> forall e <- r.value :: WellFormed(e)
    decreases pa, 0
  {
    if pa != [] {
      if !(permissive && pa[0].Null?) {
        MergeKeepsWellFormed(if va == [] then Null else va[0], pa[0], permissive);
      }
      MergedElementsWellFormed(if va == [] then [] else va[1..], pa[1..], permissive);
    }
  }

  lemma {:induction false} MergedFieldsWellFormed(vf: Fields, pf: Fields, permissive: bool)
    requires WellFormedFields(vf)
    ensures forall r | MergeFields(vf, pf, permissive) == Ok(r) :: WellFormedFields(r)
    decreases pf, 0
  {
    if pf != [] {
      var f := pf[0];
      if permissive && f.value.Null? {
        EraseKeys(vf, f.key);
      } else {
        FindIsField(vf, f.key);
        MergeKeepsWellFormed(ValueOr(Find(vf, f.key), Null), f.value, permissive);
        var merged := Merge(ValueOr(Find(vf, f.key), Null), f.value, permissive);
        if merged.Ok? {
          PutWellFormed(vf, f.key, merged.value);
        }
      }
      MergedFieldsWellFormed(Absorbed(vf, f, permissive), pf[1..], permissive);
    }
  }

  // ---------- A permissive patch always applies ----------

  lemma {:induction false} PermissiveSucceeds(value: Value, patch: Value)
    ensures Merge(value, patch, true).Ok?
    decreases patch, 1
  {
    match patch
    case Array(pa) => PermissiveElementsSucceed(if value.Array? then value.elements else [], pa);
    case Object(pf) => PermissiveFieldsSucceed(if value.Object? then value.fields else [], pf);
    case _ =>
  }

  lemma {:induction false} PermissiveElementsSucceed(va: seq<Value>, pa: seq<Value>)
    ensures MergeElements(va, pa, true).Ok?
    decreases pa, 0
  {
    if pa != [] {
      PermissiveSucceeds(if va == [] then Null else va[0], pa[0]);
      PermissiveElementsSucceed(if va == [] then [] else va[1..], pa[1..]);
    }
  }

  lemma {:induction false} PermissiveFieldsSucceed(vf: Fields, pf: Fields)
    ensures MergeFields(vf, pf, true).Ok?
    decreases pf, 0
  {
    if pf != [] {
      PermissiveSucceeds(ValueOr(Find(vf, pf[0].key), Null), pf[0].value);
      PermissiveFieldsSucceed(Absorbed(vf, pf[0], true), pf[1..]);
    }
  }

  /** The permissive result, which always exists. */
  ghost function Permissive(value: Value, patch: Value): (r: Value)
    ensures Merge(value, patch, true) == Ok(r)
    ensures patch.Object? ==>
              r.Object? && MergeFields(if value.Object? then value.fields else [], patch.fields, true) == Ok(r.fields)
    ensures patch.Array? ==>
              r.Array? && MergeElements(if value.Array? then value.elements else [], patch.elements, true) == Ok(r.elements)
    ensures !patch.IsComposite() ==> r == patch
  {
    PermissiveSucceeds(value, patch);
    Merge(value, patch, true).value
  }

  // ---------- Arrays ----------

  ghost function ElementOrNull(elements: seq<Value>, k: nat): Value {
    if k < |elements| then elements[k] else Null
  }

  /** The number of non-null elements. */
  ghost function NonNull(elements: seq<Value>): nat {
    if elements == [] then 0 else (if elements[0].Null? then 0 else 1) + NonNull(elements[1..])
  }

  /** An array patch leaves one element per non-null element of the patch, in order: the one for patch
      position k is the merge of the target's element at k, if it has one, with the patch's. */
  lemma {:induction false} PermissiveArray(va: seq<Value>, pa: seq<Value>)
    ensures MergeElements(va, pa, true).Ok?
    ensures |MergeElements(va, pa, true).value| == NonNull(pa)
    ensures forall k | 0 <= k < |pa| && !pa[k].Null? ::
              && NonNull(pa[..k]) < NonNull(pa)
              && MergeElements(va, pa, true).value[NonNull(pa[..k])] == Permissive(ElementOrNull(va, k), pa[k])
    decreases |pa|
  {
    PermissiveElementsSucceed(va, pa);
    if pa != [] {
      var rest := if va == [] then [] else va[1..];
      PermissiveArray(rest, pa[1..]);
      forall k | 0 <= k < |pa| && !pa[k].Null?
        ensures NonNull(pa[..k]) < NonNull(pa)
        ensures MergeElements(va, pa, true).value[NonNull(pa[..k])] == Permissive(ElementOrNull(va, k), pa[k])
      {
        if k > 0 {
          assert pa[..k][1..] == pa[1..][..k - 1] && pa[1..][k - 1] == pa[k];
          assert ElementOrNull(rest, k - 1) == ElementOrNull(va, k);
        }
      }
    }
  }

  // ---------- RFC 7386 ----------

  /** A JSON value as RFC 7386 sees it: an object is an unordered map. */
  datatype Tree =
    | TNull
    | TBool(b: bool)
    | TNumber(text: string)
    | TString(s: string)
    | TArray(elements: seq<Tree>)
    | TObject(members: map<string, Tree>)

  ghost function Denote(v: Value): Tree
    decreases v, 1
  {
    match v
    case Null => TNull
    case Bool(b) => TBool(b)
    case Number(text) => TNumber(text)
    case String(s) => TString(s)
    case Array(elements) => TArray(DenoteElements(elements))
    case Object(fields) => TObject(DenoteFields(fields))
  }

  ghost function DenoteElements(elements: seq<Value>): (r: seq<Tree>)
    ensures |r| == |elements|
    decreases elements, 0
  {
    if elements == [] then [] else [Denote(elements[0])] + DenoteElements(elements[1..])
  }

  ghost function DenoteFields(fields: Fields): map<string, Tree>
    decreases fields, 0
  {
    if fields == [] then map[]
    else DenoteFields(fields[1..])[fields[0].key := Denote(fields[0].value)]
  }

  /** MergePatch of section 2 of RFC 7386. */
  ghost function MergePatchRfc(target: Tree, patch: Tree): Tree
    decreases patch
  {
    if patch.TObject? then
      var members: map<string, Tree> := if target.TObject? then target.members else map[];
      TObject(map k | k in members.Keys + patch.members.Keys && !(k in patch.members && patch.members[k].TNull?) ::
                if k in patch.members then MergePatchRfc(if k in members then members[k] else TNull, patch.members[k])
                else members[k])
    else patch
  }

  lemma {:induction false} DenoteElementsAt(elements: seq<Value>, i: nat)
    requires i < |elements|
    ensures DenoteElements(elements)[i] == Denote(elements[i])
  {
    if i > 0 {
      DenoteElementsAt(elements[1..], i - 1);
    }
  }

  lemma {:induction false} DenoteFieldsAt(fields: Fields, key: string)
    ensures key in DenoteFields(fields) <==> Find(fields, key).Some?
    ensures Find(fields, key).Some? ==> DenoteFields(fields)[key] == Denote(Find(fields, key).value)
  {
    if fields != [] && fields[0].key != key {
      DenoteFieldsAt(fields[1..], key);
    }
  }

  /** Neither null nor an object, nor an array holding one at any depth. */
  ghost predicate Flat(v: Value) {
    match v
    case Null => false
    case Object(_) => false
    case Array(elements) => forall e <- elements :: Flat(e)
    case _ => true
  }

  /** Every array in the patch holds flat values only. An array-free patch is the simplest case. */
  ghost predicate FlatArrays(v: Value) {
    match v
    case Array(_) => Flat(v)
    case Object(fields) => forall f <- fields :: FlatArrays(f.value)
    case _ => true
  }

  lemma {:induction false} FlatReplaces(value: Value, patch: Value)
    requires Flat(patch)
    ensures Permissive(value, patch) == patch
    decreases patch
  {
    if patch.Array? {
      var va, pa := if value.Array? then value.elements else [], patch.elements;
      PermissiveArray(va, pa);
      NonNullOfFlat(pa);
      var merged := MergeElements(va, pa, true).value;
      forall k | 0 <= k < |pa|
        ensures merged[k] == pa[k]
      {
        assert forall e <- pa[..k] :: e in pa;
        NonNullOfFlat(pa[..k]);
        FlatReplaces(ElementOrNull(va, k), pa[k]);
      }
      assert merged == pa;
    }
  }

  lemma {:induction false} NonNullOfFlat(elements: seq<Value>)
    ensures NonNull(elements) <= |elements|
    ensures (forall e <- elements :: !e.Null?) <==> NonNull(elements) == |elements|
  {
    if elements != [] {
      NonNullOfFlat(elements[1..]);
      assert forall e <- elements :: e == elements[0] || e in elements[1..];
    }
  }

  /** On patches whose arrays are flat, the permissive merge is RFC 7386's. */
  lemma {:induction false} PermissiveIsRfc(value: Value, patch: Value)
    requires WellFormed(value) && WellFormed(patch) && FlatArrays(patch)
    ensures Denote(Permissive(value, patch)) == MergePatchRfc(Denote(value), Denote(patch))
    decreases patch
  {
    if patch.Array? {
      FlatReplaces(value, patch);
    } else if patch.Object? {
      var vf := if value.Object? then value.fields else [];
      var r := Permissive(value, patch);
      forall key
        ensures key in DenoteFields(r.fields) <==> key in MergePatchRfc(Denote(value), Denote(patch)).members
        ensures key in DenoteFields(r.fields) ==>
                  DenoteFields(r.fields)[key] == MergePatchRfc(Denote(value), Denote(patch)).members[key]
      {
        PermissiveIsRfcAt(value, patch, key);
      }
    }
  }

  lemma {:induction false} PermissiveIsRfcAt(value: Value, patch: Value, key: string)
    requires WellFormed(value) && WellFormed(patch) && FlatArrays(patch) && patch.Object?
    ensures var r, rfc := DenoteFields(Permissive(value, patch).fields), MergePatchRfc(Denote(value), Denote(patch)).members;
            (key in r <==> key in rfc) && (key in r ==> r[key] == rfc[key])
    decreases patch, 0
  {
    var vf := if value.Object? then value.fields else [];
    var r := Permissive(value, patch);
    MergeFieldsAt(vf, patch.fields, true, key);
    DenoteFieldsAt(vf, key);
    DenoteFieldsAt(patch.fields, key);
    DenoteFieldsAt(r.fields, key);
    if Find(patch.fields, key).Some? {
      FindIsField(patch.fields, key);
      FindIsField(vf, key);
      PermissiveIsRfc(ValueOr(Find(vf, key), Null), Find(patch.fields, key).value);
    }
  }

  /** A key that no field has. */
  lemma {:induction false} FreshKey(fields: Fields) returns (key: string)
    ensures Find(fields, key) == None && forall f <- fields :: |f.key| < |key|
  {
    if fields == [] {
      key := "a";
    } else {
      key := FreshKey(fields[1..]);
      var longer := key + fields[0].key + "a";
      FindIsField(fields[1..], longer);
      key := longer;
    }
  }

  ghost function NullsExcept(n: nat, k: nat, v: Value): seq<Value>
    requires k < n
  {
    seq(n, i => if i == k then v else Null)
  }

  lemma PermissiveArrayOfNonNull(va: seq<Value>, pa: seq<Value>, k: nat)
    requires k < |pa| && forall e <- pa :: !e.Null?
    ensures MergeElements(va, pa, true).Ok? && |MergeElements(va, pa, true).value| == |pa|
    ensures MergeElements(va, pa, true).value[k] == Permissive(ElementOrNull(va, k), pa[k])
  {
    PermissiveArray(va, pa);
    assert forall e <- pa[..k] :: e in pa;
    NonNullOfFlat(pa);
    NonNullOfFlat(pa[..k]);
  }

  /** When the merge for one position of an array patch does not give back the patch's element, the array
      holding just that element tells the permissive merge from RFC 7386's, which would replace the array. */
  lemma ArrayDisagrees(pa: seq<Value>, k: nat, v: Value)
    requires k < |pa| && WellFormed(v) && forall e <- pa :: !e.Null?
    requires Denote(Permissive(v, pa[k])) != Denote(pa[k])
    ensures WellFormed(Array(NullsExcept(|pa|, k, v)))
    ensures Denote(Permissive(Array(NullsExcept(|pa|, k, v)), Array(pa))) != Denote(Array(pa))
  {
    var va := NullsExcept(|pa|, k, v);
    PermissiveArrayOfNonNull(va, pa, k);
    var merged := MergeElements(va, pa, true).value;
    DenoteElementsAt(merged, k);
    DenoteElementsAt(pa, k);
  }

  lemma ObjectKeepsExtraField(pf: Fields, key: string)
    requires UniqueKeys(pf) && Find(pf, key) == None
    ensures Denote(Permissive(Object([Field(key, Null)]), Object(pf))) != Denote(Object(pf))
  {
    var vf := [Field(key, Null)];
    PermissiveFieldsSucceed(vf, pf);
    MergeFieldsAt(vf, pf, true, key);
    DenoteFieldsAt(MergeFields(vf, pf, true).value, key);
    DenoteFieldsAt(pf, key);
  }

  lemma ObjectDisagrees(pf: Fields, i: nat, v: Value)
    requires UniqueKeys(pf) && i < |pf| && !pf[i].value.Null?
    requires Denote(Permissive(v, pf[i].value)) != MergePatchRfc(Denote(v), Denote(pf[i].value))
    ensures var value := Object([Field(pf[i].key, v)]);
            Denote(Permissive(value, Object(pf))) != MergePatchRfc(Denote(value), Denote(Object(pf)))
  {
    var key := pf[i].key;
    var value := Object([Field(key, v)]);
    var r := Permissive(value, Object(pf));
    FindOfField(pf, i);
    MergeFieldsAt(value.fields, pf, true, key);
    DenoteFieldsAt(value.fields, key);
    DenoteFieldsAt(pf, key);
    DenoteFieldsAt(r.fields, key);
  }

  /** For any other patch, some target tells the permissive merge from RFC 7386's. */
  lemma {:induction false} NotFlatDisagrees(patch: Value) returns (value: Value)
    requires WellFormed(patch) && !FlatArrays(patch)
    ensures WellFormed(value) && Denote(Permissive(value, patch)) != MergePatchRfc(Denote(value), Denote(patch))
    decreases patch
  {
    if patch.Array? {
      var pa := patch.elements;
      if exists e <- pa :: e.Null? {
        value := Null;
        PermissiveArray([], pa);
        NonNullOfFlat(pa);
      } else {
        var k :| 0 <= k < |pa| && !Flat(pa[k]);
        var v;
        assert WellFormed(pa[k]);
        if pa[k].Object? {
          var key := FreshKey(pa[k].fields);
          v := Object([Field(key, Null)]);
          ObjectKeepsExtraField(pa[k].fields, key);
        } else {
          v := NotFlatDisagrees(pa[k]);
        }
        value := Array(NullsExcept(|pa|, k, v));
        ArrayDisagrees(pa, k, v);
      }
    } else {
      var i :| 0 <= i < |patch.fields| && !FlatArrays(patch.fields[i].value);
      var f := patch.fields[i];
      var v := NotFlatDisagrees(f.value);
      value := Object([Field(f.key, v)]);
      ObjectDisagrees(patch.fields, i, v);
    }
  }

  /** The permissive merge is JSON Merge Patch for every target exactly when the patch's arrays are flat. */
  lemma PermissiveIsRfcIffFlatArrays(patch: Value)
    requires WellFormed(patch)
    ensures FlatArrays(patch) <==>
            forall value | WellFormed(value) :: Denote(Permissive(value, patch)) == MergePatchRfc(Denote(value), Denote(patch))
  {
    if FlatArrays(patch) {
      forall value | WellFormed(value) {
        PermissiveIsRfc(value, patch);
      }
    } else {
      var value := NotFlatDisagrees(patch);
    }
  }

  // ---------- The strict form ----------

  ghost predicate SameShape(v: Value, w: Value)
    decreases v
  {
    || (v.Array? && w.Array? && |v.elements| == |w.elements|
        && forall i | 0 <= i < |v.elements| :: SameShape(v.elements[i], w.elements[i]))
    || (v.Object? && w.Object? && SameFields(v.fields, w.fields))
    || (!v.IsComposite() && !w.IsComposite())
  }

  /** The same keys in the same order, with values of the same shape. */
  ghost predicate SameFields(a: Fields, b: Fields)
    decreases a
  {
    |a| == |b| && forall i | 0 <= i < |a| :: a[i].key == b[i].key && SameShape(a[i].value, b[i].value)
  }

  /** The patch asks only for fields and elements the value has, and never crosses composite with non-composite. */
  ghost predicate Fits(value: Value, patch: Value)
    decreases patch
  {
    match patch
    case Array(pa) =>
      value.Array? && |value.elements| == |pa| && forall i | 0 <= i < |pa| :: Fits(value.elements[i], pa[i])
    case Object(pf) =>
      value.Object? && forall f <- pf :: Find(value.fields, f.key).Some? && Fits(Find(value.fields, f.key).value, f.value)
    case _ => !value.IsComposite()
  }

  /** No null among the fields and elements of the patch, at any depth. */
  ghost predicate NoInnerNulls(v: Value) {
    match v
    case Array(elements) => forall e <- elements :: !e.Null? && NoInnerNulls(e)
    case Object(fields) => forall f <- fields :: !f.value.Null? && NoInnerNulls(f.value)
    case _ => true
  }

  lemma {:induction false} StrictElements(va: seq<Value>, pa: seq<Value>)
    requires |va| == |pa|
    ensures MergeElements(va, pa, false).Ok? <==> forall i | 0 <= i < |pa| :: Merge(va[i], pa[i], false).Ok?
    ensures MergeElements(va, pa, false).Ok? ==>
              var r := MergeElements(va, pa, false).value;
              |r| == |pa| && forall i | 0 <= i < |pa| :: Ok(r[i]) == Merge(va[i], pa[i], false)
    decreases |pa|
  {
    if pa != [] {
      StrictElements(va[1..], pa[1..]);
      assert (forall i | 0 <= i < |pa| :: Merge(va[i], pa[i], false).Ok?) <==>
             Merge(va[0], pa[0], false).Ok? && forall i | 0 <= i < |pa| - 1 :: Merge(va[1..][i], pa[1..][i], false).Ok?
      by {
        assert forall i | 0 < i < |pa| :: va[i] == va[1..][i - 1] && pa[i] == pa[1..][i - 1];
      }
    }
  }

  lemma {:induction false} StrictFields(vf: Fields, pf: Fields)
    requires UniqueKeys(vf) && UniqueKeys(pf)
    ensures MergeFields(vf, pf, false).Ok? <==>
            forall f <- pf :: Find(vf, f.key).Some? && Merge(Find(vf, f.key).value, f.value, false).Ok?
    decreases |pf|
  {
    if pf != [] {
      var f := pf[0];
      assert forall g <- pf :: g == f || g in pf[1..];
      if Find(vf, f.key).Some? && Merge(Find(vf, f.key).value, f.value, false).Ok? {
        var next := Absorbed(vf, f, false);
        AbsorbedUnique(vf, f, false);
        StrictFields(next, pf[1..]);
        forall g | g in pf[1..]
          ensures Find(next, g.key) == Find(vf, g.key)
        {
          AbsorbedAt(vf, f, false, g.key);
        }
      }
    }
  }

  /** A strict merge succeeds exactly when the patch fits. */
  lemma {:induction false} StrictSucceedsIffFits(value: Value, patch: Value)
    requires WellFormed(value) && WellFormed(patch)
    ensures Merge(value, patch, false).Ok? <==> Fits(value, patch)
    decreases patch
  {
    if patch.Array? && value.Array? && |value.elements| == |patch.elements| {
      StrictElements(value.elements, patch.elements);
      forall i | 0 <= i < |patch.elements| {
        StrictSucceedsIffFits(value.elements[i], patch.elements[i]);
      }
    } else if patch.Object? && value.Object? {
      StrictFields(value.fields, patch.fields);
      forall f | f in patch.fields && Find(value.fields, f.key).Some?
        ensures Merge(Find(value.fields, f.key).value, f.value, false).Ok? <==> Fits(Find(value.fields, f.key).value, f.value)
      {
        FindIsField(value.fields, f.key);
        StrictSucceedsIffFits(Find(value.fields, f.key).value, f.value);
      }
    }
  }

  lemma {:induction false} SameShapeReflexive(v: Value)
    ensures SameShape(v, v)
    decreases v
  {
    if v.Array? {
      forall i | 0 <= i < |v.elements| {
        SameShapeReflexive(v.elements[i]);
      }
    } else if v.Object? {
      forall i | 0 <= i < |v.fields| {
        SameShapeReflexive(v.fields[i].value);
      }
    }
  }

  lemma {:induction false} PutSameShape(start: Fields, vf: Fields, key: string, value: Value)
    requires SameFields(start, vf) && Find(start, key).Some? && SameShape(Find(start, key).value, value)
    ensures SameFields(start, Put(vf, key, value))
  {
    HeadTail(start);
    if vf[0].key == key {
      SameFieldsTail(start, vf);
      SameFieldsBehind(start[0], start[1..], Field(key, value), vf[1..]);
    } else {
      SameFieldsTail(start, vf);
      PutSameShape(start[1..], vf[1..], key, value);
      SameFieldsBehind(start[0], start[1..], vf[0], Put(vf[1..], key, value));
    }
  }

  lemma SameFieldsTail(a: Fields, b: Fields)
    requires SameFields(a, b) && a != []
    ensures a[0].key == b[0].key && SameShape(a[0].value, b[0].value) && SameFields(a[1..], b[1..])
  {
  }

  lemma SameFieldsBehind(f: Field, a: Fields, g: Field, b: Fields)
    requires f.key == g.key && SameShape(f.value, g.value) && SameFields(a, b)
    ensures SameFields([f] + a, [g] + b)
  {
  }

  /** Where the strict merge succeeds, what it leaves is its result. */
  lemma {:induction false} LeftOfSuccess(value: Value, patch: Value)
    requires Merge(value, patch, false).Ok?
    ensures Left(value, patch) == Merge(value, patch, false).value
    decreases patch, 1
  {
    if patch.Array? {
      LeftElementsOfSuccess(value.elements, patch.elements);
    } else if patch.Object? {
      LeftFieldsOfSuccess(value.fields, patch.fields);
    }
  }

  lemma {:induction false} LeftElementsOfSuccess(va: seq<Value>, pa: seq<Value>)
    requires |va| == |pa| && MergeElements(va, pa, false).Ok?
    ensures LeftElements(va, pa) == MergeElements(va, pa, false).value
    decreases pa, 0
  {
    if pa != [] {
      LeftOfSuccess(va[0], pa[0]);
      LeftElementsOfSuccess(va[1..], pa[1..]);
    }
  }

  lemma {:induction false} LeftFieldsOfSuccess(vf: Fields, pf: Fields)
    requires MergeFields(vf, pf, false).Ok?
    ensures LeftFields(vf, pf) == MergeFields(vf, pf, false).value
    decreases pf, 0
  {
    if pf != [] {
      LeftOfSuccess(Find(vf, pf[0].key).value, pf[0].value);
      LeftFieldsOfSuccess(Absorbed(vf, pf[0], false), pf[1..]);
    }
  }

  /** Whether or not the strict merge throws, it leaves the target's shape as it was at every depth. */
  lemma {:induction false} StrictLeavesShape(value: Value, patch: Value)
    requires WellFormed(value) && WellFormed(patch)
    ensures SameShape(value, Left(value, patch))
    decreases patch, 1
  {
    SameShapeReflexive(value);
    if patch.Array? && value.Array? && |value.elements| == |patch.elements| {
      ElementsLeaveShape(value.elements, patch.elements);
    } else if patch.Object? && value.Object? {
      FieldsLeaveShape(value.fields, value.fields, patch.fields);
    }
  }

  lemma {:induction false} ElementsLeaveShape(va: seq<Value>, pa: seq<Value>)
    requires |va| == |pa| && (forall e <- va :: WellFormed(e)) && (forall e <- pa :: WellFormed(e))
    ensures |LeftElements(va, pa)| == |va|
    ensures forall i | 0 <= i < |va| :: SameShape(va[i], LeftElements(va, pa)[i])
    decreases pa, 0
  {
    if pa != [] {
      StrictLeavesShape(va[0], pa[0]);
      ElementsLeaveShape(va[1..], pa[1..]);
      forall i | 0 < i < |va| {
        SameShapeReflexive(va[i]);
      }
      assert forall i | 0 < i < |va| :: va[i] == va[1..][i - 1];
    }
  }

  /** Each step of a strict object merge changes one field that has not been touched yet. */
  lemma {:induction false} FieldsLeaveShape(start: Fields, vf: Fields, pf: Fields)
    requires SameFields(start, vf) && WellFormedFields(start) && WellFormedFields(pf)
    requires forall f <- pf :: Find(vf, f.key) == Find(start, f.key)
    ensures SameFields(start, LeftFields(vf, pf))
    decreases pf, 0
  {
    if pf != [] && Find(vf, pf[0].key).Some? {
      var f := pf[0];
      var value := Find(start, f.key).value;
      FindIsField(start, f.key);
      StrictLeavesShape(value, f.value);
      PutSameShape(start, vf, f.key, Left(value, f.value));
      forall g | g in pf[1..]
        ensures Find(Put(vf, f.key, Left(value, f.value)), g.key) == Find(start, g.key)
      {
        FindPut(vf, f.key, Left(value, f.value), g.key);
      }
      FieldsLeaveShape(start, Put(vf, f.key, Left(value, f.value)), pf[1..]);
    }
  }

  /** A strict merge that succeeds keeps the target's shape at every depth. */
  lemma StrictKeepsShape(value: Value, patch: Value)
    requires WellFormed(value) && WellFormed(patch)
    ensures forall r | Merge(value, patch, false) == Ok(r) :: SameShape(value, r)
  {
    StrictLeavesShape(value, patch);
    if Merge(value, patch, false).Ok? {
      LeftOfSuccess(value, patch);
    }
  }

  // ---------- When a strict merge leaves the target as it was ----------

  ghost predicate FieldFits(vf: Fields, f: Field) {
    Find(vf, f.key).Some? && Fits(Find(vf, f.key).value, f.value)
  }

  /** What the patch asks for, as far as a strict merge gets, is there already: each field and element, up to and
      including the first that does not fit, asks for nothing new in turn, and a scalar is the value itself, or
      meets a composite and is refused. */
  ghost predicate AsksNothingNew(value: Value, patch: Value)
    decreases patch, 1
  {
    || (patch.Array? && (value.Array? && |value.elements| == |patch.elements| ==> ElementsAskNothingNew(value.elements, patch.elements)))
    || (patch.Object? && (value.Object? ==> FieldsAskNothingNew(value.fields, patch.fields)))
    || (!patch.IsComposite() && (value.IsComposite() || value == patch))
  }

  ghost predicate ElementsAskNothingNew(va: seq<Value>, pa: seq<Value>)
    requires |va| == |pa|
    decreases pa, 0
  {
    forall i | 0 <= i < |pa| && (forall j | 0 <= j < i :: Fits(va[j], pa[j])) :: AsksNothingNew(va[i], pa[i])
  }

  ghost predicate FieldsAskNothingNew(vf: Fields, pf: Fields)
    decreases pf, 0
  {
    forall i | 0 <= i < |pf| && (forall j | 0 <= j < i :: FieldFits(vf, pf[j])) ::
      FieldAsksNothingNew(vf, pf[i])
  }

  ghost predicate FieldAsksNothingNew(vf: Fields, f: Field)
    decreases f, 2
  {
    Find(vf, f.key).Some? ==> AsksNothingNew(Find(vf, f.key).value, f.value)
  }

  lemma FirstElementAsks(va: seq<Value>, pa: seq<Value>)
    requires |va| == |pa| && pa != []
    ensures ElementsAskNothingNew(va, pa) <==>
            AsksNothingNew(va[0], pa[0]) && (Fits(va[0], pa[0]) ==> ElementsAskNothingNew(va[1..], pa[1..]))
  {
    if ElementsAskNothingNew(va, pa) && Fits(va[0], pa[0]) {
      forall i | 0 <= i < |pa| - 1 && (forall j | 0 <= j < i :: Fits(va[1..][j], pa[1..][j]))
        ensures AsksNothingNew(va[1..][i], pa[1..][i])
      {
        assert forall j | 0 < j < i + 1 :: va[j] == va[1..][j - 1] && pa[j] == pa[1..][j - 1];
        assert AsksNothingNew(va[i + 1], pa[i + 1]);
      }
    }
  }

  lemma FirstElementUnchanged(va: seq<Value>, pa: seq<Value>)
    requires |va| == |pa| && pa != [] && WellFormed(va[0]) && WellFormed(pa[0])
    ensures LeftElements(va, pa) == va <==>
            Left(va[0], pa[0]) == va[0] && (Fits(va[0], pa[0]) ==> LeftElements(va[1..], pa[1..]) == va[1..])
  {
    StrictSucceedsIffFits(va[0], pa[0]);
    HeadTail(va);
    var rest := if Fits(va[0], pa[0]) then LeftElements(va[1..], pa[1..]) else va[1..];
    assert LeftElements(va, pa)[0] == Left(va[0], pa[0]) && LeftElements(va, pa)[1..] == rest;
  }

  lemma {:induction false} ElementsUnchanged(va: seq<Value>, pa: seq<Value>)
    requires |va| == |pa| && (forall e <- va :: WellFormed(e)) && (forall e <- pa :: WellFormed(e))
    requires forall i | 0 <= i < |pa| :: Left(va[i], pa[i]) == va[i] <==> AsksNothingNew(va[i], pa[i])
    ensures LeftElements(va, pa) == va <==> ElementsAskNothingNew(va, pa)
    decreases |pa|
  {
    if pa != [] {
      FirstElementAsks(va, pa);
      FirstElementUnchanged(va, pa);
      ElementsUnchanged(va[1..], pa[1..]);
    }
  }

  /** Fields that the patch does not name stay as they are. */
  lemma {:induction false} LeftFieldsAt(vf: Fields, pf: Fields, key: string)
    requires forall f <- pf :: f.key != key
    ensures Find(LeftFields(vf, pf), key) == Find(vf, key)
    decreases |pf|
  {
    if pf != [] && Find(vf, pf[0].key).Some? {
      var left := Left(Find(vf, pf[0].key).value, pf[0].value);
      FindPut(vf, pf[0].key, left, key);
      LeftFieldsAt(Put(vf, pf[0].key, left), pf[1..], key);
    }
  }

  /** A field that is changed stays changed, as the patch names it once. */
  lemma FirstFieldUnchanged(vf: Fields, pf: Fields)
    requires WellFormedFields(vf) && WellFormedFields(pf) && pf != [] && Find(vf, pf[0].key).Some?
    ensures var value := Find(vf, pf[0].key).value;
            LeftFields(vf, pf) == vf <==>
            Left(value, pf[0].value) == value && (FieldFits(vf, pf[0]) ==> LeftFields(vf, pf[1..]) == vf)
  {
    var f := pf[0];
    var value := Find(vf, f.key).value;
    FindIsField(vf, f.key);
    StrictSucceedsIffFits(value, f.value);
    if Left(value, f.value) == value {
      PutSame(vf, f.key);
    } else {
      var next := Put(vf, f.key, Left(value, f.value));
      FindPut(vf, f.key, Left(value, f.value), f.key);
      LeftFieldsAt(next, pf[1..], f.key);
    }
  }

  lemma FirstFieldAsks(vf: Fields, pf: Fields)
    requires pf != [] && Find(vf, pf[0].key).Some?
    ensures FieldsAskNothingNew(vf, pf) <==>
            AsksNothingNew(Find(vf, pf[0].key).value, pf[0].value) && (FieldFits(vf, pf[0]) ==> FieldsAskNothingNew(vf, pf[1..]))
  {
    if FieldsAskNothingNew(vf, pf) && FieldFits(vf, pf[0]) {
      forall i | 0 <= i < |pf| - 1 && (forall j | 0 <= j < i :: FieldFits(vf, pf[1..][j]))
        ensures FieldAsksNothingNew(vf, pf[1..][i])
      {
        assert forall j | 0 < j < i + 1 :: pf[j] == pf[1..][j - 1];
        assert FieldAsksNothingNew(vf, pf[i + 1]);
      }
    }
  }

  lemma {:induction false} FieldsUnchanged(vf: Fields, pf: Fields)
    requires WellFormedFields(vf) && WellFormedFields(pf)
    requires forall f <- pf :: Find(vf, f.key).Some? ==>
               (Left(Find(vf, f.key).value, f.value) == Find(vf, f.key).value <==> AsksNothingNew(Find(vf, f.key).value, f.value))
    ensures LeftFields(vf, pf) == vf <==> FieldsAskNothingNew(vf, pf)
    decreases |pf|
  {
    if pf != [] && Find(vf, pf[0].key).Some? {
      FirstFieldUnchanged(vf, pf);
      FirstFieldAsks(vf, pf);
      FieldsUnchanged(vf, pf[1..]);
    }
  }

  /** Exactly when a strict merge leaves the target as it was, whether or not it throws. */
  lemma {:induction false} StrictLeavesUnchangedIff(value: Value, patch: Value)
    requires WellFormed(value) && WellFormed(patch)
    ensures Left(value, patch) == value <==> AsksNothingNew(value, patch)
    decreases patch
  {
    if patch.Array? && value.Array? && |value.elements| == |patch.elements| {
      forall i | 0 <= i < |patch.elements| {
        StrictLeavesUnchangedIff(value.elements[i], patch.elements[i]);
      }
      ElementsUnchanged(value.elements, patch.elements);
    } else if patch.Object? && value.Object? {
      forall f | f in patch.fields && Find(value.fields, f.key).Some?
        ensures var v := Find(value.fields, f.key).value; Left(v, f.value) == v <==> AsksNothingNew(v, f.value)
      {
        FindIsField(value.fields, f.key);
        StrictLeavesUnchangedIff(Find(value.fields, f.key).value, f.value);
      }
      FieldsUnchanged(value.fields, patch.fields);
    }
  }

  /** A strict merge that throws can leave the target changed: here `a` is merged before `b` is refused. */
  lemma ThrowingMergeChangesTarget()
    ensures var value := Object([Field("a", Bool(true)), Field("b", Array([]))]);
            var patch := Object([Field("a", Bool(false)), Field("b", Bool(true))]);
            && Merge(value, patch, false) == Err(InconsistentType)
            && Left(value, patch) == Object([Field("a", Bool(false)), Field("b", Array([]))])
  {
    var a, b := Field("a", Bool(true)), Field("b", Array([]));
    var c, d := Field("a", Bool(false)), Field("b", Bool(true));
    assert [a, b][1..] == [b] && [c, d][1..] == [d] && [c, b][1..] == [b];
    assert Put([a, b], "a", Bool(false)) == [c, b];
    assert Find([c, b], "b") == Some(Array([]));
    assert Put([c, b], "b", Array([])) == [c, b];
    assert LeftFields([c, b], [d]) == [c, b];
    assert MergeFields([c, b], [d], false) == Err(InconsistentType);
  }

  lemma {:induction false} MergeNothingNew(vf: Fields, pf: Fields)
    requires forall f <- pf :: Find(vf, f.key).Some? && Merge(Find(vf, f.key).value, f.value, false) == Ok(Find(vf, f.key).value)
    ensures MergeFields(vf, pf, false) == Ok(vf)
    decreases |pf|
  {
    if pf != [] {
      PutSame(vf, pf[0].key);
      MergeNothingNew(vf, pf[1..]);
    }
  }

  /** Applying a strict patch a second time changes nothing. */
  lemma {:induction false} StrictIsIdempotent(value: Value, patch: Value)
    requires WellFormed(value) && WellFormed(patch) && Merge(value, patch, false).Ok?
    ensures Merge(Merge(value, patch, false).value, patch, false) == Merge(value, patch, false)
    decreases patch
  {
    var r := Merge(value, patch, false).value;
    if patch.Array? {
      StrictElements(value.elements, patch.elements);
      forall i | 0 <= i < |patch.elements|
        ensures Merge(r.elements[i], patch.elements[i], false) == Ok(r.elements[i])
      {
        StrictIsIdempotent(value.elements[i], patch.elements[i]);
      }
      StrictElements(r.elements, patch.elements);
      assert MergeElements(r.elements, patch.elements, false).value == r.elements;
    } else if patch.Object? {
      forall f | f in patch.fields
        ensures Find(r.fields, f.key).Some? && Merge(Find(r.fields, f.key).value, f.value, false) == Ok(Find(r.fields, f.key).value)
      {
        var i :| 0 <= i < |patch.fields| && patch.fields[i] == f;
        FindOfField(patch.fields, i);
        MergeFieldsAt(value.fields, patch.fields, false, f.key);
        FindIsField(value.fields, f.key);
        StrictIsIdempotent(Find(value.fields, f.key).value, f.value);
      }
      MergeNothingNew(r.fields, patch.fields);
    }
  }

  // ---------- Strict against permissive ----------

  lemma {:induction false} FieldsAgree(start: Fields, vf: Fields, pf: Fields)
    requires WellFormedFields(start) && UniqueKeys(vf) && WellFormedFields(pf) && MergeFields(vf, pf, false).Ok?
    requires forall f <- pf :: Find(vf, f.key) == Find(start, f.key) && !f.value.Null? && NoInnerNulls(f.value)
    ensures MergeFields(vf, pf, true) == MergeFields(vf, pf, false)
    decreases pf, 0
  {
    if pf != [] {
      var f := pf[0];
      var next := Absorbed(vf, f, false);
      FindIsField(start, f.key);
      StrictAgrees(Find(start, f.key).value, f.value);
      AbsorbedUnique(vf, f, false);
      forall g | g in pf[1..]
        ensures Find(next, g.key) == Find(start, g.key)
      {
        AbsorbedAt(vf, f, false, g.key);
      }
      FieldsAgree(start, next, pf[1..]);
    }
  }

  lemma {:induction false} StrictAgrees(value: Value, patch: Value)
    requires WellFormed(value) && WellFormed(patch) && Merge(value, patch, false).Ok? && NoInnerNulls(patch)
    ensures Permissive(value, patch) == Merge(value, patch, false).value
    decreases patch, 1
  {
    if patch.Array? {
      StrictElements(value.elements, patch.elements);
      PermissiveArray(value.elements, patch.elements);
      var strict, permissive := Merge(value, patch, false).value.elements, Permissive(value, patch).elements;
      NonNullOfFlat(patch.elements);
      forall i | 0 <= i < |patch.elements|
        ensures permissive[i] == strict[i]
      {
        assert forall e <- patch.elements[..i] :: e in patch.elements;
        NonNullOfFlat(patch.elements[..i]);
        StrictAgrees(value.elements[i], patch.elements[i]);
      }
      assert permissive == strict;
    } else if patch.Object? {
      FieldsAgree(value.fields, value.fields, patch.fields);
    }
  }

  lemma {:induction false} InnerNullsDisagree(value: Value, patch: Value)
    requires WellFormed(value) && WellFormed(patch) && Merge(value, patch, false).Ok? && !NoInnerNulls(patch)
    ensures Permissive(value, patch) != Merge(value, patch, false).value
    decreases patch
  {
    var strict, permissive := Merge(value, patch, false).value, Permissive(value, patch);
    if patch.Array? {
      var pa := patch.elements;
      StrictElements(value.elements, pa);
      PermissiveArray(value.elements, pa);
      NonNullOfFlat(pa);
      if forall e <- pa :: !e.Null? {
        var k :| 0 <= k < |pa| && !NoInnerNulls(pa[k]);
        assert forall e <- pa[..k] :: e in pa;
        NonNullOfFlat(pa[..k]);
        InnerNullsDisagree(value.elements[k], pa[k]);
        assert permissive.elements[k] != strict.elements[k];
      }
    } else {
      var i :| 0 <= i < |patch.fields| && (patch.fields[i].value.Null? || !NoInnerNulls(patch.fields[i].value));
      var f := patch.fields[i];
      FindOfField(patch.fields, i);
      FindIsField(value.fields, f.key);
      MergeFieldsAt(value.fields, patch.fields, false, f.key);
      MergeFieldsAt(value.fields, patch.fields, true, f.key);
      if !f.value.Null? {
        InnerNullsDisagree(Find(value.fields, f.key).value, f.value);
      }
      assert Find(permissive.fields, f.key) != Find(strict.fields, f.key);
    }
  }

  /** Where the strict merge succeeds, it agrees with the permissive one exactly on patches without inner nulls. */
  lemma StrictIsPermissiveIffNoInnerNulls(value: Value, patch: Value)
    requires WellFormed(value) && WellFormed(patch) && Merge(value, patch, false).Ok?
    ensures Merge(value, patch, true) == Merge(value, patch, false) <==> NoInnerNulls(patch)
  {
    var permissive := Permissive(value, patch);
    if NoInnerNulls(patch) {
      StrictAgrees(value, patch);
    } else {
      InnerNullsDisagree(value, patch);
    }
  }
}
