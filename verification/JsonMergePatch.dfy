/** merge_patch of json_utils.cpp, in its strict and permissive forms. The functions specify it; the methods
    below them are the original's loops over the target's and the patch's elements and fields. */
module JsonMergePatch {
  import opened Results
  import opened Json
  import opened Sequences

  /** Why a strict patch does not apply. */
  datatype PatchError = InconsistentType | InconsistentArraySize | UnexpectedObjectField

  type Merged<+T> = Result<T, PatchError>

  function Merge(value: Value, patch: Value, permissive: bool): Merged<Value>
    decreases patch, 1
  {
    match patch
    case Array(pa) =>
      if !permissive && !value.Array? then Err(InconsistentType)
      else if !permissive && |value.elements| != |pa| then Err(InconsistentArraySize)
      else
        var merged :- MergeElements(if value.Array? then value.elements else [], pa, permissive);
        Ok(Array(merged))
    case Object(pf) =>
      if !permissive && !value.Object? then Err(InconsistentType)
      else
        var merged :- MergeFields(if value.Object? then value.fields else [], pf, permissive);
        Ok(Object(merged))
    case _ =>
      if !value.IsComposite() || permissive then Ok(patch) else Err(InconsistentType)
  }

  /** Elements pair up by position; a permissive null removes its partner, and partners may be missing. */
  function MergeElements(va: seq<Value>, pa: seq<Value>, permissive: bool): Merged<seq<Value>>
    decreases pa, 0
  {
    if pa == [] then Ok([])
    else
      var rest := if va == [] then [] else va[1..];
      if permissive && pa[0].Null? then MergeElements(rest, pa[1..], permissive)
      else
        var first :- Merge(if va == [] then Null else va[0], pa[0], permissive);
        var others :- MergeElements(rest, pa[1..], permissive);
        Ok([first] + others)
  }

  /** Fields pair up by key; a permissive null removes its partner, and partners may be missing. */
  function MergeFields(vf: Fields, pf: Fields, permissive: bool): Merged<Fields>
    decreases pf, 0
  {
    if pf == [] then Ok(vf)
    else
      var key := pf[0].key;
      if permissive && pf[0].value.Null? then MergeFields(Erase(vf, key), pf[1..], permissive)
      else if Find(vf, key) == None && !permissive then Err(UnexpectedObjectField)
      else
        var merged :- Merge(ValueOr(Find(vf, key), Null), pf[0].value, permissive);
        MergeFields(Put(vf, key, merged), pf[1..], permissive)
  }

  // ---------- What a strict merge leaves ----------

  /** The target after a strict merge: when it throws, what was merged in front of the part that does not fit
      stays merged, and that part is left in the same way. */
  function Left(value: Value, patch: Value): Value
    decreases patch, 1
  {
    match patch
    case Array(pa) =>
      if value.Array? && |value.elements| == |pa| then Array(LeftElements(value.elements, pa)) else value
    case Object(pf) =>
      if value.Object? then Object(LeftFields(value.fields, pf)) else value
    case _ =>
      if value.IsComposite() then value else patch
  }

  function LeftElements(va: seq<Value>, pa: seq<Value>): seq<Value>
    requires |va| == |pa|
    decreases pa, 0
  {
    if pa == [] then []
    else [Left(va[0], pa[0])] + if Merge(va[0], pa[0], false).Ok? then LeftElements(va[1..], pa[1..]) else va[1..]
  }

  function LeftFields(vf: Fields, pf: Fields): Fields
    decreases pf, 0
  {
    if pf == [] || Find(vf, pf[0].key) == None then vf
    else
      var value := Find(vf, pf[0].key).value;
      var left := Put(vf, pf[0].key, Left(value, pf[0].value));
      if Merge(value, pf[0].value, false).Ok? then LeftFields(left, pf[1..]) else left
  }

  // ---------- The original's loops ----------

  /** `left` is the target as the original, which changes it in place, leaves it. */
  method MergePatch(value: Value, patch: Value, permissive: bool) returns (r: Merged<Value>, left: Value)
    ensures r == Merge(value, patch, permissive)
    ensures r.Ok? ==> left == r.value
    ensures !permissive ==> left == Left(value, patch)
    decreases patch, 2
  {
    if patch.Array? {
      var target := value;
      if !target.Array? {
        if !permissive { return Err(InconsistentType), value; }
        target := Array([]);
      }
      if |target.elements| != |patch.elements| {
        if !permissive { return Err(InconsistentArraySize), value; }
      }
      var merged, elements := MergeArrays(target.elements, patch.elements, permissive);
      left := Array(elements);
      r := if merged.Err? then Err(merged.error) else Ok(left);
    } else if patch.Object? {
      var target := value;
      if !target.Object? {
        if !permissive { return Err(InconsistentType), value; }
        target := Object([]);
      }
      var merged, fields := MergeObjects(target.fields, patch.fields, permissive);
      left := Object(fields);
      r := if merged.Err? then Err(merged.error) else Ok(left);
    } else if !value.IsComposite() || permissive {
      return Ok(patch), patch;
    } else {
      return Err(InconsistentType), value;
    }
  }

  /** `vi` walks `va`, from which elements are erased, while `pi` walks the patch. */
  method MergeArrays(elements: seq<Value>, pa: seq<Value>, permissive: bool)
    returns (r: Merged<seq<Value>>, va: seq<Value>)
    requires permissive || |elements| == |pa|
    ensures r == MergeElements(elements, pa, permissive)
    ensures r.Ok? ==> va == r.value
    ensures !permissive ==> va == LeftElements(elements, pa)
    decreases pa, 1
  {
    va := elements;
    var vi, pi := 0, 0;
    PrefixedNothing(MergeElements(elements, pa, permissive));
    assert va[..vi] == [] && va[vi..] == va && pa[pi..] == pa;
    while vi < |va| && pi < |pa|
      invariant 0 <= vi <= |va| && 0 <= pi <= |pa|
      invariant Remaining(elements, pa, permissive, va[..vi], va[vi..], pa[pi..])
      decreases |pa| - pi
    {
      assert pa[pi..][1..] == pa[pi + 1..];
      if permissive && pa[pi].Null? {
        Removed(va, vi);
        va := va[..vi] + va[vi + 1..];
        pi := pi + 1;
      } else {
        var merged, left := MergePatch(va[vi], pa[pi], permissive);
        MergedOne(elements, pa, permissive, va[..vi], va[vi..], pa[pi..], left);
        Replaced(va, vi, left);
        va := va[vi := left];
        if merged.Err? { return Err(merged.error), va; }
        vi, pi := vi + 1, pi + 1;
      }
    }
    ghost var done, rest := va[..vi], va[vi..];
    while vi < |va|
      invariant vi <= |va| && va[..vi] == done
      decreases |va|
    {
      va := va[..vi] + va[vi + 1..];
    }
    assert va == done;
    MergedAll(elements, pa, permissive, done, rest, pa[pi..]);
    if pi < |pa| {
      r, va := AppendMissing(va, pa[pi..]);
    } else {
      r := Ok(va);
    }
  }

  /** What the loop over both arrays keeps: `done` is merged, `rest` is to be merged with `more`. */
  ghost predicate Remaining(elements: seq<Value>, pa: seq<Value>, permissive: bool,
                            done: seq<Value>, rest: seq<Value>, more: seq<Value>) {
    && MergeElements(elements, pa, permissive) == Prefixed(done, MergeElements(rest, more, permissive))
    && (!permissive ==> |elements| == |pa| && |rest| == |more| && LeftElements(elements, pa) == done + LeftElements(rest, more))
  }

  lemma MergedOne(elements: seq<Value>, pa: seq<Value>, permissive: bool,
                  done: seq<Value>, rest: seq<Value>, more: seq<Value>, left: Value)
    requires Remaining(elements, pa, permissive, done, rest, more) && rest != [] && more != []
    requires !(permissive && more[0].Null?)
    requires Merge(rest[0], more[0], permissive).Ok? ==> left == Merge(rest[0], more[0], permissive).value
    requires !permissive ==> left == Left(rest[0], more[0])
    ensures var merged := Merge(rest[0], more[0], permissive);
            if merged.Ok? then Remaining(elements, pa, permissive, done + [left], rest[1..], more[1..])
            else
              && MergeElements(elements, pa, permissive) == Err(merged.error)
              && (!permissive ==> LeftElements(elements, pa) == done + ([left] + rest[1..]))
  {
    PrefixedAppend(done, [left], MergeElements(rest[1..], more[1..], permissive));
    if !permissive {
      Associates(done, [left], LeftElements(rest[1..], more[1..]));
    }
  }

  lemma MergedAll(elements: seq<Value>, pa: seq<Value>, permissive: bool,
                  done: seq<Value>, rest: seq<Value>, more: seq<Value>)
    requires Remaining(elements, pa, permissive, done, rest, more) && (rest == [] || more == [])
    ensures MergeElements(elements, pa, permissive) ==
            if more == [] then Ok(done) else Prefixed(done, MergeElements([], more, permissive))
    ensures !permissive ==> more == [] && LeftElements(elements, pa) == done
  {
    assert done + [] == done;
  }

  /** The elements of a permissive patch beyond the end of the target. */
  method AppendMissing(start: seq<Value>, pa: seq<Value>) returns (r: Merged<seq<Value>>, va: seq<Value>)
    ensures r == Prefixed(start, MergeElements([], pa, true))
    ensures r.Ok? ==> va == r.value
    decreases pa, 0
  {
    va := start;
    for pi := 0 to |pa|
      invariant Prefixed(start, MergeElements([], pa, true)) == Prefixed(va, MergeElements([], pa[pi..], true))
    {
      assert pa[pi..][1..] == pa[pi + 1..];
      if !pa[pi].Null? {
        var merged, left := MergePatch(Null, pa[pi], true);
        PrefixedAppend(va, [left], MergeElements([], pa[pi + 1..], true));
        va := va + [left];
        if merged.Err? { return Err(merged.error), va; }
      }
    }
    assert va + [] == va;
    r := Ok(va);
  }

  method MergeObjects(fields: Fields, pf: Fields, permissive: bool) returns (r: Merged<Fields>, vf: Fields)
    ensures r == MergeFields(fields, pf, permissive)
    ensures r.Ok? ==> vf == r.value
    ensures !permissive ==> vf == LeftFields(fields, pf)
    decreases pf, 0
  {
    vf := fields;
    for i := 0 to |pf|
      invariant MergeFields(vf, pf[i..], permissive) == MergeFields(fields, pf, permissive)
      invariant !permissive ==> LeftFields(vf, pf[i..]) == LeftFields(fields, pf)
    {
      var key := pf[i].key;
      assert pf[i..][1..] == pf[i + 1..];
      if permissive && pf[i].value.Null? {
        ErasingNothing(vf, key);
        if Find(vf, key).Some? {
          vf := Erase(vf, key);
        }
      } else {
        if Find(vf, key) == None {
          if !permissive { return Err(UnexpectedObjectField), vf; }
        }
        var merged, left := MergePatch(ValueOr(Find(vf, key), Null), pf[i].value, permissive);
        vf := Put(vf, key, left);
        if merged.Err? { return Err(merged.error), vf; }
      }
    }
    r := Ok(vf);
  }

  ghost function Prefixed(done: seq<Value>, r: Merged<seq<Value>>): Merged<seq<Value>> {
    if r.Ok? then Ok(done + r.value) else r
  }

  lemma PrefixedNothing(r: Merged<seq<Value>>)
    ensures Prefixed([], r) == r
  {
    if r.Ok? {
      assert [] + r.value == r.value;
    }
  }

  lemma PrefixedAppend(done: seq<Value>, more: seq<Value>, r: Merged<seq<Value>>)
    ensures Prefixed(done + more, r) == Prefixed(done, Prefixed(more, r))
  {
    if r.Ok? {
      assert done + more + r.value == done + (more + r.value);
    }
  }

  lemma {:induction false} ErasingNothing(fields: Fields, key: string)
    ensures Find(fields, key) == None ==> Erase(fields, key) == fields
  {
    if fields != [] && fields[0].key != key {
      ErasingNothing(fields[1..], key);
      assert [fields[0]] + fields[1..] == fields;
    }
  }
}
