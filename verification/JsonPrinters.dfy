/** The visitors of json_visit.h that print what they are sent. */
module JsonPrinters {
  import opened Results
  import opened Json
  import opened JsonVisit
  import opened JsonPrintProofs

  /** Not a whole object or array. */
  predicate Simple(e: Event) {
    e.VisitValue? ==> !e.value.IsComposite()
  }

  // ---------- The compact printer ----------

  class OstreamVisitor {
    var os: string

    constructor ()
      ensures os == ""
    {
      os := "";
    }

    /** An object or an array is visited, and its callbacks come back here. */
    method Receive(e: Event)
      modifies this
      ensures os == old(os) + OstreamText(e)
    {
      if Simple(e) {
        ReceiveSimple(e);
      } else {
        OstreamWritesCompact(os, e.value);
        CallbacksBalance(e.value, 0);
        BalancedAreSimple(Callbacks(e.value), 0);
        var calls := Visit(e.value);
        assert calls[0..] == calls;
        for i := 0 to |calls|
          invariant forall e <- calls[i..] :: Simple(e)
          invariant RunOstream(os, calls[i..]) == RunOstream(old(os), calls)
        {
          assert calls[i..][0] == calls[i] && calls[i..][1..] == calls[i + 1..];
          ReceiveSimple(calls[i]);
        }
      }
    }

    method ReceiveSimple(e: Event)
      requires Simple(e)
      modifies this
      ensures os == old(os) + OstreamText(e)
    {
      match e
      case VisitValue(v) =>
        if v.String? {
          os := os + "\"";
          var cs := EscapeCharacters(v.s);
          os := os + cs;
          os := os + "\"";
        } else {
          os := os + ScalarText(v);
        }
      case EnterField =>
      case LeaveField =>
      case EnterElement =>
      case LeaveElement =>
      case _ => os := os + Punctuation(e);
    }
  }

  // ---------- The pretty printer ----------

  class PrettyVisitor {
    var os: string
    const indent: nat
    var depth: int
    var empty: bool

    ghost function State(): PrettyState
      reads this
    {
      PrettyState(os, depth, empty)
    }

    constructor (indent: nat)
      ensures State() == PrettyState("", 0, false) && this.indent == indent
    {
      os := "";
      this.indent := indent;
      depth := 0;
      empty := false;
    }

    method PutRepeated(count: nat, c: char)
      modifies this`os
      ensures os == old(os) + seq(count, i => c)
    {
      var n := count;
      while n > 0
        invariant 0 <= n <= count
        invariant os == old(os) + seq(count - n, i => c)
      {
        n := n - 1;
        os := os + [c];
      }
    }

    method StartLine()
      requires depth >= 0
      modifies this`os
      ensures os == old(os) + Spaces(depth * indent)
    {
      PutRepeated(depth * indent, ' ');
    }

    method EndLine()
      modifies this`os
      ensures os == old(os) + NEWLINE
    {
      os := os + NEWLINE;
    }

    /** An object or an array is visited, and its callbacks come back here. */
    method Receive(e: Event)
      requires depth >= 0 && (e.LeaveObject? || e.LeaveArray? ==> depth > 0)
      modifies this
      ensures State() == PrettyStep(old(State()), e, indent)
    {
      if Simple(e) {
        ReceiveSimple(e);
      } else {
        ghost var before := State();
        PrettyWritesPretty(before, e.value, indent);
        CallbacksBalance(e.value, depth);
        var calls := Visit(e.value);
        assert calls[0..] == calls;
        for i := 0 to |calls|
          invariant depth >= 0 && Balances(calls[i..], depth, before.depth)
          invariant RunPretty(State(), calls[i..], indent) == RunPretty(before, calls, indent)
        {
          assert calls[i..][0] == calls[i] && calls[i..][1..] == calls[i + 1..];
          ReceiveSimple(calls[i]);
        }
      }
    }

    method ReceiveSimple(e: Event)
      requires depth >= 0 && (e.LeaveObject? || e.LeaveArray? ==> depth > 0)
      requires Simple(e)
      modifies this
      ensures State() == PrettyStep(old(State()), e, indent)
    {
      match e
      case EnterObject =>
        os := os + "{";
        depth := depth + 1;
        empty := true;
      case EnterArray =>
        os := os + "[";
        depth := depth + 1;
        empty := true;
      case EnterField =>
        if empty { EndLine(); }
        StartLine();
      case EnterElement =>
        if empty { EndLine(); }
        StartLine();
      case FieldSeparator =>
        os := os + ":";
        os := os + " ";
      case LeaveField => empty := false;
      case LeaveElement => empty := false;
      case ObjectSeparator =>
        os := os + ",";
        EndLine();
      case ArraySeparator =>
        os := os + ",";
        EndLine();
      case LeaveObject =>
        if !empty { EndLine(); }
        depth := depth - 1;
        if !empty { StartLine(); }
        os := os + "}";
      case LeaveArray =>
        if !empty { EndLine(); }
        depth := depth - 1;
        if !empty { StartLine(); }
        os := os + "]";
      case VisitValue(v) =>
        os := os + ScalarText(v);
    }
  }

  // ---------- What the callbacks of a visit keep ----------

  /** The depth after one simple callback, which leaves nothing that has not been entered. */
  ghost function NextDepth(e: Event, depth: nat): Option<nat> {
    match e
    case VisitValue(v) => if v.IsComposite() then None else Some(depth)
    case EnterObject => Some(depth + 1)
    case EnterArray => Some(depth + 1)
    case LeaveObject => if depth > 0 then Some(depth - 1) else None
    case LeaveArray => if depth > 0 then Some(depth - 1) else None
    case _ => Some(depth)
  }

  ghost function DepthAfter(events: seq<Event>, depth: nat): Option<nat>
    decreases |events|
  {
    if events == [] then Some(depth)
    else
      var next := NextDepth(events[0], depth);
      if next == None then None else DepthAfter(events[1..], next.value)
  }

  ghost predicate Balances(events: seq<Event>, depth: nat, end: nat) {
    DepthAfter(events, depth) == Some(end)
  }

  lemma {:induction false} DepthAfterAppend(a: seq<Event>, b: seq<Event>, depth: nat)
    ensures DepthAfter(a, depth).Some? ==> DepthAfter(a + b, depth) == DepthAfter(b, DepthAfter(a, depth).value)
    decreases |a|
  {
    if a == [] {
      assert a + b == b;
    } else if DepthAfter(a, depth).Some? {
      assert (a + b)[0] == a[0] && (a + b)[1..] == a[1..] + b;
      DepthAfterAppend(a[1..], b, NextDepth(a[0], depth).value);
    }
  }

  lemma BalancesAppend(a: seq<Event>, b: seq<Event>, depth: nat, middle: nat, end: nat)
    requires Balances(a, depth, middle) && Balances(b, middle, end)
    ensures Balances(a + b, depth, end)
  {
    DepthAfterAppend(a, b, depth);
  }

  lemma {:induction false} BalancedAreSimple(events: seq<Event>, depth: nat)
    requires DepthAfter(events, depth).Some?
    ensures forall e <- events :: Simple(e)
    decreases |events|
  {
    if events != [] {
      BalancedAreSimple(events[1..], NextDepth(events[0], depth).value);
    }
  }

  /** Around what keeps the depth, something that keeps the depth again. */
  lemma BalancesAround(first: seq<Event>, inner: seq<Event>, last: Event, depth: nat, middle: nat)
    requires Balances(first, depth, middle) && Balances(inner, middle, middle) && Balances([last], middle, depth)
    ensures Balances(first + inner + [last], depth, depth)
  {
    BalancesAppend(first, inner, depth, middle, middle);
    BalancesAppend(first + inner, [last], depth, middle, depth);
  }

  lemma {:induction false} CallbacksBalance(v: Value, depth: nat)
    ensures Balances(Callbacks(v), depth, depth)
    decreases v, 1
  {
    match v
    case Array(elements) =>
      ElementsBalance(elements, depth + 1);
      assert [EnterArray][1..] == [] && [LeaveArray][1..] == [];
      BalancesAround([EnterArray], ElementsCallbacks(elements), LeaveArray, depth, depth + 1);
    case Object(fields) =>
      FieldsBalance(fields, depth + 1);
      assert [EnterObject][1..] == [] && [LeaveObject][1..] == [];
      BalancesAround([EnterObject], FieldsCallbacks(fields), LeaveObject, depth, depth + 1);
    case _ =>
      assert [VisitValue(v)][1..] == [];
  }

  lemma {:induction false} ElementsBalance(elements: seq<Value>, depth: nat)
    ensures Balances(ElementsCallbacks(elements), depth, depth)
    decreases elements, 0
  {
    if elements != [] {
      CallbacksBalance(elements[0], depth);
      assert [EnterElement][1..] == [] && [LeaveElement][1..] == [] && [ArraySeparator][1..] == [];
      BalancesAround([EnterElement], Callbacks(elements[0]), LeaveElement, depth, depth);
      var rest := if |elements| == 1 then [] else [ArraySeparator] + ElementsCallbacks(elements[1..]);
      if |elements| > 1 {
        ElementsBalance(elements[1..], depth);
        BalancesAppend([ArraySeparator], ElementsCallbacks(elements[1..]), depth, depth, depth);
      }
      BalancesAppend(ElementCallbacks(elements[0]), rest, depth, depth, depth);
    }
  }

  lemma {:induction false} FieldsBalance(fields: Fields, depth: nat)
    ensures Balances(FieldsCallbacks(fields), depth, depth)
    decreases fields, 0
  {
    if fields != [] {
      var f := fields[0];
      CallbacksBalance(f.value, depth);
      KeyBalances(f.key, depth);
      assert [LeaveField][1..] == [] && [ObjectSeparator][1..] == [];
      BalancesAround([EnterField, VisitValue(String(f.key)), FieldSeparator], Callbacks(f.value), LeaveField, depth, depth);
      var rest := if |fields| == 1 then [] else [ObjectSeparator] + FieldsCallbacks(fields[1..]);
      if |fields| > 1 {
        FieldsBalance(fields[1..], depth);
        BalancesAppend([ObjectSeparator], FieldsCallbacks(fields[1..]), depth, depth, depth);
      }
      BalancesAppend(FieldCallbacks(f), rest, depth, depth, depth);
    }
  }

  lemma KeyBalances(key: string, depth: nat)
    ensures Balances([EnterField, VisitValue(String(key)), FieldSeparator], depth, depth)
  {
    var name := VisitValue(String(key));
    assert [EnterField][1..] == [] && [name][1..] == [] && [FieldSeparator][1..] == [];
    BalancesAppend([EnterField], [name], depth, depth, depth);
    BalancesAppend([EnterField] + [name], [FieldSeparator], depth, depth, depth);
    assert [EnterField] + [name] + [FieldSeparator] == [EnterField, name, FieldSeparator];
  }
}
