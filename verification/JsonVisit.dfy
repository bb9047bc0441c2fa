/** Visiting JSON values (json_visit.h, json_escape.cpp): the callback sequence a visit makes, what a
    compact and a pretty printer write for each callback, and the visitor that rebuilds a value. */
module JsonVisit {
  import opened Results
  import opened Json

  datatype Event =
    | VisitValue(value: Value)
    | EnterObject
    | EnterField
    | FieldSeparator
    | LeaveField
    | ObjectSeparator
    | LeaveObject
    | EnterArray
    | EnterElement
    | LeaveElement
    | ArraySeparator
    | LeaveArray

  // ---------- The callbacks of a visit ----------

  /** The callbacks a visitor sees that visits objects and arrays in turn. */
  function Callbacks(v: Value): seq<Event>
    decreases v, 1
  {
    match v
    case Array(elements) => [EnterArray] + ElementsCallbacks(elements) + [LeaveArray]
    case Object(fields) => [EnterObject] + FieldsCallbacks(fields) + [LeaveObject]
    case _ => [VisitValue(v)]
  }

  function ElementCallbacks(e: Value): seq<Event>
    decreases e, 2
  {
    [EnterElement] + Callbacks(e) + [LeaveElement]
  }

  function ElementsCallbacks(elements: seq<Value>): seq<Event>
    decreases elements, 0
  {
    if elements == [] then []
    else ElementCallbacks(elements[0]) +
         (if |elements| == 1 then [] else [ArraySeparator] + ElementsCallbacks(elements[1..]))
  }

  function FieldCallbacks(f: Field): seq<Event>
    decreases f, 2
  {
    [EnterField, VisitValue(String(f.key)), FieldSeparator] + Callbacks(f.value) + [LeaveField]
  }

  function FieldsCallbacks(fields: Fields): seq<Event>
    decreases fields, 0
  {
    if fields == [] then []
    else FieldCallbacks(fields[0]) +
         (if |fields| == 1 then [] else [ObjectSeparator] + FieldsCallbacks(fields[1..]))
  }

  /** The original's visit functions, which take any visitor; here they record the calls they make. */
  method Visit(v: Value) returns (calls: seq<Event>)
    ensures calls == Callbacks(v)
    decreases v, 1
  {
    match v
    case Array(elements) => calls := VisitArray(elements);
    case Object(fields) => calls := VisitObject(fields);
    case _ => calls := [VisitValue(v)];
  }

  method VisitArray(elements: seq<Value>) returns (calls: seq<Event>)
    ensures calls == Callbacks(Array(elements))
    decreases elements, 0
  {
    calls := [EnterArray];
    if |elements| != 0 {
      var first, last := 0, |elements| - 1;
      assert elements[0..] == elements;
      while last != first
        invariant 0 <= first <= last == |elements| - 1
        invariant [EnterArray] + ElementsCallbacks(elements) == calls + ElementsCallbacks(elements[first..])
        decreases last - first
      {
        var inner := Visit(elements[first]);
        assert elements[first..][1..] == elements[first + 1..];
        calls := calls + ([EnterElement] + inner + [LeaveElement]) + [ArraySeparator];
        first := first + 1;
      }
      var inner := Visit(elements[first]);
      assert elements[first..] == [elements[first]];
      assert ElementsCallbacks(elements[first..]) == ElementCallbacks(elements[first]) + [];
      calls := calls + ([EnterElement] + inner + [LeaveElement]);
    }
    calls := calls + [LeaveArray];
  }

  method VisitObject(fields: Fields) returns (calls: seq<Event>)
    ensures calls == Callbacks(Object(fields))
    decreases fields, 0
  {
    calls := [EnterObject];
    if |fields| != 0 {
      var first, last := 0, |fields| - 1;
      assert fields[0..] == fields;
      while last != first
        invariant 0 <= first <= last == |fields| - 1
        invariant [EnterObject] + FieldsCallbacks(fields) == calls + FieldsCallbacks(fields[first..])
        decreases last - first
      {
        var inner := Visit(fields[first].value);
        assert fields[first..][1..] == fields[first + 1..];
        calls := calls + ([EnterField, VisitValue(String(fields[first].key)), FieldSeparator] + inner + [LeaveField]) + [ObjectSeparator];
        first := first + 1;
      }
      var inner := Visit(fields[first].value);
      assert fields[first..] == [fields[first]];
      assert FieldsCallbacks(fields[first..]) == FieldCallbacks(fields[first]) + [];
      calls := calls + ([EnterField, VisitValue(String(fields[first].key)), FieldSeparator] + inner + [LeaveField]);
    }
    calls := calls + [LeaveObject];
  }

  // ---------- String literals ----------

  function HexDigit(n: int): char
    requires 0 <= n < 16
  {
    "0123456789ABCDEF"[n]
  }

  function EscapedChar(c: char): string {
    if c == '"' then ['\\', '"']
    else if c == '\\' then ['\\', '\\']
    else if c == 8 as char then ['\\', 'b']
    else if c == 12 as char then ['\\', 'f']
    else if c == 10 as char then ['\\', 'n']
    else if c == 13 as char then ['\\', 'r']
    else if c == 9 as char then ['\\', 't']
    else if c < ' ' then ['\\', 'u', '0', '0', HexDigit(c as int / 16), HexDigit(c as int % 16)]
    else [c]
  }

  function Escaped(s: string): string {
    if s == "" then "" else EscapedChar(s[0]) + Escaped(s[1..])
  }

  lemma {:induction false} EscapedAppend(s: string, c: char)
    ensures Escaped(s + [c]) == Escaped(s) + EscapedChar(c)
  {
    if s == "" {
      assert s + [c] == [c] && [c][1..] == "";
      assert Escaped([c]) == EscapedChar(c) + "";
    } else {
      assert (s + [c])[0] == s[0] && (s + [c])[1..] == s[1..] + [c];
      EscapedAppend(s[1..], c);
      assert EscapedChar(s[0]) + (Escaped(s[1..]) + EscapedChar(c)) == EscapedChar(s[0]) + Escaped(s[1..]) + EscapedChar(c);
    }
  }

  method EscapeCharacters(unescaped: string) returns (escaped: string)
    ensures escaped == Escaped(unescaped)
  {
    escaped := "";
    for i := 0 to |unescaped|
      invariant escaped == Escaped(unescaped[..i])
    {
      var c := unescaped[i];
      assert unescaped[..i + 1] == unescaped[..i] + [c];
      EscapedAppend(unescaped[..i], c);
      escaped := escaped + EscapedChar(c);
    }
    assert unescaped[..|unescaped|] == unescaped;
  }

  function Quoted(s: string): string {
    "\"" + Escaped(s) + "\""
  }

  /** What the compact printer writes for a value that is neither an object nor an array. */
  function ScalarText(v: Value): string
    requires !v.IsComposite()
  {
    match v
    case Null => "null"
    case Bool(b) => if b then "true" else "false"
    case Number(text) => text
    case String(s) => Quoted(s)
  }

  // ---------- The compact printer ----------

  function Punctuation(e: Event): string {
    match e
    case EnterObject => "{"
    case FieldSeparator => ":"
    case ObjectSeparator => ","
    case LeaveObject => "}"
    case EnterArray => "["
    case ArraySeparator => ","
    case LeaveArray => "]"
    case _ => ""
  }

  /** What one callback makes the compact printer write. */
  function OstreamText(e: Event): string {
    match e
    case VisitValue(v) => Compact(v)
    case _ => Punctuation(e)
  }

  /** The text of a value with no extraneous whitespace (sections 2 to 7 of RFC 8259). */
  function Compact(v: Value): string
    decreases v, 1
  {
    match v
    case Array(elements) => "[" + CompactElements(elements) + "]"
    case Object(fields) => "{" + CompactFields(fields) + "}"
    case _ => ScalarText(v)
  }

  function CompactElements(elements: seq<Value>): string
    decreases elements, 0
  {
    if elements == [] then ""
    else Compact(elements[0]) + (if |elements| == 1 then "" else "," + CompactElements(elements[1..]))
  }

  function CompactFields(fields: Fields): string
    decreases fields, 0
  {
    if fields == [] then ""
    else Quoted(fields[0].key) + ":" + Compact(fields[0].value) +
         (if |fields| == 1 then "" else "," + CompactFields(fields[1..]))
  }

  // ---------- The pretty printer ----------

  function Spaces(n: nat): string {
    seq(n, i => ' ')
  }

  const NEWLINE: string := [10 as char]

  /** The text of a value on lines indented by `depth` levels, the first of which is already started. */
  ghost function Pretty(v: Value, depth: nat, indent: nat): string
    decreases v, 1
  {
    match v
    case Array(elements) =>
      "[" + PrettyElements(elements, depth + 1, indent, true) + Closing(depth, elements == [], indent) + "]"
    case Object(fields) =>
      "{" + PrettyFields(fields, depth + 1, indent, true) + Closing(depth, fields == [], indent) + "}"
    case _ => ScalarText(v)
  }

  ghost function Line(depth: nat, indent: nat, first: bool): string {
    (if first then NEWLINE else "") + Spaces(depth * indent)
  }

  ghost function PrettyElements(elements: seq<Value>, depth: nat, indent: nat, first: bool): string
    decreases elements, 0
  {
    if elements == [] then ""
    else Line(depth, indent, first) + Pretty(elements[0], depth, indent) +
         (if |elements| == 1 then "" else "," + NEWLINE + PrettyElements(elements[1..], depth, indent, false))
  }

  ghost function PrettyField(f: Field, depth: nat, indent: nat, first: bool): string
    decreases f, 2
  {
    Line(depth, indent, first) + Quoted(f.key) + ": " + Pretty(f.value, depth, indent)
  }

  ghost function PrettyFields(fields: Fields, depth: nat, indent: nat, first: bool): string
    decreases fields, 0
  {
    if fields == [] then ""
    else PrettyField(fields[0], depth, indent, first) +
         (if |fields| == 1 then "" else "," + NEWLINE + PrettyFields(fields[1..], depth, indent, false))
  }

  /** What a visited value does to the flag that its parent is still empty. */
  ghost function EmptyAfter(v: Value, empty: bool): bool {
    match v
    case Array(elements) => elements == []
    case Object(fields) => fields == []
    case _ => empty
  }

  datatype PrettyState = PrettyState(os: string, depth: int, empty: bool)

  /** How one callback changes the pretty printer. */
  ghost function PrettyStep(st: PrettyState, e: Event, indent: nat): PrettyState
    requires st.depth >= 0
  {
    var PrettyState(os, depth, empty) := st;
    match e
    case EnterObject => PrettyState(os + "{", depth + 1, true)
    case EnterArray => PrettyState(os + "[", depth + 1, true)
    case EnterField => st.(os := os + (if empty then NEWLINE else "") + Spaces(depth * indent))
    case EnterElement => st.(os := os + (if empty then NEWLINE else "") + Spaces(depth * indent))
    case FieldSeparator => st.(os := os + ": ")
    case LeaveField => st.(empty := false)
    case LeaveElement => st.(empty := false)
    case ObjectSeparator => st.(os := os + "," + NEWLINE)
    case ArraySeparator => st.(os := os + "," + NEWLINE)
    case LeaveObject => PrettyState(os + Closing(depth - 1, empty, indent) + "}", depth - 1, empty)
    case LeaveArray => PrettyState(os + Closing(depth - 1, empty, indent) + "]", depth - 1, empty)
    case VisitValue(v) => PrettyState(os + Pretty(v, depth, indent), depth, EmptyAfter(v, empty))
  }

  function Closing(depth: int, empty: bool, indent: nat): string {
    if empty || depth < 0 then "" else NEWLINE + Spaces(depth * indent)
  }

  // ---------- The visitor that rebuilds a value ----------

  datatype Step = Key(key: string) | Index(i: nat)

  /** Where a reference on the cursor stack points, as the way there from the target. */
  type Position = seq<Step>

  function At(v: Value, position: Position): Option<Value>
    decreases |position|
  {
    if position == [] then Some(v)
    else match (v, position[0])
      case (Object(fields), Key(key)) =>
        if Find(fields, key).Some? then At(Find(fields, key).value, position[1..]) else None
      case (Array(elements), Index(i)) =>
        if i < |elements| then At(elements[i], position[1..]) else None
      case _ => None
  }

  /** The value with the part at `position`, which exists, replaced. */
  function Assign(v: Value, position: Position, w: Value): Value
    requires At(v, position).Some?
    decreases |position|
  {
    if position == [] then w
    else match (v, position[0])
      case (Object(fields), Key(key)) => Object(Put(fields, key, Assign(Find(fields, key).value, position[1..], w)))
      case (Array(elements), Index(i)) => Array(elements[i := Assign(elements[i], position[1..], w)])
  }

  datatype AssignState = AssignState(target: Value, cursor: seq<Position>, name: bool)

  /** How one callback changes the rebuilding visitor; none where the original throws or has no cursor. */
  function AssignStep(st: AssignState, e: Event): Option<AssignState> {
    var AssignState(target, cursor, name) := st;
    if cursor == [] || At(target, cursor[|cursor| - 1]) == None then None
    else
      var position := cursor[|cursor| - 1];
      var top := At(target, position).value;
      match e
      case VisitValue(v) =>
        if name && v.String? then
          if !top.Object? then None
          else Some(st.(target := Assign(target, position, Object(Put(top.fields, v.s, Null))),
                        cursor := cursor + [position + [Key(v.s)]]))
        else Some(st.(target := Assign(target, position, v)))
      case EnterObject => Some(st.(target := Assign(target, position, Object([]))))
      case EnterArray => Some(st.(target := Assign(target, position, Array([]))))
      case EnterField => Some(st.(name := true))
      case FieldSeparator => Some(st.(name := false))
      case LeaveField => Some(st.(cursor := cursor[..|cursor| - 1]))
      case EnterElement =>
        if !top.Array? then None
        else Some(st.(target := Assign(target, position, Array(top.elements + [Null])),
                      cursor := cursor + [position + [Index(|top.elements|)]]))
      case LeaveElement => Some(st.(cursor := cursor[..|cursor| - 1]))
      case _ => Some(st)
  }

  class AssigningVisitor {
    var target: Value
    var cursor: seq<Position>
    var name: bool

    ghost function State(): AssignState
      reads this
    {
      AssignState(target, cursor, name)
    }

    constructor (target: Value)
      ensures State() == AssignState(target, [[]], false)
    {
      this.target := target;
      cursor := [[]];
      name := false;
    }

    method AssignTop(v: Value)
      requires cursor != [] && At(target, cursor[|cursor| - 1]).Some?
      modifies this`target
      ensures target == Assign(old(target), cursor[|cursor| - 1], v)
    {
      target := Assign(target, cursor[|cursor| - 1], v);
    }

    method Pop()
      requires cursor != []
      modifies this`cursor
      ensures cursor == old(cursor)[..|old(cursor)| - 1]
    {
      cursor := cursor[..|cursor| - 1];
    }

    method Receive(e: Event)
      requires AssignStep(State(), e).Some?
      modifies this
      ensures Some(State()) == AssignStep(old(State()), e)
    {
      var position := cursor[|cursor| - 1];
      var top := At(target, position).value;
      match e
      case VisitValue(v) =>
        if name && v.String? {
          AssignTop(Object(Put(top.fields, v.s, Null)));
          cursor := cursor + [position + [Key(v.s)]];
        } else {
          AssignTop(v);
        }
      case EnterObject => AssignTop(Object([]));
      case EnterArray => AssignTop(Array([]));
      case EnterField => name := true;
      case FieldSeparator => name := false;
      case LeaveField => Pop();
      case EnterElement =>
        AssignTop(Array(top.elements + [Null]));
        cursor := cursor + [position + [Index(|top.elements|)]];
      case LeaveElement => Pop();
      case _ =>
    }
  }
}
