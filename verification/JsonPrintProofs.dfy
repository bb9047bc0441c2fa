/** The two printers. Whitespace outside strings is all that tells the pretty text of a value from its
    compact text, and no two values share a compact text, so neither printer is ambiguous. */
module JsonPrintProofs {
  import opened Json
  import opened JsonVisit
  import opened Sequences

  // ---------- What the printing visitors write ----------

  ghost function RunOstream(os: string, events: seq<Event>): string
    decreases |events|
  {
    if events == [] then os else RunOstream(os + OstreamText(events[0]), events[1..])
  }

  lemma {:induction false} RunOstreamAppend(os: string, a: seq<Event>, b: seq<Event>)
    ensures RunOstream(os, a + b) == RunOstream(RunOstream(os, a), b)
    decreases |a|
  {
    if a == [] {
      assert a + b == b;
    } else {
      assert (a + b)[0] == a[0] && (a + b)[1..] == a[1..] + b;
      RunOstreamAppend(os + OstreamText(a[0]), a[1..], b);
    }
  }

  /** From `os`, the callbacks write `text`. */
  ghost predicate Writes(os: string, events: seq<Event>, text: string) {
    RunOstream(os, events) == os + text
  }

  lemma WritesOne(os: string, e: Event)
    ensures Writes(os, [e], OstreamText(e))
  {
    assert [e][1..] == [];
  }

  lemma WritesAppend(os: string, a: seq<Event>, s: string, b: seq<Event>, t: string)
    requires Writes(os, a, s) && Writes(os + s, b, t)
    ensures Writes(os, a + b, s + t)
  {
    RunOstreamAppend(os, a, b);
    Associates(os, s, t);
  }

  /** The callbacks of a visit make the compact printer write the value's compact text. */
  lemma {:induction false} OstreamWritesCompact(os: string, v: Value)
    ensures Writes(os, Callbacks(v), Compact(v))
    decreases v, 1
  {
    match v
    case Array(elements) =>
      WritesOne(os, EnterArray);
      OstreamWritesElements(os + "[", elements);
      WritesAppend(os, [EnterArray], "[", ElementsCallbacks(elements), CompactElements(elements));
      WritesOne(os + ("[" + CompactElements(elements)), LeaveArray);
      WritesAppend(os, [EnterArray] + ElementsCallbacks(elements), "[" + CompactElements(elements), [LeaveArray], "]");
    case Object(fields) =>
      WritesOne(os, EnterObject);
      OstreamWritesFields(os + "{", fields);
      WritesAppend(os, [EnterObject], "{", FieldsCallbacks(fields), CompactFields(fields));
      WritesOne(os + ("{" + CompactFields(fields)), LeaveObject);
      WritesAppend(os, [EnterObject] + FieldsCallbacks(fields), "{" + CompactFields(fields), [LeaveObject], "}");
    case _ => WritesOne(os, VisitValue(v));
  }

  lemma {:induction false} OstreamWritesElements(os: string, elements: seq<Value>)
    ensures Writes(os, ElementsCallbacks(elements), CompactElements(elements))
    decreases elements, 0
  {
    if elements == [] {
      assert os + "" == os;
    } else {
      var text := Compact(elements[0]);
      WritesOne(os, EnterElement);
      OstreamWritesCompact(os, elements[0]);
      assert os + "" == os && "" + text == text && text + "" == text;
      WritesAppend(os, [EnterElement], "", Callbacks(elements[0]), text);
      WritesOne(os + text, LeaveElement);
      WritesAppend(os, [EnterElement] + Callbacks(elements[0]), text, [LeaveElement], "");
      if |elements| > 1 {
        OstreamWritesRest(os + text, elements);
        WritesAppend(os, ElementCallbacks(elements[0]), text,
                     [ArraySeparator] + ElementsCallbacks(elements[1..]), "," + CompactElements(elements[1..]));
      } else {
        assert ElementCallbacks(elements[0]) + [] == ElementCallbacks(elements[0]);
      }
    }
  }

  lemma {:induction false} OstreamWritesRest(os: string, elements: seq<Value>)
    requires |elements| > 1
    ensures Writes(os, [ArraySeparator] + ElementsCallbacks(elements[1..]), "," + CompactElements(elements[1..]))
    decreases elements[1..], 1
  {
    WritesOne(os, ArraySeparator);
    OstreamWritesElements(os + ",", elements[1..]);
    WritesAppend(os, [ArraySeparator], ",", ElementsCallbacks(elements[1..]), CompactElements(elements[1..]));
  }

  lemma {:induction false} OstreamWritesField(os: string, f: Field)
    ensures Writes(os, FieldCallbacks(f), Quoted(f.key) + ":" + Compact(f.value))
    decreases f, 2
  {
    var name, text := Quoted(f.key), Compact(f.value);
    WritesOne(os, EnterField);
    assert os + "" == os && "" + name == name;
    WritesOne(os, VisitValue(String(f.key)));
    WritesAppend(os, [EnterField], "", [VisitValue(String(f.key))], name);
    WritesOne(os + name, FieldSeparator);
    WritesAppend(os, [EnterField] + [VisitValue(String(f.key))], name, [FieldSeparator], ":");
    assert [EnterField] + [VisitValue(String(f.key))] + [FieldSeparator] == [EnterField, VisitValue(String(f.key)), FieldSeparator];
    OstreamWritesCompact(os + (name + ":"), f.value);
    WritesAppend(os, [EnterField, VisitValue(String(f.key)), FieldSeparator], name + ":", Callbacks(f.value), text);
    WritesOne(os + (name + ":" + text), LeaveField);
    WritesAppend(os, [EnterField, VisitValue(String(f.key)), FieldSeparator] + Callbacks(f.value), name + ":" + text, [LeaveField], "");
    assert name + ":" + text + "" == name + ":" + text;
  }

  lemma {:induction false} OstreamWritesFields(os: string, fields: Fields)
    ensures Writes(os, FieldsCallbacks(fields), CompactFields(fields))
    decreases fields, 0
  {
    if fields == [] {
      assert os + "" == os;
    } else {
      var text := Quoted(fields[0].key) + ":" + Compact(fields[0].value);
      OstreamWritesField(os, fields[0]);
      if |fields| > 1 {
        WritesOne(os + text, ObjectSeparator);
        OstreamWritesFields(os + text + ",", fields[1..]);
        WritesAppend(os + text, [ObjectSeparator], ",", FieldsCallbacks(fields[1..]), CompactFields(fields[1..]));
        WritesAppend(os, FieldCallbacks(fields[0]), text,
                     [ObjectSeparator] + FieldsCallbacks(fields[1..]), "," + CompactFields(fields[1..]));
      } else {
        assert FieldCallbacks(fields[0]) + [] == FieldCallbacks(fields[0]) && text + "" == text;
      }
    }
  }

  // ---------- What the pretty printer writes ----------

  ghost function RunPretty(st: PrettyState, events: seq<Event>, indent: nat): PrettyState
    decreases |events|
  {
    if events == [] || st.depth < 0 then st else RunPretty(PrettyStep(st, events[0], indent), events[1..], indent)
  }

  lemma {:induction false} RunPrettyAppend(st: PrettyState, a: seq<Event>, b: seq<Event>, indent: nat)
    ensures RunPretty(st, a + b, indent) == RunPretty(RunPretty(st, a, indent), b, indent)
    decreases |a|
  {
    if a == [] {
      assert a + b == b;
    } else if st.depth >= 0 {
      assert (a + b)[0] == a[0] && (a + b)[1..] == a[1..] + b;
      RunPrettyAppend(PrettyStep(st, a[0], indent), a[1..], b, indent);
    }
  }

  /** The callbacks write `text` and leave the depth and the flag as given. */
  ghost predicate PrettyWrites(st: PrettyState, events: seq<Event>, indent: nat, text: string, depth: int, empty: bool) {
    RunPretty(st, events, indent) == PrettyState(st.os + text, depth, empty)
  }

  lemma PrettyOne(st: PrettyState, e: Event, indent: nat)
    requires st.depth >= 0
    ensures RunPretty(st, [e], indent) == PrettyStep(st, e, indent)
  {
    assert [e][1..] == [];
  }

  lemma PrettyAppend(st: PrettyState, a: seq<Event>, indent: nat, s: string, depth: int, empty: bool,
                     b: seq<Event>, t: string, depth': int, empty': bool)
    requires PrettyWrites(st, a, indent, s, depth, empty)
    requires PrettyWrites(PrettyState(st.os + s, depth, empty), b, indent, t, depth', empty')
    ensures PrettyWrites(st, a + b, indent, s + t, depth', empty')
  {
    RunPrettyAppend(st, a, b, indent);
    Associates(st.os, s, t);
  }

  /** The callbacks of a visit make the pretty printer write the value's pretty text, and restore its depth. */
  lemma {:induction false} PrettyWritesPretty(st: PrettyState, v: Value, indent: nat)
    requires st.depth >= 0
    ensures PrettyWrites(st, Callbacks(v), indent, Pretty(v, st.depth, indent), st.depth, EmptyAfter(v, st.empty))
    decreases v, 1
  {
    match v
    case Array(elements) => PrettyWritesArray(st, elements, indent);
    case Object(fields) => PrettyWritesObject(st, fields, indent);
    case _ => PrettyOne(st, VisitValue(v), indent);
  }

  lemma {:induction false} PrettyWritesArray(st: PrettyState, elements: seq<Value>, indent: nat)
    requires st.depth >= 0
    ensures PrettyWrites(st, Callbacks(Array(elements)), indent, Pretty(Array(elements), st.depth, indent), st.depth, elements == [])
    decreases elements, 1
  {
    var d := st.depth;
    var inner, closing := PrettyElements(elements, d + 1, indent, true), Closing(d, elements == [], indent);
    PrettyOne(st, EnterArray, indent);
    PrettyWritesElements(PrettyState(st.os + "[", d + 1, true), elements, indent);
    PrettyAppend(st, [EnterArray], indent, "[", d + 1, true, ElementsCallbacks(elements), inner, d + 1, elements == []);
    var last := PrettyState(st.os + ("[" + inner), d + 1, elements == []);
    PrettyOne(last, LeaveArray, indent);
    assert last.os + closing + "]" == last.os + (closing + "]");
    PrettyAppend(st, [EnterArray] + ElementsCallbacks(elements), indent, "[" + inner, d + 1, elements == [],
                 [LeaveArray], closing + "]", d, elements == []);
    assert "[" + inner + (closing + "]") == "[" + inner + closing + "]";
  }

  lemma {:induction false} PrettyWritesObject(st: PrettyState, fields: Fields, indent: nat)
    requires st.depth >= 0
    ensures PrettyWrites(st, Callbacks(Object(fields)), indent, Pretty(Object(fields), st.depth, indent), st.depth, fields == [])
    decreases fields, 1
  {
    var d := st.depth;
    var inner, closing := PrettyFields(fields, d + 1, indent, true), Closing(d, fields == [], indent);
    PrettyOne(st, EnterObject, indent);
    PrettyWritesFields(PrettyState(st.os + "{", d + 1, true), fields, indent);
    PrettyAppend(st, [EnterObject], indent, "{", d + 1, true, FieldsCallbacks(fields), inner, d + 1, fields == []);
    var last := PrettyState(st.os + ("{" + inner), d + 1, fields == []);
    PrettyOne(last, LeaveObject, indent);
    assert last.os + closing + "}" == last.os + (closing + "}");
    PrettyAppend(st, [EnterObject] + FieldsCallbacks(fields), indent, "{" + inner, d + 1, fields == [],
                 [LeaveObject], closing + "}", d, fields == []);
    assert "{" + inner + (closing + "}") == "{" + inner + closing + "}";
  }

  lemma {:induction false} PrettyWritesElement(st: PrettyState, v: Value, indent: nat)
    requires st.depth >= 0
    ensures PrettyWrites(st, ElementCallbacks(v), indent, Line(st.depth, indent, st.empty) + Pretty(v, st.depth, indent), st.depth, false)
    decreases v, 2
  {
    var d, line, text := st.depth, Line(st.depth, indent, st.empty), Pretty(v, st.depth, indent);
    PrettyOne(st, EnterElement, indent);
    assert st.os + (if st.empty then NEWLINE else "") + Spaces(d * indent) == st.os + line;
    PrettyWritesPretty(PrettyState(st.os + line, d, st.empty), v, indent);
    PrettyAppend(st, [EnterElement], indent, line, d, st.empty, Callbacks(v), text, d, EmptyAfter(v, st.empty));
    var last := PrettyState(st.os + (line + text), d, EmptyAfter(v, st.empty));
    PrettyOne(last, LeaveElement, indent);
    assert last.os + "" == last.os && line + text + "" == line + text;
    PrettyAppend(st, [EnterElement] + Callbacks(v), indent, line + text, d, EmptyAfter(v, st.empty), [LeaveElement], "", d, false);
  }

  lemma {:induction false} PrettyWritesElements(st: PrettyState, elements: seq<Value>, indent: nat)
    requires st.depth >= 0
    ensures PrettyWrites(st, ElementsCallbacks(elements), indent, PrettyElements(elements, st.depth, indent, st.empty),
                         st.depth, st.empty && elements == [])
    decreases elements, 0
  {
    var d := st.depth;
    if elements == [] {
      assert st.os + "" == st.os;
    } else {
      var text := Line(d, indent, st.empty) + Pretty(elements[0], d, indent);
      PrettyWritesElement(st, elements[0], indent);
      if |elements| > 1 {
        var separator, rest := "," + NEWLINE, PrettyElements(elements[1..], d, indent, false);
        var mid := PrettyState(st.os + text, d, false);
        PrettyOne(mid, ArraySeparator, indent);
        assert mid.os + "," + NEWLINE == mid.os + separator;
        PrettyWritesElements(PrettyState(mid.os + separator, d, false), elements[1..], indent);
        PrettyAppend(mid, [ArraySeparator], indent, separator, d, false, ElementsCallbacks(elements[1..]), rest, d, false);
        PrettyAppend(st, ElementCallbacks(elements[0]), indent, text, d, false,
                     [ArraySeparator] + ElementsCallbacks(elements[1..]), separator + rest, d, false);
      } else {
        assert ElementCallbacks(elements[0]) + [] == ElementCallbacks(elements[0]) && text + "" == text;
      }
    }
  }

  lemma {:induction false} PrettyWritesField(st: PrettyState, f: Field, indent: nat)
    requires st.depth >= 0
    ensures PrettyWrites(st, FieldCallbacks(f), indent, PrettyField(f, st.depth, indent, st.empty), st.depth, false)
    decreases f, 2
  {
    var d, line, name, text := st.depth, Line(st.depth, indent, st.empty), Quoted(f.key), Pretty(f.value, st.depth, indent);
    PrettyOne(st, EnterField, indent);
    assert st.os + (if st.empty then NEWLINE else "") + Spaces(d * indent) == st.os + line;
    var a := PrettyState(st.os + line, d, st.empty);
    PrettyOne(a, VisitValue(String(f.key)), indent);
    PrettyAppend(st, [EnterField], indent, line, d, st.empty, [VisitValue(String(f.key))], name, d, st.empty);
    var b := PrettyState(st.os + (line + name), d, st.empty);
    PrettyOne(b, FieldSeparator, indent);
    PrettyAppend(st, [EnterField] + [VisitValue(String(f.key))], indent, line + name, d, st.empty, [FieldSeparator], ": ", d, st.empty);
    assert [EnterField] + [VisitValue(String(f.key))] + [FieldSeparator] == [EnterField, VisitValue(String(f.key)), FieldSeparator];
    PrettyWritesPretty(PrettyState(st.os + (line + name + ": "), d, st.empty), f.value, indent);
    PrettyAppend(st, [EnterField, VisitValue(String(f.key)), FieldSeparator], indent, line + name + ": ", d, st.empty,
                 Callbacks(f.value), text, d, EmptyAfter(f.value, st.empty));
    var last := PrettyState(st.os + (line + name + ": " + text), d, EmptyAfter(f.value, st.empty));
    PrettyOne(last, LeaveField, indent);
    assert last.os + "" == last.os && line + name + ": " + text + "" == line + name + ": " + text;
    PrettyAppend(st, [EnterField, VisitValue(String(f.key)), FieldSeparator] + Callbacks(f.value), indent, line + name + ": " + text,
                 d, EmptyAfter(f.value, st.empty), [LeaveField], "", d, false);
  }

  lemma {:induction false} PrettyWritesFields(st: PrettyState, fields: Fields, indent: nat)
    requires st.depth >= 0
    ensures PrettyWrites(st, FieldsCallbacks(fields), indent, PrettyFields(fields, st.depth, indent, st.empty),
                         st.depth, st.empty && fields == [])
    decreases fields, 0
  {
    var d := st.depth;
    if fields == [] {
      assert st.os + "" == st.os;
    } else {
      var text := PrettyField(fields[0], d, indent, st.empty);
      PrettyWritesField(st, fields[0], indent);
      if |fields| > 1 {
        var separator, rest := "," + NEWLINE, PrettyFields(fields[1..], d, indent, false);
        var mid := PrettyState(st.os + text, d, false);
        PrettyOne(mid, ObjectSeparator, indent);
        assert mid.os + "," + NEWLINE == mid.os + separator;
        PrettyWritesFields(PrettyState(mid.os + separator, d, false), fields[1..], indent);
        PrettyAppend(mid, [ObjectSeparator], indent, separator, d, false, FieldsCallbacks(fields[1..]), rest, d, false);
        PrettyAppend(st, FieldCallbacks(fields[0]), indent, text, d, false,
                     [ObjectSeparator] + FieldsCallbacks(fields[1..]), separator + rest, d, false);
      } else {
        assert FieldCallbacks(fields[0]) + [] == FieldCallbacks(fields[0]) && text + "" == text;
      }
    }
  }

  // ---------- Whitespace outside strings ----------

  datatype Scan = Outside | Inside | AfterBackslash

  ghost function ScanNext(scan: Scan, c: char): Scan {
    match scan
    case Outside => if c == '"' then Inside else Outside
    case Inside => if c == '"' then Outside else if c == '\\' then AfterBackslash else Inside
    case AfterBackslash => Inside
  }

  ghost function ScanEnd(scan: Scan, s: string): Scan
    decreases |s|
  {
    if s == "" then scan else ScanEnd(ScanNext(scan, s[0]), s[1..])
  }

  /** Section 2 of RFC 8259. */
  predicate IsWhitespace(c: char) {
    c == ' ' || c == 9 as char || c == 10 as char || c == 13 as char
  }

  /** The text without the whitespace that is outside string literals. */
  ghost function Strip(scan: Scan, s: string): string
    decreases |s|
  {
    if s == "" then ""
    else (if scan.Outside? && IsWhitespace(s[0]) then "" else [s[0]]) + Strip(ScanNext(scan, s[0]), s[1..])
  }

  lemma {:induction false} StripAppend(scan: Scan, a: string, b: string)
    ensures Stripped(scan, a + b) == (Strip(scan, a) + Strip(ScanEnd(scan, a), b), ScanEnd(ScanEnd(scan, a), b))
    decreases |a|
  {
    if a == "" {
      assert a + b == b;
      EmptyPrefix(Strip(scan, b));
    } else {
      assert (a + b)[0] == a[0] && (a + b)[1..] == a[1..] + b;
      StripAppend(ScanNext(scan, a[0]), a[1..], b);
      Associates(if scan.Outside? && IsWhitespace(a[0]) then "" else [a[0]],
                 Strip(ScanNext(scan, a[0]), a[1..]), Strip(ScanEnd(scan, a), b));
    }
  }

  ghost function Stripped(scan: Scan, s: string): (string, Scan) {
    (Strip(scan, s), ScanEnd(scan, s))
  }

  /** `s` is complete as to string literals, and `t` is `s` without the whitespace outside them. */
  ghost predicate StripsTo(s: string, t: string) {
    Stripped(Outside, s) == (t, Outside)
  }

  /** In a string literal, `s` loses nothing and does not end the literal. */
  ghost predicate StaysInside(s: string) {
    Stripped(Inside, s) == (s, Inside)
  }

  lemma StripsToAppend(a: string, s: string, b: string, t: string)
    requires StripsTo(a, s) && StripsTo(b, t)
    ensures StripsTo(a + b, s + t)
  {
    StripAppend(Outside, a, b);
  }

  lemma {:induction false} SpacesStrip(n: nat)
    ensures StripsTo(Spaces(n), "")
  {
    if n > 0 {
      assert Spaces(n)[1..] == Spaces(n - 1);
      SpacesStrip(n - 1);
      assert Strip(Outside, Spaces(n)) == "" + "";
    }
  }

  lemma {:induction false} PlainStrips(s: string)
    requires forall c <- s :: c != '"' && !IsWhitespace(c)
    ensures StripsTo(s, s)
  {
    if s != "" {
      assert s[0] in s && forall c <- s[1..] :: c in s;
      PlainStrips(s[1..]);
      HeadTail(s);
    }
  }

  lemma {:induction false} PlainInside(s: string)
    requires forall c <- s :: c != '"' && c != '\\'
    ensures StaysInside(s)
  {
    if s != "" {
      assert s[0] in s && forall c <- s[1..] :: c in s;
      PlainInside(s[1..]);
      HeadTail(s);
    }
  }

  lemma PairInside(c: char)
    ensures StaysInside(['\\', c])
  {
    assert ['\\', c][1..] == [c] && [c][1..] == "";
    assert Strip(Inside, [c][1..]) == "" && ScanEnd(Inside, [c][1..]) == Inside;
    assert Strip(AfterBackslash, [c]) == [c] && ScanEnd(AfterBackslash, [c]) == Inside;
    assert Strip(Inside, ['\\', c]) == ['\\', c];
  }

  lemma HexDigitIsPlain(n: int)
    requires 0 <= n < 16
    ensures HexDigit(n) != '"' && HexDigit(n) != '\\'
  {
  }

  lemma CodePointInside(high: char, low: char)
    requires high != '"' && high != '\\' && low != '"' && low != '\\'
    ensures StaysInside(['\\', 'u', '0', '0', high, low])
  {
    var digits := ['0', '0', high, low];
    PairInside('u');
    PlainInside(digits);
    StripAppend(Inside, ['\\', 'u'], digits);
    assert ['\\', 'u'] + digits == ['\\', 'u', '0', '0', high, low];
  }

  /** An escaped character never ends a string literal early: a quote or backslash only ever follows a
      backslash that starts an escape. */
  lemma EscapedCharStaysInside(c: char)
    ensures StaysInside(EscapedChar(c))
  {
    var e := EscapedChar(c);
    if |e| == 1 {
      PlainInside(e);
    } else if |e| == 2 {
      PairInside(e[1]);
    } else {
      HexDigitIsPlain(c as int / 16);
      HexDigitIsPlain(c as int % 16);
      CodePointInside(HexDigit(c as int / 16), HexDigit(c as int % 16));
    }
  }

  lemma {:induction false} EscapedStaysInside(s: string)
    ensures StaysInside(Escaped(s))
  {
    if s != "" {
      EscapedCharStaysInside(s[0]);
      EscapedStaysInside(s[1..]);
      StripAppend(Inside, EscapedChar(s[0]), Escaped(s[1..]));
    }
  }

  lemma QuotedStrips(s: string)
    ensures StripsTo(Quoted(s), Quoted(s))
  {
    EscapedStaysInside(s);
    var quote: string := ['"'];
    assert quote[1..] == "" && Strip(Outside, quote) == quote && Strip(Inside, quote) == quote;
    assert ScanEnd(Outside, quote) == Inside && ScanEnd(Inside, quote) == Outside;
    StripAppend(Outside, quote, Escaped(s));
    StripAppend(Outside, quote + Escaped(s), quote);
    assert Quoted(s) == quote + Escaped(s) + quote;
  }

  /** Numbers print without whitespace or quotes. */
  ghost predicate PlainNumbers(v: Value) {
    || (v.Number? && forall c <- v.text :: c != '"' && !IsWhitespace(c))
    || (v.Array? && forall e <- v.elements :: PlainNumbers(e))
    || (v.Object? && forall f <- v.fields :: PlainNumbers(f.value))
    || v.Null? || v.Bool? || v.String?
  }

  lemma ScalarStrips(v: Value)
    requires !v.IsComposite() && PlainNumbers(v)
    ensures StripsTo(ScalarText(v), ScalarText(v))
  {
    if v.String? {
      QuotedStrips(v.s);
    } else {
      PlainStrips(ScalarText(v));
    }
  }

  lemma NewlineStrips()
    ensures StripsTo(NEWLINE, "")
  {
    assert NEWLINE[1..] == "";
    assert ScanEnd(Outside, NEWLINE[1..]) == Outside;
    assert Strip(Outside, NEWLINE) == "" + "";
  }

  lemma LineStrips(depth: nat, indent: nat, first: bool)
    ensures StripsTo(Line(depth, indent, first), "") && StripsTo(Closing(depth, first, indent), "")
  {
    NewlineStrips();
    SpacesStrip(depth * indent);
    StripsToAppend(NEWLINE, "", Spaces(depth * indent), "");
    assert "" + Spaces(depth * indent) == Spaces(depth * indent);
  }

  lemma SeparatorStrips()
    ensures StripsTo("," + NEWLINE, ",") && StripsTo(": ", ":")
  {
    PlainStrips(",");
    PlainStrips(":");
    NewlineStrips();
    StripsToAppend(",", ",", NEWLINE, "");
    SpacesStrip(1);
    StripsToAppend(":", ":", Spaces(1), "");
    assert ":" + Spaces(1) == ": ";
  }

  /** Without the whitespace outside its strings, the pretty text of any value is its compact text,
      whatever the indent and the depth. */
  lemma {:induction false} PrettyStripsToCompact(v: Value, depth: nat, indent: nat)
    requires PlainNumbers(v)
    ensures StripsTo(Pretty(v, depth, indent), Compact(v))
    decreases v, 1
  {
    match v
    case Array(elements) =>
      var inner, closing := PrettyElements(elements, depth + 1, indent, true), Closing(depth, elements == [], indent);
      PrettyElementsStrip(elements, depth + 1, indent, true);
      BracketsStrip("[", inner, CompactElements(elements), depth, indent, elements == [], "]");
    case Object(fields) =>
      var inner := PrettyFields(fields, depth + 1, indent, true);
      PrettyFieldsStrip(fields, depth + 1, indent, true);
      BracketsStrip("{", inner, CompactFields(fields), depth, indent, fields == [], "}");
    case _ => ScalarStrips(v);
  }

  lemma BracketsStrip(open: string, inner: string, text: string, depth: nat, indent: nat, empty: bool, close: string)
    requires open in ["[", "{"] && close in ["]", "}"] && StripsTo(inner, text)
    ensures StripsTo(open + inner + Closing(depth, empty, indent) + close, open + text + close)
  {
    var closing := Closing(depth, empty, indent);
    LineStrips(depth, indent, empty);
    PlainStrips(open);
    PlainStrips(close);
    StripsToAppend(open, open, inner, text);
    StripsToAppend(open + inner, open + text, closing, "");
    assert (open + text) + "" == open + text;
    StripsToAppend(open + inner + closing, open + text, close, close);
  }

  lemma {:induction false} PrettyElementsStrip(elements: seq<Value>, depth: nat, indent: nat, first: bool)
    requires forall e <- elements :: PlainNumbers(e)
    ensures StripsTo(PrettyElements(elements, depth, indent, first), CompactElements(elements))
    decreases elements, 0
  {
    if elements != [] {
      var line, pretty, text := Line(depth, indent, first), Pretty(elements[0], depth, indent), Compact(elements[0]);
      LineStrips(depth, indent, first);
      PrettyStripsToCompact(elements[0], depth, indent);
      StripsToAppend(line, "", pretty, text);
      assert "" + text == text;
      if |elements| > 1 {
        var rest, more := PrettyElements(elements[1..], depth, indent, false), CompactElements(elements[1..]);
        assert forall e <- elements[1..] :: e in elements;
        PrettyElementsStrip(elements[1..], depth, indent, false);
        SeparatorStrips();
        StripsToAppend("," + NEWLINE, ",", rest, more);
        StripsToAppend(line + pretty, text, "," + NEWLINE + rest, "," + more);
      } else {
        assert line + pretty + "" == line + pretty && text + "" == text;
      }
    }
  }

  lemma {:induction false} PrettyFieldStrips(f: Field, depth: nat, indent: nat, first: bool)
    requires PlainNumbers(f.value)
    ensures StripsTo(PrettyField(f, depth, indent, first), Quoted(f.key) + ":" + Compact(f.value))
    decreases f, 2
  {
    var line, name, pretty := Line(depth, indent, first), Quoted(f.key), Pretty(f.value, depth, indent);
    LineStrips(depth, indent, first);
    QuotedStrips(f.key);
    SeparatorStrips();
    PrettyStripsToCompact(f.value, depth, indent);
    StripsToAppend(line, "", name, name);
    assert "" + name == name;
    StripsToAppend(line + name, name, ": ", ":");
    StripsToAppend(line + name + ": ", name + ":", pretty, Compact(f.value));
  }

  lemma {:induction false} PrettyFieldsStrip(fields: Fields, depth: nat, indent: nat, first: bool)
    requires forall f <- fields :: PlainNumbers(f.value)
    ensures StripsTo(PrettyFields(fields, depth, indent, first), CompactFields(fields))
    decreases fields, 0
  {
    if fields != [] {
      var pretty, text := PrettyField(fields[0], depth, indent, first), Quoted(fields[0].key) + ":" + Compact(fields[0].value);
      PrettyFieldStrips(fields[0], depth, indent, first);
      if |fields| > 1 {
        var rest, more := PrettyFields(fields[1..], depth, indent, false), CompactFields(fields[1..]);
        assert forall f <- fields[1..] :: f in fields;
        PrettyFieldsStrip(fields[1..], depth, indent, false);
        SeparatorStrips();
        StripsToAppend("," + NEWLINE, ",", rest, more);
        StripsToAppend(pretty, text, "," + NEWLINE + rest, "," + more);
      } else {
        assert pretty + "" == pretty && text + "" == text;
      }
    }
  }

  /** What the two visitors write for the same callbacks: the pretty printer ends at the depth it started
      from, and its text without whitespace outside strings is the compact printer's. */
  lemma PrettyVisitorStripsToOstreamVisitor(v: Value, indent: nat)
    requires PlainNumbers(v)
    ensures var pretty := RunPretty(PrettyState("", 0, false), Callbacks(v), indent);
            pretty.depth == 0 && Strip(Outside, pretty.os) == RunOstream("", Callbacks(v))
  {
    PrettyWritesPretty(PrettyState("", 0, false), v, indent);
    OstreamWritesCompact("", v);
    PrettyStripsToCompact(v, 0, indent);
    EmptyPrefix(Pretty(v, 0, indent));
    EmptyPrefix(Compact(v));
  }

  // ---------- No two values share a text ----------

  /** The code words of two characters cannot be confused. */
  lemma EscapedCharPrefix(c: char, d: char, s: string, t: string)
    requires EscapedChar(c) + s == EscapedChar(d) + t
    ensures c == d && s == t
  {
    var a, b := EscapedChar(c), EscapedChar(d);
    assert (a + s)[0] == a[0] && (b + t)[0] == b[0];
    if |a| > 1 && |b| > 1 {
      assert (a + s)[1] == a[1] && (b + t)[1] == b[1];
      if |a| > 2 && |b| > 2 {
        assert (a + s)[4] == a[4] && (b + t)[4] == b[4] && (a + s)[5] == a[5] && (b + t)[5] == b[5];
        HexDigitInjective(c as int / 16, d as int / 16);
        HexDigitInjective(c as int % 16, d as int % 16);
      }
    }
    assert c == d;
    assert s == (a + s)[|a|..] && t == (b + t)[|b|..];
  }

  lemma HexDigitInjective(m: int, n: int)
    requires 0 <= m < 16 && 0 <= n < 16 && HexDigit(m) == HexDigit(n)
    ensures m == n
  {
    var digits := "0123456789ABCDEF";
    assert forall k | 0 <= k < 10 :: digits[k] == '0' + k as char;
    assert forall k | 10 <= k < 16 :: digits[k] == 'A' + (k - 10) as char;
  }

  lemma Head(a: string, b: string)
    ensures a != "" ==> (a + b)[0] == a[0]
  {
  }

  lemma Associates3(a: string, b: string, c: string, d: string)
    ensures a + b + c + d == a + (b + c + d)
  {
  }

  lemma EscapedStep(a: string, s: string)
    requires a != ""
    ensures Escaped(a) + ['"'] + s == EscapedChar(a[0]) + (Escaped(a[1..]) + ['"'] + s)
  {
    Associates3(EscapedChar(a[0]), Escaped(a[1..]), ['"'], s);
  }

  /** A literal ends where an unescaped quote comes first. */
  lemma EscapedHead(a: string, s: string)
    ensures Escaped(a) + ['"'] + s != ""
    ensures a == "" <==> (Escaped(a) + ['"'] + s)[0] == '"'
  {
    if a != "" {
      EscapedStep(a, s);
      Head(EscapedChar(a[0]), Escaped(a[1..]) + ['"'] + s);
    }
  }

  lemma {:induction false} EscapedPrefix(a: string, b: string, s: string, t: string)
    requires Escaped(a) + ['"'] + s == Escaped(b) + ['"'] + t
    ensures a == b && s == t
    decreases |a|
  {
    EscapedHead(a, s);
    EscapedHead(b, t);
    if a == "" {
      assert (Escaped(a) + ['"'] + s)[1..] == s && (Escaped(b) + ['"'] + t)[1..] == t;
    } else {
      var m, n := Escaped(a[1..]) + ['"'] + s, Escaped(b[1..]) + ['"'] + t;
      EscapedStep(a, s);
      EscapedStep(b, t);
      EscapedCharPrefix(a[0], b[0], m, n);
      EscapedPrefix(a[1..], b[1..], s, t);
      assert a == [a[0]] + a[1..] && b == [b[0]] + b[1..];
    }
  }

  lemma QuotedPrefix(a: string, b: string, s: string, t: string)
    requires Quoted(a) + s == Quoted(b) + t
    ensures a == b && s == t
  {
    var x, y := Quoted(a) + s, Quoted(b) + t;
    assert x[1..] == Escaped(a) + ['"'] + s && y[1..] == Escaped(b) + ['"'] + t;
    EscapedPrefix(a, b, s, t);
  }

  predicate IsNumberChar(c: char) {
    '0' <= c <= '9' || c in "-+.eE"
  }

  /** Section 6 of RFC 8259, as far as telling numbers from what surrounds them goes. */
  predicate IsNumberText(text: string) {
    text != "" && (text[0] == '-' || '0' <= text[0] <= '9') && forall c <- text :: IsNumberChar(c)
  }

  ghost predicate JsonNumbers(v: Value) {
    match v
    case Number(text) => IsNumberText(text)
    case Array(elements) => forall e <- elements :: JsonNumbers(e)
    case Object(fields) => forall f <- fields :: JsonNumbers(f.value)
    case _ => true
  }

  /** What can follow a value. */
  ghost predicate Closed(s: string) {
    s == "" || s[0] in ",]}"
  }

  ghost function NumberLength(s: string): (n: nat)
    ensures n <= |s|
  {
    if s == "" || !IsNumberChar(s[0]) then 0 else 1 + NumberLength(s[1..])
  }

  /** A number ends where its characters do. */
  lemma {:induction false} NumberEnds(a: string, s: string)
    requires Closed(s) && forall c <- a :: IsNumberChar(c)
    ensures NumberLength(a + s) == |a|
  {
    if a == "" {
      assert a + s == s;
    } else {
      assert a[0] in a && (forall c <- a[1..] :: c in a);
      assert (a + s)[0] == a[0] && (a + s)[1..] == a[1..] + s;
      NumberEnds(a[1..], s);
    }
  }

  lemma SameLength(a: string, b: string, s: string, t: string)
    requires a + s == b + t && |a| == |b|
    ensures a == b && s == t
  {
    assert a == (a + s)[..|a|] && b == (b + t)[..|b|] && s == (a + s)[|a|..] && t == (b + t)[|b|..];
  }

  lemma NumberPrefix(a: string, b: string, s: string, t: string)
    requires a + s == b + t && Closed(s) && Closed(t)
    requires (forall c <- a :: IsNumberChar(c)) && (forall c <- b :: IsNumberChar(c))
    ensures a == b && s == t
  {
    NumberEnds(a, s);
    NumberEnds(b, t);
    SameLength(a, b, s, t);
  }

  /** The kinds of value are told apart by the first character of their text. */
  lemma FirstChar(v: Value)
    requires JsonNumbers(v)
    ensures Compact(v) != ""
    ensures var c := Compact(v)[0];
            match v
            case Null => c == 'n'
            case Bool(b) => c == if b then 't' else 'f'
            case Number(_) => c == '-' || '0' <= c <= '9'
            case String(_) => c == '"'
            case Array(_) => c == '['
            case Object(_) => c == '{'
  {
  }

  /** What the first character of a value's text tells. */
  ghost function Kind(v: Value): nat {
    match v
    case Null => 0
    case Bool(b) => if b then 1 else 2
    case Number(_) => 3
    case String(_) => 4
    case Array(_) => 5
    case Object(_) => 6
  }

  lemma SameFirstChar(v: Value, w: Value, s: string, t: string)
    requires JsonNumbers(v) && JsonNumbers(w) && Compact(v) + s == Compact(w) + t
    ensures Kind(v) == Kind(w)
  {
    FirstChar(v);
    FirstChar(w);
    Head(Compact(v), s);
    Head(Compact(w), t);
  }

  /** A text in brackets, without the opening one. */
  lemma Inner(open: char, a: string, close: char, s: string)
    ensures ([open] + a + [close] + s)[1..] == a + [close] + s
  {
  }

  /** A compact text determines the value, and where it ends. */
  lemma {:induction false} CompactPrefix(v: Value, w: Value, s: string, t: string)
    requires JsonNumbers(v) && JsonNumbers(w) && Closed(s) && Closed(t)
    requires Compact(v) + s == Compact(w) + t
    ensures v == w && s == t
    decreases v, 1
  {
    SameFirstChar(v, w, s, t);
    match v
    case Number(text) => NumberPrefix(text, w.text, s, t);
    case String(a) => QuotedPrefix(a, w.s, s, t);
    case Array(elements) =>
      Inner('[', CompactElements(elements), ']', s);
      Inner('[', CompactElements(w.elements), ']', t);
      ElementsPrefix(elements, w.elements, s, t);
    case Object(fields) =>
      Inner('{', CompactFields(fields), '}', s);
      Inner('{', CompactFields(w.fields), '}', t);
      FieldsPrefix(fields, w.fields, s, t);
    case _ =>
      SameLength(Compact(v), Compact(w), s, t);
  }

  /** What follows the first element, up to and including the closing bracket and what comes after. */
  ghost function ElementsTail(elements: seq<Value>, s: string): string
    requires elements != []
  {
    (if |elements| == 1 then "" else "," + CompactElements(elements[1..])) + "]" + s
  }

  lemma ElementsText(elements: seq<Value>, s: string)
    requires forall e <- elements :: JsonNumbers(e)
    ensures var x := CompactElements(elements) + "]" + s;
            && x != "" && (elements == [] <==> x[0] == ']')
            && (elements == [] ==> x[1..] == s)
            && (elements != [] ==> x == Compact(elements[0]) + ElementsTail(elements, s) && Closed(ElementsTail(elements, s)))
  {
    var x := CompactElements(elements) + "]" + s;
    if elements != [] {
      var rest := if |elements| == 1 then "" else "," + CompactElements(elements[1..]);
      Associates3(Compact(elements[0]), rest, "]", s);
      FirstChar(elements[0]);
      Head(Compact(elements[0]), rest + "]" + s);
    }
  }

  lemma ElementsTailText(elements: seq<Value>, s: string)
    requires elements != []
    ensures |elements| == 1 <==> ElementsTail(elements, s)[0] == ']'
    ensures |elements| == 1 ==> ElementsTail(elements, s)[1..] == s
    ensures |elements| != 1 ==> ElementsTail(elements, s)[1..] == CompactElements(elements[1..]) + "]" + s
  {
    if |elements| != 1 {
      Inner(',', CompactElements(elements[1..]), ']', s);
    }
  }

  lemma {:induction false} ElementsPrefix(a: seq<Value>, b: seq<Value>, s: string, t: string)
    requires (forall e <- a :: JsonNumbers(e)) && (forall e <- b :: JsonNumbers(e))
    requires CompactElements(a) + "]" + s == CompactElements(b) + "]" + t
    ensures a == b && s == t
    decreases a, 0
  {
    ElementsText(a, s);
    ElementsText(b, t);
    if a != [] {
      CompactPrefix(a[0], b[0], ElementsTail(a, s), ElementsTail(b, t));
      ElementsTailText(a, s);
      ElementsTailText(b, t);
      if |a| > 1 {
        assert (forall e <- a[1..] :: e in a) && (forall e <- b[1..] :: e in b);
        ElementsPrefix(a[1..], b[1..], s, t);
        assert a == [a[0]] + a[1..] && b == [b[0]] + b[1..];
      }
    }
  }

  ghost function FieldsTail(fields: Fields, s: string): string
    requires fields != []
  {
    (if |fields| == 1 then "" else "," + CompactFields(fields[1..])) + "}" + s
  }

  lemma FieldsText(fields: Fields, s: string)
    ensures var x := CompactFields(fields) + "}" + s;
            && x != "" && (fields == [] <==> x[0] == '}')
            && (fields == [] ==> x[1..] == s)
            && (fields != [] ==> x == Quoted(fields[0].key) + (":" + (Compact(fields[0].value) + FieldsTail(fields, s))) && Closed(FieldsTail(fields, s)))
  {
    var x := CompactFields(fields) + "}" + s;
    if fields != [] {
      var rest := if |fields| == 1 then "" else "," + CompactFields(fields[1..]);
      FieldAssociates(Quoted(fields[0].key), Compact(fields[0].value), rest, s);
      Head(Quoted(fields[0].key), ":" + (Compact(fields[0].value) + FieldsTail(fields, s)));
    }
  }

  lemma FieldAssociates(name: string, value: string, rest: string, s: string)
    ensures name + ":" + value + rest + "}" + s == name + (":" + (value + (rest + "}" + s)))
  {
  }

  lemma FieldsTailText(fields: Fields, s: string)
    requires fields != []
    ensures |fields| == 1 <==> FieldsTail(fields, s)[0] == '}'
    ensures |fields| == 1 ==> FieldsTail(fields, s)[1..] == s
    ensures |fields| != 1 ==> FieldsTail(fields, s)[1..] == CompactFields(fields[1..]) + "}" + s
  {
    if |fields| != 1 {
      Inner(',', CompactFields(fields[1..]), '}', s);
    }
  }

  lemma FirstFieldPrefix(a: Fields, b: Fields, s: string, t: string)
    requires CompactFields(a) + "}" + s == CompactFields(b) + "}" + t
    ensures a == [] <==> b == []
    ensures if a == [] then s == t
            else a[0].key == b[0].key && Closed(FieldsTail(a, s)) && Closed(FieldsTail(b, t))
                 && Compact(a[0].value) + FieldsTail(a, s) == Compact(b[0].value) + FieldsTail(b, t)
  {
    FieldsText(a, s);
    FieldsText(b, t);
    if a != [] {
      var p, q := Compact(a[0].value) + FieldsTail(a, s), Compact(b[0].value) + FieldsTail(b, t);
      QuotedPrefix(a[0].key, b[0].key, ":" + p, ":" + q);
      SameLength(":", ":", p, q);
    }
  }

  lemma {:induction false} FieldsPrefix(a: Fields, b: Fields, s: string, t: string)
    requires (forall f <- a :: JsonNumbers(f.value)) && (forall f <- b :: JsonNumbers(f.value))
    requires CompactFields(a) + "}" + s == CompactFields(b) + "}" + t
    ensures a == b && s == t
    decreases a, 0
  {
    FirstFieldPrefix(a, b, s, t);
    if a != [] {
      CompactPrefix(a[0].value, b[0].value, FieldsTail(a, s), FieldsTail(b, t));
      FieldsTailText(a, s);
      FieldsTailText(b, t);
      if |a| > 1 {
        assert (forall f <- a[1..] :: f in a) && (forall f <- b[1..] :: f in b);
        FieldsPrefix(a[1..], b[1..], s, t);
        assert a == [a[0]] + a[1..] && b == [b[0]] + b[1..];
      }
    }
  }

  /** Different values have different compact texts. */
  lemma CompactIsInjective(v: Value, w: Value)
    requires JsonNumbers(v) && JsonNumbers(w) && Compact(v) == Compact(w)
    ensures v == w
  {
    assert Compact(v) + "" == Compact(v) && Compact(w) + "" == Compact(w);
    CompactPrefix(v, w, "", "");
  }

  lemma {:induction false} JsonNumbersArePlain(v: Value)
    requires JsonNumbers(v)
    ensures PlainNumbers(v)
    decreases v
  {
    match v
    case Array(elements) =>
      forall e | e in elements {
        JsonNumbersArePlain(e);
      }
    case Object(fields) =>
      forall f | f in fields {
        JsonNumbersArePlain(f.value);
      }
    case _ =>
  }

  /** Different values have different pretty texts, even at different indents. */
  lemma PrettyIsInjective(v: Value, w: Value, indent: nat, other: nat)
    requires JsonNumbers(v) && JsonNumbers(w) && Pretty(v, 0, indent) == Pretty(w, 0, other)
    ensures v == w
  {
    JsonNumbersArePlain(v);
    JsonNumbersArePlain(w);
    PrettyStripsToCompact(v, 0, indent);
    PrettyStripsToCompact(w, 0, other);
    CompactIsInjective(v, w);
  }
}
