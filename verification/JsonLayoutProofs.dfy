/** The pretty text as lines: which lines a value has, how deep each is, and that the text is these lines, each but the
    first on a line of its own behind its indentation. */
module JsonLayoutProofs {
  import opened Json
  import opened JsonVisit
  import opened JsonPrintProofs
  import opened Sequences

  // ---------- The lines of a value ----------

  /** A line without its indentation, and how many levels it is below the first. */
  datatype TextLine = TextLine(level: nat, text: string)

  type Lines = seq<TextLine>

  /** An empty composite, like a scalar, is one line; another has a line for each of its brackets, and between them
      the lines of its elements or fields, one level down, with commas behind all but the last. */
  ghost function LinesOf(v: Value): (lines: Lines)
    ensures lines != [] && lines[0].level == 0
    decreases v, 1
  {
    match v
    case Array(elements) =>
      if elements == [] then [TextLine(0, "[]")]
      else [TextLine(0, "[")] + Deeper(ElementLines(elements)) + [TextLine(0, "]")]
    case Object(fields) =>
      if fields == [] then [TextLine(0, "{}")]
      else [TextLine(0, "{")] + Deeper(FieldLines(fields)) + [TextLine(0, "}")]
    case _ => [TextLine(0, ScalarText(v))]
  }

  ghost function ElementLines(elements: seq<Value>): (lines: Lines)
    ensures elements != [] ==> lines != []
    decreases elements, 0
  {
    if elements == [] then []
    else if |elements| == 1 then LinesOf(elements[0])
    else WithComma(LinesOf(elements[0])) + ElementLines(elements[1..])
  }

  ghost function FieldLines(fields: Fields): (lines: Lines)
    ensures fields != [] ==> lines != []
    decreases fields, 0
  {
    if fields == [] then []
    else
      var lines := Named(fields[0].key, LinesOf(fields[0].value));
      if |fields| == 1 then lines else WithComma(lines) + FieldLines(fields[1..])
  }

  ghost function Deeper(lines: Lines): Lines {
    seq(|lines|, i requires 0 <= i < |lines| => TextLine(lines[i].level + 1, lines[i].text))
  }

  ghost function WithComma(lines: Lines): (r: Lines)
    requires lines != []
    ensures r != [] && r[0].level == lines[0].level
  {
    var last := lines[|lines| - 1];
    lines[..|lines| - 1] + [TextLine(last.level, last.text + ",")]
  }

  ghost function Named(key: string, lines: Lines): (r: Lines)
    requires lines != []
    ensures r != [] && r[0].level == lines[0].level
  {
    [TextLine(lines[0].level, Quoted(key) + ": " + lines[0].text)] + lines[1..]
  }

  // ---------- Their text ----------

  ghost function Indentation(columns: nat): string {
    seq(columns, i => ' ')
  }

  /** Lines below the first, which is `depth` levels deep. */
  ghost function Below(lines: Lines, depth: nat, indent: nat): string {
    if lines == [] then ""
    else [10 as char] + Indentation((depth + lines[0].level) * indent) + lines[0].text + Below(lines[1..], depth, indent)
  }

  ghost function Layout(lines: Lines, depth: nat, indent: nat): string
    requires lines != []
  {
    lines[0].text + Below(lines[1..], depth, indent)
  }

  lemma {:induction false} BelowAppend(a: Lines, b: Lines, depth: nat, indent: nat)
    ensures Below(a + b, depth, indent) == Below(a, depth, indent) + Below(b, depth, indent)
    decreases |a|
  {
    if a == [] {
      EmptyPrefix(b);
      EmptyPrefix(Below(b, depth, indent));
    } else {
      assert (a + b)[0] == a[0] && (a + b)[1..] == a[1..] + b;
      BelowAppend(a[1..], b, depth, indent);
      Associates([10 as char] + Indentation((depth + a[0].level) * indent) + a[0].text, Below(a[1..], depth, indent), Below(b, depth, indent));
    }
  }

  lemma {:induction false} BelowDeeper(lines: Lines, depth: nat, indent: nat)
    ensures Below(Deeper(lines), depth, indent) == Below(lines, depth + 1, indent)
    decreases |lines|
  {
    if lines != [] {
      assert Deeper(lines)[1..] == Deeper(lines[1..]);
      BelowDeeper(lines[1..], depth, indent);
      assert depth + (lines[0].level + 1) == depth + 1 + lines[0].level;
    }
  }

  /** All lines below another. */
  lemma BelowFirst(lines: Lines, depth: nat, indent: nat)
    requires lines != [] && lines[0].level == 0
    ensures Below(lines, depth, indent) == Line(depth, indent, true) + Layout(lines, depth, indent)
  {
    assert Line(depth, indent, true) == [10 as char] + Indentation(depth * indent);
    Associates([10 as char] + Indentation(depth * indent), lines[0].text, Below(lines[1..], depth, indent));
  }

  lemma LayoutNamed(key: string, lines: Lines, depth: nat, indent: nat)
    requires lines != []
    ensures Layout(Named(key, lines), depth, indent) == Quoted(key) + ": " + Layout(lines, depth, indent)
  {
    assert Named(key, lines)[1..] == lines[1..];
    Associates(Quoted(key) + ": ", lines[0].text, Below(lines[1..], depth, indent));
  }

  lemma BelowOne(line: TextLine, depth: nat, indent: nat)
    ensures Below([line], depth, indent) == [10 as char] + Indentation((depth + line.level) * indent) + line.text
  {
    assert [line][1..] == [];
  }

  lemma CommaBehindFirst(lines: Lines)
    requires |lines| > 1
    ensures WithComma(lines)[0] == lines[0] && WithComma(lines)[1..] == WithComma(lines[1..])
  {
  }

  lemma BelowCommaOne(line: TextLine, depth: nat, indent: nat)
    ensures Below(WithComma([line]), depth, indent) == Below([line], depth, indent) + ","
  {
    assert WithComma([line]) == [TextLine(line.level, line.text + ",")];
    BelowOne(line, depth, indent);
    BelowOne(TextLine(line.level, line.text + ","), depth, indent);
    Associates([10 as char] + Indentation((depth + line.level) * indent), line.text, ",");
  }

  lemma BelowHead(lines: Lines, depth: nat, indent: nat)
    requires lines != []
    ensures Below(lines, depth, indent) == Below([lines[0]], depth, indent) + Below(lines[1..], depth, indent)
  {
    BelowOne(lines[0], depth, indent);
  }

  lemma {:induction false} BelowComma(lines: Lines, depth: nat, indent: nat)
    requires lines != []
    ensures Below(WithComma(lines), depth, indent) == Below(lines, depth, indent) + ","
    decreases |lines|
  {
    if |lines| == 1 {
      assert lines == [lines[0]];
      BelowCommaOne(lines[0], depth, indent);
    } else {
      CommaBehindFirst(lines);
      BelowComma(lines[1..], depth, indent);
      BelowHead(lines, depth, indent);
      BelowHead(WithComma(lines), depth, indent);
      Associates(Below([lines[0]], depth, indent), Below(lines[1..], depth, indent), ",");
    }
  }

  lemma LayoutComma(lines: Lines, depth: nat, indent: nat)
    requires lines != []
    ensures Layout(WithComma(lines), depth, indent) == Layout(lines, depth, indent) + ","
  {
    if |lines| == 1 {
      assert WithComma(lines)[1..] == [] && lines[1..] == [];
    } else {
      CommaBehindFirst(lines);
      BelowComma(lines[1..], depth, indent);
      Associates(lines[0].text, Below(lines[1..], depth, indent), ",");
    }
  }

  // ---------- The pretty text is these lines ----------

  lemma FirstOnNewLine(depth: nat, indent: nat)
    ensures Line(depth, indent, true) == NEWLINE + Line(depth, indent, false)
  {
  }

  lemma ElementsOnNewLine(elements: seq<Value>, depth: nat, indent: nat)
    requires elements != []
    ensures PrettyElements(elements, depth, indent, true) == NEWLINE + PrettyElements(elements, depth, indent, false)
  {
    FirstOnNewLine(depth, indent);
    var rest := if |elements| == 1 then "" else "," + NEWLINE + PrettyElements(elements[1..], depth, indent, false);
    NewLineAssociates(NEWLINE, Line(depth, indent, false), Pretty(elements[0], depth, indent), rest);
  }

  lemma NewLineAssociates(n: string, a: string, b: string, c: string)
    ensures (n + a) + b + c == n + (a + b + c)
  {
  }

  lemma SeparatorAssociates(line: string, text: string, n: string, rest: string)
    ensures line + text + ("," + n + rest) == line + (text + ",") + (n + rest)
  {
  }

  lemma {:induction false} ElementsLaidOut(elements: seq<Value>, depth: nat, indent: nat)
    ensures PrettyElements(elements, depth, indent, true) == Below(ElementLines(elements), depth, indent)
    decreases elements, 0
  {
    if elements != [] {
      var lines, line := LinesOf(elements[0]), Line(depth, indent, true);
      LaidOut(elements[0], depth, indent);
      BelowFirst(lines, depth, indent);
      if |elements| == 1 {
        assert line + Pretty(elements[0], depth, indent) + "" == line + Pretty(elements[0], depth, indent);
      } else {
        ElementsLaidOut(elements[1..], depth, indent);
        ElementsOnNewLine(elements[1..], depth, indent);
        LayoutComma(lines, depth, indent);
        BelowFirst(WithComma(lines), depth, indent);
        BelowAppend(WithComma(lines), ElementLines(elements[1..]), depth, indent);
        SeparatorAssociates(line, Pretty(elements[0], depth, indent), NEWLINE, PrettyElements(elements[1..], depth, indent, false));
      }
    }
  }

  lemma FieldsOnNewLine(fields: Fields, depth: nat, indent: nat)
    requires fields != []
    ensures PrettyFields(fields, depth, indent, true) == NEWLINE + PrettyFields(fields, depth, indent, false)
  {
    FirstOnNewLine(depth, indent);
    var rest := if |fields| == 1 then "" else "," + NEWLINE + PrettyFields(fields[1..], depth, indent, false);
    var text := Quoted(fields[0].key) + ": " + Pretty(fields[0].value, depth, indent);
    FieldAssociates3(Line(depth, indent, true), Quoted(fields[0].key), Pretty(fields[0].value, depth, indent));
    FieldAssociates3(Line(depth, indent, false), Quoted(fields[0].key), Pretty(fields[0].value, depth, indent));
    NewLineAssociates(NEWLINE, Line(depth, indent, false), text, rest);
  }

  lemma FieldAssociates3(line: string, name: string, text: string)
    ensures line + name + ": " + text == line + (name + ": " + text)
  {
  }

  lemma FieldLaidOut(f: Field, depth: nat, indent: nat)
    requires Pretty(f.value, depth, indent) == Layout(LinesOf(f.value), depth, indent)
    ensures PrettyField(f, depth, indent, true) == Line(depth, indent, true) + Layout(Named(f.key, LinesOf(f.value)), depth, indent)
  {
    LayoutNamed(f.key, LinesOf(f.value), depth, indent);
    FieldAssociates3(Line(depth, indent, true), Quoted(f.key), Pretty(f.value, depth, indent));
  }

  lemma {:induction false} FieldsLaidOut(fields: Fields, depth: nat, indent: nat)
    ensures PrettyFields(fields, depth, indent, true) == Below(FieldLines(fields), depth, indent)
    decreases fields, 0
  {
    if fields != [] {
      var f, line := fields[0], Line(depth, indent, true);
      var lines := Named(f.key, LinesOf(f.value));
      LaidOut(f.value, depth, indent);
      FieldLaidOut(f, depth, indent);
      BelowFirst(lines, depth, indent);
      if |fields| == 1 {
        assert PrettyField(f, depth, indent, true) + "" == PrettyField(f, depth, indent, true);
      } else {
        FieldsLaidOut(fields[1..], depth, indent);
        FieldsOnNewLine(fields[1..], depth, indent);
        LayoutComma(lines, depth, indent);
        BelowFirst(WithComma(lines), depth, indent);
        BelowAppend(WithComma(lines), FieldLines(fields[1..]), depth, indent);
        SeparatorAssociates(line, Layout(lines, depth, indent), NEWLINE, PrettyFields(fields[1..], depth, indent, false));
      }
    }
  }

  lemma BracketsLaidOut(open: string, inner: Lines, close: string, depth: nat, indent: nat)
    ensures Layout([TextLine(0, open)] + Deeper(inner) + [TextLine(0, close)], depth, indent) ==
            open + Below(inner, depth + 1, indent) + Closing(depth, false, indent) + close
  {
    var lines := [TextLine(0, open)] + Deeper(inner) + [TextLine(0, close)];
    assert lines[1..] == Deeper(inner) + [TextLine(0, close)];
    BelowAppend(Deeper(inner), [TextLine(0, close)], depth, indent);
    BelowDeeper(inner, depth, indent);
    BelowOne(TextLine(0, close), depth, indent);
    assert Closing(depth, false, indent) == [10 as char] + Indentation((depth + 0) * indent);
    BracketsAssociate(open, Below(inner, depth + 1, indent), Closing(depth, false, indent), close);
  }

  lemma BracketsAssociate(open: string, inner: string, closing: string, close: string)
    ensures open + (inner + (closing + close)) == open + inner + closing + close
  {
  }

  /** The pretty text of any value, at any depth and indent, is the layout of its lines. */
  lemma {:induction false} LaidOut(v: Value, depth: nat, indent: nat)
    ensures Pretty(v, depth, indent) == Layout(LinesOf(v), depth, indent)
    decreases v, 1
  {
    match v
    case Array(elements) =>
      if elements == [] {
        OneLine("[]", depth, indent);
      } else {
        ElementsLaidOut(elements, depth + 1, indent);
        BracketsLaidOut("[", ElementLines(elements), "]", depth, indent);
      }
    case Object(fields) =>
      if fields == [] {
        OneLine("{}", depth, indent);
      } else {
        FieldsLaidOut(fields, depth + 1, indent);
        BracketsLaidOut("{", FieldLines(fields), "}", depth, indent);
      }
    case _ => OneLine(ScalarText(v), depth, indent);
  }

  lemma OneLine(text: string, depth: nat, indent: nat)
    ensures Layout([TextLine(0, text)], depth, indent) == text
  {
    assert [TextLine(0, text)][1..] == [];
  }

  // ---------- The lines are lines ----------

  /** Neither empty nor indented itself, and without a line feed. */
  ghost predicate IsLine(text: string) {
    text != "" && text[0] != ' ' && 10 as char !in text
  }

  ghost predicate AreLines(lines: Lines) {
    forall l <- lines :: IsLine(l.text)
  }

  lemma CommaIsLine(lines: Lines)
    requires lines != [] && AreLines(lines)
    ensures AreLines(WithComma(lines))
  {
    var n := |lines| - 1;
    assert lines[n] in lines && forall l <- lines[..n] :: l in lines;
  }

  lemma DeeperAreLines(lines: Lines)
    requires AreLines(lines)
    ensures AreLines(Deeper(lines))
  {
    assert forall i | 0 <= i < |lines| :: lines[i] in lines;
  }

  lemma {:induction false} EscapedIsLine(s: string)
    ensures 10 as char !in Escaped(s)
  {
    if s != "" {
      EscapedIsLine(s[1..]);
      EscapedCharIsLine(s[0]);
    }
  }

  lemma EscapedCharIsLine(c: char)
    ensures 10 as char !in EscapedChar(c)
  {
    if c < ' ' {
      HexDigitIsLine(c as int / 16);
      HexDigitIsLine(c as int % 16);
    }
  }

  lemma HexDigitIsLine(n: int)
    requires 0 <= n < 16
    ensures HexDigit(n) != 10 as char
  {
    assert HexDigit(n) in "0123456789ABCDEF";
  }

  lemma QuotedIsLine(s: string)
    ensures IsLine(Quoted(s))
  {
    EscapedIsLine(s);
  }

  lemma NamedAreLines(key: string, lines: Lines)
    requires lines != [] && AreLines(lines)
    ensures AreLines(Named(key, lines))
  {
    QuotedIsLine(key);
    assert lines[0] in lines && forall l <- lines[1..] :: l in lines;
  }

  lemma {:induction false} ElementLinesAreLines(elements: seq<Value>)
    requires forall e <- elements :: JsonNumbers(e)
    ensures AreLines(ElementLines(elements))
    decreases elements, 0
  {
    if elements != [] {
      LinesAreLines(elements[0]);
      CommaIsLine(LinesOf(elements[0]));
      assert forall e <- elements[1..] :: e in elements;
      ElementLinesAreLines(elements[1..]);
    }
  }

  lemma {:induction false} FieldLinesAreLines(fields: Fields)
    requires forall f <- fields :: JsonNumbers(f.value)
    ensures AreLines(FieldLines(fields))
    decreases fields, 0
  {
    if fields != [] {
      LinesAreLines(fields[0].value);
      NamedAreLines(fields[0].key, LinesOf(fields[0].value));
      CommaIsLine(Named(fields[0].key, LinesOf(fields[0].value)));
      assert forall f <- fields[1..] :: f in fields;
      FieldLinesAreLines(fields[1..]);
    }
  }

  lemma BracketsAreLines(open: string, inner: Lines, close: string)
    requires AreLines(inner) && IsLine(open) && IsLine(close)
    ensures AreLines([TextLine(0, open)] + Deeper(inner) + [TextLine(0, close)])
  {
    DeeperAreLines(inner);
  }

  lemma ScalarIsLine(v: Value)
    requires JsonNumbers(v) && !v.IsComposite()
    ensures IsLine(ScalarText(v))
  {
    if v.String? {
      QuotedIsLine(v.s);
    }
  }

  /** So the indentation of each line is what stands in front of its first character that is no space. */
  lemma {:induction false} LinesAreLines(v: Value)
    requires JsonNumbers(v)
    ensures AreLines(LinesOf(v))
    decreases v, 1
  {
    match v
    case Array(elements) =>
      ElementLinesAreLines(elements);
      BracketsAreLines("[", ElementLines(elements), "]");
    case Object(fields) =>
      FieldLinesAreLines(fields);
      BracketsAreLines("{", FieldLines(fields), "}");
    case _ => ScalarIsLine(v);
  }
}
