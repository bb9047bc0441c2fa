/** A reader of JSON texts after RFC 8259, which knows nothing of the printers, and that it reads back what they print. */
module JsonReadingProofs {
  import opened Results
  import opened Json
  import opened JsonVisit
  import opened JsonPrintProofs
  import opened Sequences

  // ---------- String literals (section 7) ----------

  /** The character that one letter behind a backslash stands for. */
  ghost function Meant(letter: char): Option<char> {
    match letter
    case '"' => Some('"')
    case '\\' => Some('\\')
    case '/' => Some('/')
    case 'b' => Some(8 as char)
    case 'f' => Some(12 as char)
    case 'n' => Some(10 as char)
    case 'r' => Some(13 as char)
    case 't' => Some(9 as char)
    case _ => None
  }

  ghost function DigitValue(c: char): Option<nat> {
    if '0' <= c <= '9' then Some((c - '0') as nat)
    else if 'A' <= c <= 'F' then Some((c - 'A') as nat + 10)
    else if 'a' <= c <= 'f' then Some((c - 'a') as nat + 10)
    else None
  }

  /** Four hexadecimal digits of a code point that is a character. */
  ghost function CodePoint(s: string): Option<char>
    requires |s| == 4
  {
    if exists i | 0 <= i < 4 :: DigitValue(s[i]) == None then None
    else
      var n := DigitValue(s[0]).value * 4096 + DigitValue(s[1]).value * 256 + DigitValue(s[2]).value * 16 + DigitValue(s[3]).value;
      if 0xD800 <= n < 0xE000 || n >= 0x1_0000 then None else Some(n as char)
  }

  /** The text of a literal whose opening quote has been read, and what is behind its closing one. */
  ghost function ReadLiteral(s: string): (r: Option<(string, string)>)
    ensures r.Some? ==> |r.value.1| < |s|
    decreases |s|
  {
    if s == "" then None
    else if s[0] == '"' then Some(("", s[1..]))
    else if s[0] == '\\' then
      if |s| >= 2 && Meant(s[1]).Some? then WithChar(Meant(s[1]).value, ReadLiteral(s[2..]))
      else if |s| >= 6 && s[1] == 'u' && CodePoint(s[2..6]).Some? then WithChar(CodePoint(s[2..6]).value, ReadLiteral(s[6..]))
      else None
    else if s[0] as int < 0x20 then None
    else WithChar(s[0], ReadLiteral(s[1..]))
  }

  ghost function WithChar(c: char, r: Option<(string, string)>): Option<(string, string)> {
    if r.Some? then Some(([c] + r.value.0, r.value.1)) else None
  }

  // ---------- Values (sections 3 to 6) ----------

  /** The value at the front of a text, and what is behind it. Numbers are kept as their texts. */
  ghost function ReadValue(s: string): (r: Option<(Value, string)>)
    ensures r.Some? ==> |r.value.1| < |s|
    decreases |s|, 1
  {
    if s == "" then None
    else
      match s[0]
      case 'n' => if "null" <= s then Some((Null, s[4..])) else None
      case 't' => if "true" <= s then Some((Bool(true), s[4..])) else None
      case 'f' => if "false" <= s then Some((Bool(false), s[5..])) else None
      case '"' =>
        var r := ReadLiteral(s[1..]);
        if r.Some? then Some((String(r.value.0), r.value.1)) else None
      case '[' =>
        if StartsWith(s[1..], ']') then Some((Array([]), s[2..]))
        else
          var r := ReadElements(s[1..]);
          if r.Some? then Some((Array(r.value.0), r.value.1)) else None
      case '{' =>
        if StartsWith(s[1..], '}') then Some((Object([]), s[2..]))
        else
          var r := ReadFields(s[1..]);
          if r.Some? then Some((Object(r.value.0), r.value.1)) else None
      case _ =>
        if s[0] == '-' || '0' <= s[0] <= '9' then Some((Number(s[..NumberLength(s)]), s[NumberLength(s)..])) else None
  }

  predicate StartsWith(s: string, c: char) {
    s != "" && s[0] == c
  }

  /** The elements of an array up to its closing bracket; there is one at least. */
  ghost function ReadElements(s: string): (r: Option<(seq<Value>, string)>)
    ensures r.Some? ==> |r.value.1| < |s|
    decreases |s|, 2
  {
    var first := ReadValue(s);
    if first == None then None
    else
      var (v, rest) := first.value;
      if StartsWith(rest, ']') then Some(([v], rest[1..]))
      else if StartsWith(rest, ',') then
        var more := ReadElements(rest[1..]);
        if more.Some? then Some(([v] + more.value.0, more.value.1)) else None
      else None
  }

  ghost function ReadField(s: string): (r: Option<(Field, string)>)
    ensures r.Some? ==> |r.value.1| < |s|
    decreases |s|, 2
  {
    var name := if StartsWith(s, '"') then ReadLiteral(s[1..]) else None;
    if name == None || !StartsWith(name.value.1, ':') then None
    else
      var value := ReadValue(name.value.1[1..]);
      if value.Some? then Some((Field(name.value.0, value.value.0), value.value.1)) else None
  }

  ghost function ReadFields(s: string): (r: Option<(Fields, string)>)
    ensures r.Some? ==> |r.value.1| < |s|
    decreases |s|, 3
  {
    var first := ReadField(s);
    if first == None then None
    else
      var (f, rest) := first.value;
      if StartsWith(rest, '}') then Some(([f], rest[1..]))
      else if StartsWith(rest, ',') then
        var more := ReadFields(rest[1..]);
        if more.Some? then Some(([f] + more.value.0, more.value.1)) else None
      else None
  }

  /** A text that is one value and nothing else. */
  ghost function Read(text: string): Option<Value> {
    var r := ReadValue(text);
    if r.Some? && r.value.1 == "" then Some(r.value.0) else None
  }

  // ---------- What was escaped is read back ----------

  lemma HexDigitValue(n: int)
    requires 0 <= n < 16
    ensures DigitValue(HexDigit(n)) == Some(n)
  {
    var digits := "0123456789ABCDEF";
    assert forall k | 0 <= k < 10 :: digits[k] == '0' + k as char;
    assert forall k | 10 <= k < 16 :: digits[k] == 'A' + (k - 10) as char;
  }

  lemma ControlCodePoint(c: char)
    requires c < ' '
    ensures CodePoint(['0', '0', HexDigit(c as int / 16), HexDigit(c as int % 16)]) == Some(c)
  {
    HexDigitValue(c as int / 16);
    HexDigitValue(c as int % 16);
    assert DigitValue('0') == Some(0);
    assert c as int == c as int / 16 * 16 + c as int % 16;
  }

  lemma ReadsPair(letter: char, rest: string)
    requires Meant(letter).Some?
    ensures ReadLiteral(['\\', letter] + rest) == WithChar(Meant(letter).value, ReadLiteral(rest))
  {
    assert (['\\', letter] + rest)[2..] == rest;
  }

  lemma ReadsCodePoint(digits: string, rest: string)
    requires |digits| == 4 && CodePoint(digits).Some?
    ensures ReadLiteral(['\\', 'u'] + digits + rest) == WithChar(CodePoint(digits).value, ReadLiteral(rest))
  {
    var s := ['\\', 'u'] + digits + rest;
    assert s[2..6] == digits && s[6..] == rest && Meant('u') == None;
  }

  lemma ReadsPlain(c: char, rest: string)
    requires c != '"' && c != '\\' && c as int >= 0x20
    ensures ReadLiteral([c] + rest) == WithChar(c, ReadLiteral(rest))
  {
    assert ([c] + rest)[1..] == rest;
  }

  lemma ReadsControl(c: char, rest: string)
    requires c < ' '
    ensures ReadLiteral(['\\', 'u', '0', '0', HexDigit(c as int / 16), HexDigit(c as int % 16)] + rest) == WithChar(c, ReadLiteral(rest))
  {
    var digits := ['0', '0', HexDigit(c as int / 16), HexDigit(c as int % 16)];
    ControlCodePoint(c);
    ReadsCodePoint(digits, rest);
    assert ['\\', 'u'] + digits == ['\\', 'u', '0', '0', HexDigit(c as int / 16), HexDigit(c as int % 16)];
  }

  lemma EscapedPlain(c: char)
    requires |EscapedChar(c)| == 1
    ensures EscapedChar(c) == [c] && c != '"' && c != '\\' && c as int >= 0x20
  {
  }

  lemma EscapedPair(c: char)
    requires |EscapedChar(c)| == 2
    ensures EscapedChar(c)[0] == '\\' && Meant(EscapedChar(c)[1]) == Some(c)
  {
  }

  lemma EscapedControl(c: char)
    requires |EscapedChar(c)| > 2
    ensures c < ' ' && EscapedChar(c) == ['\\', 'u', '0', '0', HexDigit(c as int / 16), HexDigit(c as int % 16)]
  {
  }

  lemma PairOf(e: string)
    requires |e| == 2
    ensures e == [e[0], e[1]]
  {
  }

  lemma ReadsEscapedChar(c: char, rest: string)
    ensures ReadLiteral(EscapedChar(c) + rest) == WithChar(c, ReadLiteral(rest))
  {
    var e := EscapedChar(c);
    if |e| == 1 {
      EscapedPlain(c);
      ReadsPlain(c, rest);
    } else if |e| == 2 {
      EscapedPair(c);
      ReadsPair(e[1], rest);
      PairOf(e);
    } else {
      EscapedControl(c);
      ReadsControl(c, rest);
    }
  }

  /** Whatever the string, its escaped text and a closing quote are read as the string. */
  lemma {:induction false} ReadsEscaped(s: string, rest: string)
    ensures ReadLiteral(Escaped(s) + ("\"" + rest)) == Some((s, rest))
    decreases |s|
  {
    if s == "" {
      EmptyPrefix("\"" + rest);
      assert ("\"" + rest)[1..] == rest;
    } else {
      ReadsEscaped(s[1..], rest);
      ReadsEscapedChar(s[0], Escaped(s[1..]) + ("\"" + rest));
      Associates(EscapedChar(s[0]), Escaped(s[1..]), "\"" + rest);
      HeadTail(s);
    }
  }

  lemma ReadsQuoted(s: string, rest: string)
    ensures (Quoted(s) + rest)[0] == '"' && ReadLiteral((Quoted(s) + rest)[1..]) == Some((s, rest))
  {
    ReadsEscaped(s, rest);
    assert (Quoted(s) + rest)[1..] == Escaped(s) + ("\"" + rest);
  }

  // ---------- What was printed is read back ----------

  lemma ReadsWord(word: string, v: Value, s: string)
    requires (word == "null" && v == Null) || (word == "true" && v == Bool(true)) || (word == "false" && v == Bool(false))
    ensures ReadValue(word + s) == Some((v, s))
  {
    Parts(word, s);
    assert (word + s)[0] == word[0];
  }

  lemma ReadsNumber(text: string, s: string)
    requires IsNumberText(text) && Closed(s)
    ensures ReadValue(text + s) == Some((Number(text), s))
  {
    NumberEnds(text, s);
    Parts(text, s);
    assert (text + s)[0] == text[0];
  }

  lemma ReadsScalar(v: Value, s: string)
    requires JsonNumbers(v) && Closed(s) && !v.IsComposite()
    ensures ReadValue(Compact(v) + s) == Some((v, s))
  {
    match v
    case Null => ReadsWord("null", v, s);
    case Bool(b) => ReadsWord(if b then "true" else "false", v, s);
    case Number(text) => ReadsNumber(text, s);
    case String(a) => ReadsQuoted(a, s);
  }

  lemma {:induction false} ReadsCompact(v: Value, s: string)
    requires JsonNumbers(v) && Closed(s)
    ensures ReadValue(Compact(v) + s) == Some((v, s))
    decreases v, 1
  {
    match v
    case Array(elements) =>
      var inner := CompactElements(elements) + "]" + s;
      ReadsElements(elements, s);
      ElementsText(elements, s);
      Bracketed('[', CompactElements(elements), ']', s);
      ReadsArray(inner, elements, s);
    case Object(fields) =>
      var inner := CompactFields(fields) + "}" + s;
      ReadsFields(fields, s);
      FieldsText(fields, s);
      Bracketed('{', CompactFields(fields), '}', s);
      ReadsObject(inner, fields, s);
    case _ => ReadsScalar(v, s);
  }

  lemma Bracketed(open: char, a: string, close: char, s: string)
    ensures [open] + a + [close] + s == [open] + (a + [close] + s)
  {
  }

  lemma ReadsArray(inner: string, elements: seq<Value>, s: string)
    requires inner != "" && if elements == [] then inner[0] == ']' && inner[1..] == s
                            else inner[0] != ']' && ReadElements(inner) == Some((elements, s))
    ensures ReadValue(['['] + inner) == Some((Array(elements), s))
  {
    assert (['['] + inner)[1..] == inner && (['['] + inner)[2..] == inner[1..];
  }

  lemma ReadsObject(inner: string, fields: Fields, s: string)
    requires inner != "" && if fields == [] then inner[0] == '}' && inner[1..] == s
                            else inner[0] != '}' && ReadFields(inner) == Some((fields, s))
    ensures ReadValue(['{'] + inner) == Some((Object(fields), s))
  {
    assert (['{'] + inner)[1..] == inner && (['{'] + inner)[2..] == inner[1..];
  }

  lemma LastElement(x: string, v: Value, s: string)
    requires ReadValue(x) == Some((v, "]" + s))
    ensures ReadElements(x) == Some(([v], s))
  {
    assert ("]" + s)[1..] == s;
  }

  lemma MoreElements(x: string, v: Value, rest: string, more: seq<Value>, s: string)
    requires ReadValue(x) == Some((v, "," + rest)) && ReadElements(rest) == Some((more, s))
    ensures ReadElements(x) == Some(([v] + more, s))
  {
    assert ("," + rest)[1..] == rest;
  }

  lemma ElementsTailIs(elements: seq<Value>, s: string)
    requires elements != []
    ensures ElementsTail(elements, s) == if |elements| == 1 then "]" + s else "," + (CompactElements(elements[1..]) + "]" + s)
  {
    assert "" + "]" + s == "]" + s;
  }

  lemma {:induction false} ReadsElements(elements: seq<Value>, s: string)
    requires forall e <- elements :: JsonNumbers(e)
    ensures elements != [] ==> ReadElements(CompactElements(elements) + "]" + s) == Some((elements, s))
    decreases elements, 0
  {
    if elements != [] {
      var x := CompactElements(elements) + "]" + s;
      ElementsText(elements, s);
      ReadsCompact(elements[0], ElementsTail(elements, s));
      ElementsTailIs(elements, s);
      HeadTail(elements);
      if |elements| > 1 {
        assert forall e <- elements[1..] :: e in elements;
        ReadsElements(elements[1..], s);
        MoreElements(x, elements[0], CompactElements(elements[1..]) + "]" + s, elements[1..], s);
      } else {
        LastElement(x, elements[0], s);
        assert elements == [elements[0]];
      }
    }
  }

  lemma ReadsField(f: Field, s: string)
    requires ReadValue(Compact(f.value) + s) == Some((f.value, s))
    ensures ReadField(Quoted(f.key) + (":" + (Compact(f.value) + s))) == Some((f, s))
  {
    ReadsQuoted(f.key, ":" + (Compact(f.value) + s));
    assert (":" + (Compact(f.value) + s))[1..] == Compact(f.value) + s;
  }

  lemma LastField(x: string, f: Field, s: string)
    requires ReadField(x) == Some((f, "}" + s))
    ensures ReadFields(x) == Some(([f], s))
  {
    assert ("}" + s)[1..] == s;
  }

  lemma MoreFields(x: string, f: Field, rest: string, more: Fields, s: string)
    requires ReadField(x) == Some((f, "," + rest)) && ReadFields(rest) == Some((more, s))
    ensures ReadFields(x) == Some(([f] + more, s))
  {
    assert ("," + rest)[1..] == rest;
  }

  lemma FieldsTailIs(fields: Fields, s: string)
    requires fields != []
    ensures FieldsTail(fields, s) == if |fields| == 1 then "}" + s else "," + (CompactFields(fields[1..]) + "}" + s)
  {
    assert "" + "}" + s == "}" + s;
  }

  lemma {:induction false} ReadsFields(fields: Fields, s: string)
    requires forall f <- fields :: JsonNumbers(f.value)
    ensures fields != [] ==> ReadFields(CompactFields(fields) + "}" + s) == Some((fields, s))
    decreases fields, 0
  {
    if fields != [] {
      var x := CompactFields(fields) + "}" + s;
      FieldsText(fields, s);
      ReadsCompact(fields[0].value, FieldsTail(fields, s));
      ReadsField(fields[0], FieldsTail(fields, s));
      FieldsTailIs(fields, s);
      HeadTail(fields);
      if |fields| > 1 {
        assert forall f <- fields[1..] :: f in fields;
        ReadsFields(fields[1..], s);
        MoreFields(x, fields[0], CompactFields(fields[1..]) + "}" + s, fields[1..], s);
      } else {
        LastField(x, fields[0], s);
        assert fields == [fields[0]];
      }
    }
  }

  /** The compact text of any value is read as that value. */
  lemma ReadCompact(v: Value)
    requires JsonNumbers(v)
    ensures Read(Compact(v)) == Some(v)
  {
    ReadsCompact(v, "");
    assert Compact(v) + "" == Compact(v);
  }

  /** So is the pretty text, at any indent, without the whitespace outside its strings. */
  lemma ReadPretty(v: Value, indent: nat)
    requires JsonNumbers(v)
    ensures Read(Strip(Outside, Pretty(v, 0, indent))) == Some(v)
  {
    JsonNumbersArePlain(v);
    PrettyStripsToCompact(v, 0, indent);
    ReadCompact(v);
  }
}
