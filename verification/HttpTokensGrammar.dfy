/** The language parse_ptokens_header reads, as a grammar with every optional blank, empty list element and
    quoting choice made explicit (section 7 of RFC 7230), and that every rendering reads as its list. */
module HttpTokensGrammar {
  import opened Results
  import opened HttpTokens
  import opened Sequences

  // ---------- The grammar ----------

  datatype QuotedChar = Plain(c: char) | Backslashed(c: char)

  datatype RenderedValue = AsToken(text: string) | AsQuoted(chars: seq<QuotedChar>)

  /** ";" beforeName name beforeEquals "=" beforeValue value after */
  datatype RenderedParam = RenderedParam(
    beforeName: string,
    name: string,
    beforeEquals: string,
    beforeValue: string,
    value: RenderedValue,
    after: string)

  /** `before` holds the separating comma, if one is needed, with any empty list elements. */
  datatype RenderedElement = RenderedElement(before: string, name: string, after: string, params: seq<RenderedParam>)

  datatype Rendering = Rendering(elements: seq<RenderedElement>, trailing: string)

  ghost function QuotedText(chars: seq<QuotedChar>): string {
    if chars == [] then ""
    else (if chars[0].Plain? then [chars[0].c] else ['\\', chars[0].c]) + QuotedText(chars[1..])
  }

  ghost function RenderedValueText(value: RenderedValue): string {
    match value
    case AsToken(text) => text
    case AsQuoted(chars) => "\"" + (QuotedText(chars) + "\"")
  }

  ghost function ParamBody(p: RenderedParam): string {
    p.beforeName + (p.name + (p.beforeEquals + ("=" + (p.beforeValue + (RenderedValueText(p.value) + p.after)))))
  }

  ghost function ParamText(p: RenderedParam): string {
    ";" + ParamBody(p)
  }

  ghost function RenderedParamsText(params: seq<RenderedParam>): string {
    if params == [] then "" else ParamText(params[0]) + RenderedParamsText(params[1..])
  }

  ghost function ElementText(e: RenderedElement): string {
    e.before + (e.name + (e.after + RenderedParamsText(e.params)))
  }

  ghost function ElementsText(elements: seq<RenderedElement>): string {
    if elements == [] then "" else ElementText(elements[0]) + ElementsText(elements[1..])
  }

  ghost function Text(r: Rendering): string {
    ElementsText(r.elements) + r.trailing
  }

  ghost predicate Blanks(s: string) {
    forall c <- s :: IsBlank(c)
  }

  /** Commas and blanks; after an element they must start with a comma. */
  ghost predicate Separator(s: string, first: bool) {
    && (forall c <- s :: c == ',' || IsBlank(c))
    && (first || s == "" || s[0] == ',')
  }

  ghost predicate ValidValue(value: RenderedValue) {
    match value
    case AsToken(text) => IsToken(text)
    case AsQuoted(chars) => forall q <- chars :: q.Plain? ==> !IsBackslashRequired(q.c)
  }

  ghost predicate ValidParam(p: RenderedParam) {
    && Blanks(p.beforeName) && IsToken(p.name) && Blanks(p.beforeEquals) && Blanks(p.beforeValue)
    && ValidValue(p.value) && Blanks(p.after)
  }

  ghost predicate ValidElements(elements: seq<RenderedElement>, first: bool) {
    if elements == [] then true
    else
      var e := elements[0];
      && Separator(e.before, first) && (first || e.before != "")
      && IsToken(e.name) && Blanks(e.after) && (forall p <- e.params :: ValidParam(p))
      && ValidElements(elements[1..], false)
  }

  ghost predicate Valid(r: Rendering) {
    ValidElements(r.elements, true) && Separator(r.trailing, r.elements == [])
  }

  ghost function QuotedMeaning(chars: seq<QuotedChar>): string {
    if chars == [] then "" else [chars[0].c] + QuotedMeaning(chars[1..])
  }

  ghost function ValueMeaning(value: RenderedValue): string {
    match value
    case AsToken(text) => text
    case AsQuoted(chars) => QuotedMeaning(chars)
  }

  ghost function ParamsMeaning(params: seq<RenderedParam>): seq<Param> {
    seq(|params|, i requires 0 <= i < |params| => Param(params[i].name, ValueMeaning(params[i].value)))
  }

  ghost function Meaning(elements: seq<RenderedElement>): Ptokens {
    seq(|elements|, i requires 0 <= i < |elements| => Ptoken(elements[i].name, ParamsMeaning(elements[i].params)))
  }

  // ---------- Running the parser ----------

  lemma {:induction false} RunAppend(p: Parser, s: string, t: string)
    requires p.Sound()
    ensures p.Run(s + t) == match p.Run(s) case Ok(q) => q.Run(t) case Err(e) => Err(e)
    decreases |s|
  {
    if s == "" {
      assert s + t == t;
    } else {
      assert (s + t)[0] == s[0] && (s + t)[1..] == s[1..] + t;
      if p.Step(s[0]).Ok? {
        RunAppend(p.Step(s[0]).value, s[1..], t);
      }
    }
  }

  ghost function Reached(p: Parser, s: string): Option<Parser> {
    if p.Sound() && p.Run(s).Ok? then Some(p.Run(s).value) else None
  }

  /** From `p`, the text `s` leads to `q`. */
  ghost predicate Leads(p: Parser, s: string, q: Parser) {
    Reached(p, s) == Some(q)
  }

  lemma LeadsAppend(p: Parser, s: string, q: Parser, t: string, r: Parser)
    requires Leads(p, s, q) && Leads(q, t, r)
    ensures Leads(p, s + t, r)
  {
    RunAppend(p, s, t);
  }

  lemma LeadsOne(p: Parser, c: char)
    requires p.Sound() && p.Step(c).Ok?
    ensures Leads(p, [c], p.Step(c).value)
  {
    assert [c][1..] == "";
    assert p.Run([c]) == p.Step(c).value.Run("");
  }

  lemma LeadsStep(p: Parser, c: char, q: Parser, s: string, r: Parser)
    requires p.Sound() && p.Step(c) == Ok(q) && Leads(q, s, r)
    ensures Leads(p, [c] + s, r)
  {
    assert ([c] + s)[1..] == s;
  }

  /** A text every character of which keeps the parser where it is. */
  lemma {:induction false} Stays(p: Parser, s: string)
    requires p.Sound() && forall c <- s :: p.Step(c) == Ok(p)
    ensures Leads(p, s, p)
    decreases |s|
  {
    if s != "" {
      assert s[0] in s && forall c <- s[1..] :: c in s;
      Stays(p, s[1..]);
    }
  }

  lemma StaysOnBlanks(p: Parser, blanks: string)
    requires p.Sound() && Blanks(blanks)
    requires p.state.PreParam? || p.state.PreParamName? || p.state.PreParamValue? || p.state.ParamValue?
    ensures Leads(p, blanks, p)
  {
    Stays(p, blanks);
  }

  lemma BlankTail(blanks: string)
    requires Blanks(blanks) && blanks != ""
    ensures IsBlank(blanks[0]) && Blanks(blanks[1..]) && [blanks[0]] + blanks[1..] == blanks
  {
    assert blanks[0] in blanks && forall c <- blanks[1..] :: c in blanks;
  }

  /** The list the parser has read, if the header could end here, though the last name or value may still be open. */
  ghost function Settled(p: Parser): Option<Ptokens> {
    if p.Sound() && !p.state.PreValue? && p.Finish().Ok? then Some(p.Finish().value) else None
  }

  ghost predicate Settles(p: Parser, result: Ptokens) {
    Settled(p) == Some(result)
  }

  /** From `p`, the text `s` leads to `q`, which has read `result`. */
  ghost predicate Reads(p: Parser, s: string, q: Parser, result: Ptokens) {
    (Reached(p, s), Settled(q)) == (Some(q), Some(result))
  }

  lemma SettledBlanks(p: Parser, result: Ptokens, blanks: string) returns (q: Parser)
    requires Settles(p, result) && Blanks(blanks)
    ensures Reads(p, blanks, q, result)
  {
    if blanks == "" {
      q := p;
    } else {
      BlankTail(blanks);
      q := Parser(PreParam, "", result);
      assert p.Step(blanks[0]) == Ok(q);
      LeadsOne(p, blanks[0]);
      StaysOnBlanks(q, blanks[1..]);
      LeadsAppend(p, [blanks[0]], q, blanks[1..], q);
    }
  }

  lemma {:induction false} ReadName(p: Parser, rest: string)
    requires p.Sound() && (p.state.ValueName? || p.state.ParamName?) && AllTchars(rest)
    ensures Leads(p, rest, p.(name := p.name + rest))
    decreases |rest|
  {
    if rest == "" {
      assert p.name + rest == p.name;
    } else {
      var q := p.(name := p.name + [rest[0]]);
      assert rest[0] in rest && forall c <- rest[1..] :: c in rest;
      ReadName(q, rest[1..]);
      HeadTail(rest);
      AppendAssociates(p.name, rest[0], rest[1..]);
      LeadsStep(p, rest[0], q, rest[1..], p.(name := p.name + rest));
    }
  }

  lemma StartName(p: Parser, name: string)
    requires p.Sound() && (p.state.PreValue? || p.state.PreParamName?) && IsToken(name)
    ensures Leads(p, name, Parser(if p.state.PreValue? then ValueName else ParamName, name, p.result))
  {
    assert name[0] in name && forall c <- name[1..] :: c in name;
    var q := Parser(if p.state.PreValue? then ValueName else ParamName, [name[0]], p.result);
    EmptyPrefix([name[0]]);
    HeadTail(name);
    assert p.Step(name[0]) == Ok(q);
    ReadName(q, name[1..]);
    LeadsStep(p, name[0], q, name[1..], q.(name := name));
  }

  // ---------- Reading a parameter ----------

  /** `result` with one more parameter on its last value. */
  ghost function WithParam(result: Ptokens, param: Param): Ptokens
    requires result != []
  {
    var last := result[|result| - 1];
    result[..|result| - 1] + [Ptoken(last.name, last.params + [param])]
  }

  /** The parser in the course of reading a parameter's value, if it can be there. */
  ghost function Reading(state: State, result: Ptokens, name: string, value: string): Option<Parser> {
    if result == [] then None
    else
      var p := Parser(state, "", WithParam(result, Param(name, value)));
      if p.Sound() then Some(p) else None
  }

  ghost predicate ReadingValue(p: Parser, state: State, result: Ptokens, name: string, value: string) {
    Reading(state, result, name, value) == Some(p)
  }

  /** From `p`, the text `s` leads to `q`, which is in the course of reading this value. */
  ghost predicate Reaches(p: Parser, s: string, q: Parser, state: State, result: Ptokens, name: string, value: string) {
    (Reached(p, s), Reading(state, result, name, value)) == (Some(q), Some(q))
  }

  lemma {:induction false} ReadToken(p: Parser, result: Ptokens, name: string, value: string, rest: string) returns (q: Parser)
    requires ReadingValue(p, ParamValueToken, result, name, value) && AllTchars(rest)
    ensures Reaches(p, rest, q, ParamValueToken, result, name, value + rest)
    decreases |rest|
  {
    if rest == "" {
      q := p;
      assert value + rest == value;
    } else {
      assert rest[0] in rest && forall c <- rest[1..] :: c in rest;
      var next := p.Extend(rest[0]);
      q := ReadToken(next, result, name, value + [rest[0]], rest[1..]);
      HeadTail(rest);
      AppendAssociates(value, rest[0], rest[1..]);
      LeadsStep(p, rest[0], next, rest[1..], q);
    }
  }

  lemma ReadQuotedChar(p: Parser, result: Ptokens, name: string, value: string, quoted: QuotedChar) returns (q: Parser)
    requires ReadingValue(p, QuotedString, result, name, value)
    requires quoted.Plain? ==> !IsBackslashRequired(quoted.c)
    ensures Reaches(p, if quoted.Plain? then [quoted.c] else ['\\', quoted.c], q, QuotedString, result, name, value + [quoted.c])
  {
    if quoted.Plain? {
      q := p.Extend(quoted.c);
      LeadsOne(p, quoted.c);
    } else {
      var escape := p.(state := QuotedStringEscape);
      LeadsOne(p, '\\');
      q := escape.Extend(quoted.c).(state := QuotedString);
      LeadsOne(escape, quoted.c);
      LeadsAppend(p, ['\\'], escape, [quoted.c], q);
      assert ['\\', quoted.c] == ['\\'] + [quoted.c];
    }
  }

  lemma {:induction false} ReadQuoted(p: Parser, result: Ptokens, name: string, value: string, chars: seq<QuotedChar>) returns (q: Parser)
    requires ReadingValue(p, QuotedString, result, name, value)
    requires ValidValue(AsQuoted(chars))
    ensures Reaches(p, QuotedText(chars), q, QuotedString, result, name, value + QuotedMeaning(chars))
    decreases |chars|
  {
    if chars == [] {
      q := p;
      assert value + "" == value;
    } else {
      var next := ReadQuotedChar(p, result, name, value, chars[0]);
      q := ReadQuoted(next, result, name, value + [chars[0].c], chars[1..]);
      LeadsAppend(p, if chars[0].Plain? then [chars[0].c] else ['\\', chars[0].c], next, QuotedText(chars[1..]), q);
      assert value + [chars[0].c] + QuotedMeaning(chars[1..]) == value + QuotedMeaning(chars);
    }
  }

  lemma ReadTokenValue(p: Parser, result: Ptokens, name: string, text: string) returns (q: Parser)
    requires ReadingValue(p, ParamValue, result, name, "") && IsToken(text)
    ensures Reads(p, text, q, WithParam(result, Param(name, text)))
  {
    assert text[0] in text && forall c <- text[1..] :: c in text;
    HeadTail(text);
    var next := StartToken(p, result, name, text[0]);
    q := ReadToken(next, result, name, [text[0]], text[1..]);
    TokenSettles(q, result, name, text);
    LeadsAppend(p, [text[0]], next, text[1..], q);
  }

  lemma TokenSettles(p: Parser, result: Ptokens, name: string, value: string)
    requires ReadingValue(p, ParamValueToken, result, name, value)
    ensures Settles(p, WithParam(result, Param(name, value)))
  {
  }

  lemma StartToken(p: Parser, result: Ptokens, name: string, c: char) returns (q: Parser)
    requires ReadingValue(p, ParamValue, result, name, "") && IsTchar(c)
    ensures Reaches(p, [c], q, ParamValueToken, result, name, [c])
  {
    EmptyPrefix([c]);
    q := p.Extend(c).(state := ParamValueToken);
    LeadsOne(p, c);
  }

  lemma ReadQuotedValue(p: Parser, result: Ptokens, name: string, chars: seq<QuotedChar>) returns (q: Parser)
    requires ReadingValue(p, ParamValue, result, name, "") && ValidValue(AsQuoted(chars))
    ensures Reads(p, "\"" + (QuotedText(chars) + "\""), q, WithParam(result, Param(name, QuotedMeaning(chars))))
  {
    var open := OpenQuote(p, result, name);
    var end := ReadQuoted(open, result, name, "", chars);
    EmptyPrefix(QuotedMeaning(chars));
    q := CloseQuote(end, result, name, QuotedMeaning(chars));
    LeadsAppend(open, QuotedText(chars), end, "\"", q);
    LeadsAppend(p, "\"", open, QuotedText(chars) + "\"", q);
  }

  lemma OpenQuote(p: Parser, result: Ptokens, name: string) returns (q: Parser)
    requires ReadingValue(p, ParamValue, result, name, "")
    ensures Reaches(p, "\"", q, QuotedString, result, name, "")
  {
    q := p.(state := QuotedString);
    LeadsOne(p, '"');
  }

  lemma CloseQuote(p: Parser, result: Ptokens, name: string, value: string) returns (q: Parser)
    requires ReadingValue(p, QuotedString, result, name, value)
    ensures Reads(p, "\"", q, WithParam(result, Param(name, value)))
  {
    q := p.(state := PreParam);
    LeadsOne(p, '"');
  }

  lemma ReadValue(p: Parser, result: Ptokens, name: string, value: RenderedValue) returns (q: Parser)
    requires ReadingValue(p, ParamValue, result, name, "") && ValidValue(value)
    ensures Reads(p, RenderedValueText(value), q, WithParam(result, Param(name, ValueMeaning(value))))
  {
    if value.AsToken? {
      q := ReadTokenValue(p, result, name, value.text);
    } else {
      q := ReadQuotedValue(p, result, name, value.chars);
    }
  }

  lemma ReadEquals(p: Parser, result: Ptokens, name: string, blanks: string) returns (q: Parser)
    requires p == Parser(ParamName, name, result) && p.Sound() && Blanks(blanks)
    ensures Reaches(p, blanks + "=", q, ParamValue, result, name, "")
  {
    var pushed := p.PushParam();
    q := pushed.(state := ParamValue);
    if blanks == "" {
      LeadsOne(p, '=');
      assert blanks + "=" == "=";
    } else {
      BlankTail(blanks);
      assert p.Step(blanks[0]) == Ok(pushed) && pushed.Step('=') == Ok(q);
      LeadsOne(p, blanks[0]);
      StaysOnBlanks(pushed, blanks[1..]);
      LeadsOne(pushed, '=');
      LeadsAppend(p, [blanks[0]], pushed, blanks[1..], pushed);
      LeadsAppend(p, blanks, pushed, "=", q);
    }
  }

  lemma ReadParamName(p: Parser, result: Ptokens, beforeName: string, name: string)
    requires Settles(p, result) && result != [] && Blanks(beforeName) && IsToken(name)
    ensures Leads(p, ";" + beforeName + name, Parser(ParamName, name, result))
  {
    var a := Parser(PreParamName, "", result);
    assert p.Step(';') == Ok(a);
    LeadsOne(p, ';');
    StaysOnBlanks(a, beforeName);
    LeadsAppend(p, ";", a, beforeName, a);
    StartName(a, name);
    LeadsAppend(p, ";" + beforeName, a, name, Parser(ParamName, name, result));
  }

  lemma ReadParamValue(p: Parser, result: Ptokens, param: RenderedParam) returns (q: Parser)
    requires ReadingValue(p, ParamValue, result, param.name, "") && ValidParam(param)
    ensures Reads(p, param.beforeValue + RenderedValueText(param.value) + param.after, q,
                  WithParam(result, Param(param.name, ValueMeaning(param.value))))
  {
    StaysOnBlanks(p, param.beforeValue);
    var end := ReadValue(p, result, param.name, param.value);
    q := SettledBlanks(end, WithParam(result, Param(param.name, ValueMeaning(param.value))), param.after);
    LeadsAppend(p, param.beforeValue, p, RenderedValueText(param.value), end);
    LeadsAppend(p, param.beforeValue + RenderedValueText(param.value), end, param.after, q);
  }

  lemma ParamTextAssociates(p: RenderedParam)
    ensures ParamText(p) == ";" + p.beforeName + p.name + (p.beforeEquals + "=") + (p.beforeValue + RenderedValueText(p.value) + p.after)
  {
  }

  lemma ReadParam(p: Parser, result: Ptokens, param: RenderedParam) returns (q: Parser)
    requires Settles(p, result) && result != [] && ValidParam(param)
    ensures Reads(p, ParamText(param), q, WithParam(result, Param(param.name, ValueMeaning(param.value))))
  {
    var b := Parser(ParamName, param.name, result);
    ReadParamName(p, result, param.beforeName, param.name);
    var c := ReadEquals(b, result, param.name, param.beforeEquals);
    q := ReadParamValue(c, result, param);
    LeadsAppend(p, ";" + param.beforeName + param.name, b, param.beforeEquals + "=", c);
    LeadsAppend(p, ";" + param.beforeName + param.name + (param.beforeEquals + "="), c,
                param.beforeValue + RenderedValueText(param.value) + param.after, q);
    ParamTextAssociates(param);
  }

  lemma AppendAssociates<T>(a: seq<T>, x: T, b: seq<T>)
    ensures a + [x] + b == a + ([x] + b)
  {
  }

  lemma FirstParamMeaning(params: seq<RenderedParam>)
    requires params != []
    ensures ParamsMeaning(params) == [Param(params[0].name, ValueMeaning(params[0].value))] + ParamsMeaning(params[1..])
  {
  }

  lemma {:induction false} ReadParams(p: Parser, result: Ptokens, name: string, done: seq<Param>, params: seq<RenderedParam>) returns (q: Parser)
    requires Settles(p, result + [Ptoken(name, done)]) && forall x <- params :: ValidParam(x)
    ensures Reads(p, RenderedParamsText(params), q, result + [Ptoken(name, done + ParamsMeaning(params))])
    decreases |params|
  {
    if params == [] {
      q := p;
      assert done + ParamsMeaning(params) == done;
    } else {
      var param := Param(params[0].name, ValueMeaning(params[0].value));
      var next := ReadParam(p, result + [Ptoken(name, done)], params[0]);
      q := ReadParams(next, result, name, done + [param], params[1..]);
      FirstParamMeaning(params);
      AppendAssociates(done, param, ParamsMeaning(params[1..]));
      LeadsAppend(p, ParamText(params[0]), next, RenderedParamsText(params[1..]), q);
    }
  }

  // ---------- Reading the list ----------

  lemma CommaStep(p: Parser, result: Ptokens)
    requires Settles(p, result)
    ensures p.Step(',') == Ok(Parser(PreValue, "", result))
  {
  }

  lemma ReadSeparator(p: Parser, result: Ptokens, separator: string, first: bool)
    requires p.Sound() && Separator(separator, first) && (first || separator != "")
    requires if first then p == Parser(PreValue, "", result) else Settles(p, result)
    ensures WellFormed(result) && Leads(p, separator, Parser(PreValue, "", result))
  {
    var q := Parser(PreValue, "", result);
    if first {
      Stays(p, separator);
    } else {
      HeadTail(separator);
      assert forall c <- separator[1..] :: c in separator;
      Stays(q, separator[1..]);
      CommaStep(p, result);
      LeadsStep(p, ',', q, separator[1..], q);
    }
  }

  lemma ReadElement(p: Parser, result: Ptokens, e: RenderedElement, first: bool) returns (q: Parser)
    requires if first then p == Parser(PreValue, "", result) && p.Sound() else Settles(p, result)
    requires ValidElements([e], first)
    ensures Reads(p, ElementText(e), q, result + [Ptoken(e.name, ParamsMeaning(e.params))])
  {
    ReadSeparator(p, result, e.before, first);
    var a := Parser(PreValue, "", result);
    StartName(a, e.name);
    var b := Parser(ValueName, e.name, result);
    var c := SettledBlanks(b, result + [Ptoken(e.name, [])], e.after);
    q := ReadParams(c, result, e.name, [], e.params);
    assert [] + ParamsMeaning(e.params) == ParamsMeaning(e.params);
    LeadsAppend(b, e.after, c, RenderedParamsText(e.params), q);
    LeadsAppend(a, e.name, b, e.after + RenderedParamsText(e.params), q);
    LeadsAppend(p, e.before, a, e.name + (e.after + RenderedParamsText(e.params)), q);
  }

  lemma FirstMeaning(result: Ptokens, elements: seq<RenderedElement>)
    requires elements != []
    ensures var e := elements[0];
            result + [Ptoken(e.name, ParamsMeaning(e.params))] + Meaning(elements[1..]) == result + Meaning(elements)
  {
    var e := elements[0];
    assert Meaning(elements) == [Ptoken(e.name, ParamsMeaning(e.params))] + Meaning(elements[1..]);
  }

  lemma {:induction false} ReadElements(p: Parser, result: Ptokens, elements: seq<RenderedElement>, first: bool) returns (q: Parser)
    requires if first then p == Parser(PreValue, "", result) && p.Sound() else Settles(p, result)
    requires ValidElements(elements, first)
    ensures Leads(p, ElementsText(elements), q)
    ensures if elements == [] then q == p else Settles(q, result + Meaning(elements))
    decreases |elements|
  {
    if elements == [] {
      q := p;
    } else {
      var e := elements[0];
      var d := ReadElement(p, result, e, first);
      var soFar := result + [Ptoken(e.name, ParamsMeaning(e.params))];
      q := ReadElements(d, soFar, elements[1..], false);
      FirstMeaning(result, elements);
      if elements[1..] == [] {
        assert soFar + [] == soFar;
      }
      LeadsAppend(p, ElementText(e), d, ElementsText(elements[1..]), q);
    }
  }

  /** Every rendering of a list is read back as that list. */
  lemma ParseRendering(r: Rendering)
    requires Valid(r)
    ensures Parse(Text(r)) == Ok(Meaning(r.elements))
  {
    var p := ReadElements(START, [], r.elements, true);
    var values := Meaning(r.elements);
    assert [] + values == values;
    if r.elements == [] {
      ReadSeparator(START, [], r.trailing, true);
      LeadsAppend(START, ElementsText(r.elements), START, r.trailing, START);
    } else if r.trailing == "" {
      assert Text(r) == ElementsText(r.elements);
    } else {
      ReadSeparator(p, values, r.trailing, false);
      LeadsAppend(START, ElementsText(r.elements), p, r.trailing, Parser(PreValue, "", values));
    }
  }
}
