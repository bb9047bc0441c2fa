/** The other direction: a header is accepted only if it is a rendering of the list it decodes to. */
module HttpTokensLanguage {
  import opened Results
  import opened HttpTokens
  import opened HttpTokensGrammar
  import opened Sequences

  // ---------- Every accepted header is a rendering ----------

  /** The parser's control alone: which state follows which. */
  ghost function Next(state: State, c: char): Option<State> {
    match state
    case PreValue => if IsTchar(c) then Some(ValueName) else if c == ',' || IsBlank(c) then Some(PreValue) else None
    case ValueName => if IsTchar(c) then Some(ValueName) else AfterValue(c)
    case PreParam => AfterValue(c)
    case PreParamName => if IsTchar(c) then Some(ParamName) else if IsBlank(c) then Some(PreParamName) else None
    case ParamName => if IsTchar(c) then Some(ParamName) else AfterParamName(c)
    case PreParamValue => AfterParamName(c)
    case ParamValue =>
      if IsTchar(c) then Some(ParamValueToken) else if c == '"' then Some(QuotedString)
      else if IsBlank(c) then Some(ParamValue) else None
    case ParamValueToken => if IsTchar(c) then Some(ParamValueToken) else AfterValue(c)
    case QuotedString => Some(if c == '"' then PreParam else if c == '\\' then QuotedStringEscape else QuotedString)
    case QuotedStringEscape => Some(QuotedString)
  }

  ghost function AfterValue(c: char): Option<State> {
    if c == ',' then Some(PreValue) else if c == ';' then Some(PreParamName)
    else if IsBlank(c) then Some(PreParam) else None
  }

  ghost function AfterParamName(c: char): Option<State> {
    if c == '=' then Some(ParamValue) else if IsBlank(c) then Some(PreParamValue) else None
  }

  ghost predicate Accepts(state: State, s: string)
    decreases |s|
  {
    if s == "" then state.PreValue? || state.ValueName? || state.PreParam? || state.ParamValueToken?
    else Next(state, s[0]).Some? && Accepts(Next(state, s[0]).value, s[1..])
  }

  lemma StepControl(p: Parser, c: char)
    requires p.Sound()
    ensures p.Step(c).Ok? <==> Next(p.state, c).Some?
    ensures p.Step(c).Ok? ==> p.Step(c).value.state == Next(p.state, c).value
  {
  }

  lemma {:induction false} AcceptsControl(p: Parser, s: string)
    requires p.Sound()
    ensures Accepts(p.state, s) <==> p.Run(s).Ok? && p.Run(s).value.Finish().Ok?
    decreases |s|
  {
    if s != "" {
      StepControl(p, s[0]);
      if p.Step(s[0]).Ok? {
        AcceptsControl(p.Step(s[0]).value, s[1..]);
      }
    }
  }

  /** What can follow a name or a parameter value: blanks, more parameters, the rest of the list. */
  datatype Tail = Tail(after: string, params: seq<RenderedParam>, rest: Rendering)

  ghost function TailText(t: Tail): string {
    t.after + (RenderedParamsText(t.params) + Text(t.rest))
  }

  ghost predicate ValidTail(t: Tail) {
    && Blanks(t.after) && (forall p <- t.params :: ValidParam(p))
    && ValidElements(t.rest.elements, false) && Separator(t.rest.trailing, false)
  }

  const END_OF_HEADER := Tail("", [], Rendering([], ""))

  /** The list `r` with one more character before its first element. */
  ghost function Before(c: char, r: Rendering): Rendering {
    if r.elements == [] then r.(trailing := [c] + r.trailing)
    else r.(elements := [r.elements[0].(before := [c] + r.elements[0].before)] + r.elements[1..])
  }

  lemma BeforeText(c: char, r: Rendering)
    requires Valid(r) && (c == ',' || IsBlank(c))
    ensures Text(Before(c, r)) == [c] + Text(r)
    ensures Valid(Before(c, r))
    ensures c == ',' ==> ValidElements(Before(c, r).elements, false) && Separator(Before(c, r).trailing, false)
  {
    if r.elements == [] {
      EmptyPrefix(r.trailing);
      EmptyPrefix([c] + r.trailing);
    } else {
      var e := r.elements[0];
      ConsAssociates(c, e.before, e.name + (e.after + RenderedParamsText(e.params)));
      assert Before(c, r).elements[1..] == r.elements[1..];
      ConsAssociates3(c, ElementText(e), ElementsText(r.elements[1..]), r.trailing);
    }
  }

  lemma ConsAssociates(c: char, a: string, b: string)
    ensures [c] + (a + b) == ([c] + a) + b
  {
  }

  lemma ConsAssociates3(c: char, a: string, b: string, d: string)
    ensures [c] + (a + b + d) == ([c] + a) + b + d
  {
  }

  lemma ElementAssociates(name: string, a: string, b: string, c: string, d: string)
    ensures "" + (name + (a + b)) + c + d == name + (a + (b + (c + d)))
  {
  }

  // ---------- What is left to read, in each state ----------

  ghost predicate IsList(s: string) {
    exists r: Rendering :: Valid(r) && Text(r) == s
  }

  ghost predicate IsTail(s: string) {
    exists t: Tail :: ValidTail(t) && TailText(t) == s
  }

  /** The rest of a name, or of a token, and what follows it. */
  ghost predicate IsTokenThenTail(s: string) {
    exists text: string, t: Tail :: AllTchars(text) && ValidTail(t) && text + TailText(t) == s
  }

  ghost predicate IsQuotedThenTail(s: string) {
    exists chars: seq<QuotedChar>, t: Tail ::
      ValidValue(AsQuoted(chars)) && ValidTail(t) && QuotedText(chars) + "\"" + TailText(t) == s
  }

  /** What can follow a parameter name. */
  datatype ParamRest = ParamRest(beforeEquals: string, beforeValue: string, value: RenderedValue, tail: Tail)

  ghost function ValueRestText(v: ParamRest): string {
    v.beforeValue + RenderedValueText(v.value) + TailText(v.tail)
  }

  ghost function ParamRestText(v: ParamRest): string {
    v.beforeEquals + "=" + ValueRestText(v)
  }

  ghost predicate ValidParamRest(v: ParamRest) {
    Blanks(v.beforeEquals) && Blanks(v.beforeValue) && ValidValue(v.value) && ValidTail(v.tail)
  }

  ghost predicate IsValueRest(s: string) {
    exists v: ParamRest :: ValidParamRest(v) && v.beforeEquals == "" && ValueRestText(v) == s
  }

  ghost predicate IsParamRest(s: string) {
    exists v: ParamRest :: ValidParamRest(v) && ParamRestText(v) == s
  }

  ghost predicate IsNameThenRest(s: string) {
    exists name: string, v: ParamRest :: AllTchars(name) && ValidParamRest(v) && name + ParamRestText(v) == s
  }

  ghost function MoreText(params: seq<RenderedParam>, rest: Rendering): string {
    RenderedParamsText(params) + Text(rest)
  }

  /** A parameter without its semicolon, and what follows it. */
  ghost predicate IsParamThenMore(s: string) {
    exists param: RenderedParam, params: seq<RenderedParam>, rest: Rendering ::
      ValidParam(param) && ValidTail(Tail("", params, rest)) && ParamBody(param) + MoreText(params, rest) == s
  }

  // ---------- One part in front of the rest ----------

  lemma ElementThenRest(name: string, t: Tail)
    requires IsToken(name) && ValidTail(t)
    ensures IsList(name + TailText(t))
  {
    var e := RenderedElement("", name, t.after, t.params);
    var r := Rendering([e] + t.rest.elements, t.rest.trailing);
    assert r.elements[0] == e && r.elements[1..] == t.rest.elements;
    assert ElementsText(r.elements) == ElementText(e) + ElementsText(t.rest.elements);
    ElementAssociates(name, t.after, RenderedParamsText(t.params), ElementsText(t.rest.elements), t.rest.trailing);
    assert Valid(r) && Text(r) == name + TailText(t);
  }

  lemma CommaThenList(r: Rendering)
    requires Valid(r)
    ensures IsTail("," + Text(r))
  {
    BeforeText(',', r);
    var t := Tail("", [], Before(',', r));
    EmptyPrefix(Text(t.rest));
    assert ValidTail(t) && TailText(t) == "," + Text(r);
  }

  lemma ParamAssociates(body: string, more: string, last: string)
    ensures "" + (";" + body + more + last) == ";" + (body + (more + last))
  {
  }

  lemma SemicolonThenParam(param: RenderedParam, params: seq<RenderedParam>, rest: Rendering)
    requires ValidParam(param) && ValidTail(Tail("", params, rest))
    ensures IsTail(";" + (ParamBody(param) + MoreText(params, rest)))
  {
    var t := Tail("", [param] + params, rest);
    assert t.params[1..] == params && t.params[0] == param;
    ParamAssociates(ParamBody(param), RenderedParamsText(params), Text(rest));
    assert ValidTail(t);
  }

  lemma BlankThenTail(c: char, inner: Tail)
    requires ValidTail(inner) && IsBlank(c)
    ensures IsTail([c] + TailText(inner))
  {
    var t := inner.(after := [c] + inner.after);
    ConsAssociates(c, inner.after, RenderedParamsText(inner.params) + Text(inner.rest));
    assert ValidTail(t) && TailText(t) == [c] + TailText(inner);
  }

  lemma TcharThenToken(c: char, text: string, t: Tail)
    requires IsTchar(c) && AllTchars(text) && ValidTail(t)
    ensures IsTokenThenTail([c] + (text + TailText(t)))
  {
    ConsAssociates(c, text, TailText(t));
    assert AllTchars([c] + text);
  }

  lemma ParamPartsAssociate(name: string, a: string, b: string, value: string, after: string, more: string)
    ensures name + (a + "=" + (b + value + (after + more))) == "" + (name + (a + ("=" + (b + (value + after))))) + more
  {
  }

  lemma NameThenRest(name: string, v: ParamRest)
    requires IsToken(name) && ValidParamRest(v)
    ensures IsParamThenMore(name + ParamRestText(v))
  {
    var param := RenderedParam("", name, v.beforeEquals, v.beforeValue, v.value, v.tail.after);
    ParamPartsAssociate(name, v.beforeEquals, v.beforeValue, RenderedValueText(v.value), v.tail.after,
                        MoreText(v.tail.params, v.tail.rest));
    assert ValidParam(param) && ValidTail(Tail("", v.tail.params, v.tail.rest));
    assert ParamBody(param) + MoreText(v.tail.params, v.tail.rest) == name + ParamRestText(v);
  }

  lemma BlankThenParam(c: char, param: RenderedParam, params: seq<RenderedParam>, rest: Rendering)
    requires ValidParam(param) && ValidTail(Tail("", params, rest)) && IsBlank(c)
    ensures IsParamThenMore([c] + (ParamBody(param) + MoreText(params, rest)))
  {
    var longer := param.(beforeName := [c] + param.beforeName);
    ConsAssociates(c, param.beforeName,
      param.name + (param.beforeEquals + ("=" + (param.beforeValue + (RenderedValueText(param.value) + param.after)))));
    ConsAssociates(c, ParamBody(param), MoreText(params, rest));
    assert ValidParam(longer) && ParamBody(longer) == [c] + ParamBody(param);
  }

  lemma TcharThenName(c: char, name: string, v: ParamRest)
    requires IsTchar(c) && AllTchars(name) && ValidParamRest(v)
    ensures IsNameThenRest([c] + (name + ParamRestText(v)))
  {
    ConsAssociates(c, name, ParamRestText(v));
    assert AllTchars([c] + name);
  }

  lemma EqualsThenValue(v: ParamRest)
    requires ValidParamRest(v) && v.beforeEquals == ""
    ensures IsParamRest("=" + ValueRestText(v))
  {
    assert ParamRestText(v) == "" + "=" + ValueRestText(v);
  }

  lemma BlankThenEquals(c: char, inner: ParamRest)
    requires ValidParamRest(inner) && IsBlank(c)
    ensures IsParamRest([c] + ParamRestText(inner))
  {
    var v := inner.(beforeEquals := [c] + inner.beforeEquals);
    assert ValueRestText(v) == ValueRestText(inner);
    ConsAssociates3(c, inner.beforeEquals, "=", ValueRestText(inner));
    assert ValidParamRest(v);
  }

  lemma TokenIsValue(text: string, t: Tail)
    requires IsToken(text) && ValidTail(t)
    ensures IsValueRest(text + TailText(t))
  {
    var v := ParamRest("", "", AsToken(text), t);
    EmptyPrefix(text);
    assert ValidParamRest(v) && ValueRestText(v) == text + TailText(t);
  }

  lemma QuotedIsValue(chars: seq<QuotedChar>, t: Tail)
    requires ValidValue(AsQuoted(chars)) && ValidTail(t)
    ensures IsValueRest("\"" + (QuotedText(chars) + "\"" + TailText(t)))
  {
    var v := ParamRest("", "", AsQuoted(chars), t);
    EmptyPrefix(RenderedValueText(v.value));
    ConsAssociates('"', QuotedText(chars) + "\"", TailText(t));
    assert ValidParamRest(v) && ValueRestText(v) == "\"" + (QuotedText(chars) + "\"" + TailText(t));
  }

  lemma BlankThenValue(c: char, inner: ParamRest)
    requires ValidParamRest(inner) && inner.beforeEquals == "" && IsBlank(c)
    ensures IsValueRest([c] + ValueRestText(inner))
  {
    var v := inner.(beforeValue := [c] + inner.beforeValue);
    ConsAssociates3(c, inner.beforeValue, RenderedValueText(inner.value), TailText(inner.tail));
    assert ValidParamRest(v) && ValueRestText(v) == [c] + ValueRestText(inner);
  }

  lemma PlainThenQuoted(c: char, inner: seq<QuotedChar>, t: Tail)
    requires ValidValue(AsQuoted(inner)) && !IsBackslashRequired(c) && ValidTail(t)
    ensures IsQuotedThenTail([c] + (QuotedText(inner) + "\"" + TailText(t)))
  {
    var chars := [Plain(c)] + inner;
    assert chars[1..] == inner;
    ConsAssociates3(c, QuotedText(inner), "\"", TailText(t));
    assert ValidValue(AsQuoted(chars)) && QuotedText(chars) == [c] + QuotedText(inner);
  }

  lemma BackslashedThenQuoted(c: char, inner: seq<QuotedChar>, t: Tail)
    requires ValidValue(AsQuoted(inner)) && ValidTail(t)
    ensures IsQuotedThenTail(['\\'] + ([c] + (QuotedText(inner) + "\"" + TailText(t))))
  {
    var chars := [Backslashed(c)] + inner;
    assert chars[1..] == inner;
    ConsAssociates3(c, QuotedText(inner), "\"", TailText(t));
    ConsAssociates3('\\', [c] + QuotedText(inner), "\"", TailText(t));
    PairAssociates('\\', c, QuotedText(inner));
    assert ValidValue(AsQuoted(chars)) && QuotedText(chars) == ['\\'] + ([c] + QuotedText(inner));
  }

  lemma PairAssociates(b: char, c: char, s: string)
    ensures [b, c] + s == [b] + ([c] + s)
  {
  }

  // ---------- Whatever is accepted in a state is what can be left to read ----------

  lemma {:induction false} FromPreValue(s: string)
    requires Accepts(PreValue, s)
    ensures IsList(s)
    decreases |s|
  {
    if s == "" {
      assert Valid(Rendering([], "")) && Text(Rendering([], "")) == "";
    } else {
      HeadTail(s);
      if IsTchar(s[0]) {
        FromToken(ValueName, s[1..]);
        var name: string, t: Tail :| AllTchars(name) && ValidTail(t) && name + TailText(t) == s[1..];
        ConsAssociates(s[0], name, TailText(t));
        ElementThenRest([s[0]] + name, t);
      } else {
        FromPreValue(s[1..]);
        var inner: Rendering :| Valid(inner) && Text(inner) == s[1..];
        BeforeText(s[0], inner);
      }
    }
  }

  /** Names of values, and values that are tokens, are read alike. */
  lemma {:induction false} FromToken(state: State, s: string)
    requires (state.ValueName? || state.ParamValueToken?) && Accepts(state, s)
    ensures IsTokenThenTail(s)
    decreases |s|, 1
  {
    if s != "" && IsTchar(s[0]) {
      HeadTail(s);
      FromToken(state, s[1..]);
      var text: string, t: Tail :| AllTchars(text) && ValidTail(t) && text + TailText(t) == s[1..];
      TcharThenToken(s[0], text, t);
    } else {
      FromPreParam(s);
      var t: Tail :| ValidTail(t) && TailText(t) == s;
      EmptyPrefix(s);
      assert AllTchars("") && "" + TailText(t) == s;
    }
  }

  lemma {:induction false} FromPreParam(s: string)
    requires Accepts(PreParam, s)
    ensures IsTail(s)
    decreases |s|, 0
  {
    if s == "" {
      assert ValidTail(END_OF_HEADER) && TailText(END_OF_HEADER) == "";
    } else {
      HeadTail(s);
      if s[0] == ',' {
        FromPreValue(s[1..]);
        var r: Rendering :| Valid(r) && Text(r) == s[1..];
        CommaThenList(r);
      } else if s[0] == ';' {
        FromPreParamName(s[1..]);
        var param: RenderedParam, params: seq<RenderedParam>, rest: Rendering :|
          ValidParam(param) && ValidTail(Tail("", params, rest)) && ParamBody(param) + MoreText(params, rest) == s[1..];
        SemicolonThenParam(param, params, rest);
      } else {
        FromPreParam(s[1..]);
        var inner: Tail :| ValidTail(inner) && TailText(inner) == s[1..];
        BlankThenTail(s[0], inner);
      }
    }
  }

  lemma {:induction false} FromPreParamName(s: string)
    requires Accepts(PreParamName, s)
    ensures IsParamThenMore(s)
    decreases |s|
  {
    HeadTail(s);
    if IsTchar(s[0]) {
      FromParamName(s[1..]);
      var name: string, v: ParamRest :| AllTchars(name) && ValidParamRest(v) && name + ParamRestText(v) == s[1..];
      ConsAssociates(s[0], name, ParamRestText(v));
      NameThenRest([s[0]] + name, v);
    } else {
      FromPreParamName(s[1..]);
      var param: RenderedParam, params: seq<RenderedParam>, rest: Rendering :|
        ValidParam(param) && ValidTail(Tail("", params, rest)) && ParamBody(param) + MoreText(params, rest) == s[1..];
      BlankThenParam(s[0], param, params, rest);
    }
  }

  lemma {:induction false} FromParamName(s: string)
    requires Accepts(ParamName, s)
    ensures IsNameThenRest(s)
    decreases |s|, 1
  {
    HeadTail(s);
    if IsTchar(s[0]) {
      FromParamName(s[1..]);
      var name: string, v: ParamRest :| AllTchars(name) && ValidParamRest(v) && name + ParamRestText(v) == s[1..];
      TcharThenName(s[0], name, v);
    } else {
      FromPreParamValue(s);
      var v: ParamRest :| ValidParamRest(v) && ParamRestText(v) == s;
      EmptyPrefix(s);
      assert AllTchars("") && "" + ParamRestText(v) == s;
    }
  }

  lemma {:induction false} FromPreParamValue(s: string)
    requires Accepts(PreParamValue, s)
    ensures IsParamRest(s)
    decreases |s|, 0
  {
    HeadTail(s);
    if s[0] == '=' {
      FromParamValue(s[1..]);
      var v: ParamRest :| ValidParamRest(v) && v.beforeEquals == "" && ValueRestText(v) == s[1..];
      EqualsThenValue(v);
    } else {
      FromPreParamValue(s[1..]);
      var inner: ParamRest :| ValidParamRest(inner) && ParamRestText(inner) == s[1..];
      BlankThenEquals(s[0], inner);
    }
  }

  lemma {:induction false} FromParamValue(s: string)
    requires Accepts(ParamValue, s)
    ensures IsValueRest(s)
    decreases |s|
  {
    HeadTail(s);
    if IsTchar(s[0]) {
      FromToken(ParamValueToken, s[1..]);
      var text: string, t: Tail :| AllTchars(text) && ValidTail(t) && text + TailText(t) == s[1..];
      ConsAssociates(s[0], text, TailText(t));
      TokenIsValue([s[0]] + text, t);
    } else if s[0] == '"' {
      FromQuoted(s[1..]);
      var chars: seq<QuotedChar>, t: Tail :|
        ValidValue(AsQuoted(chars)) && ValidTail(t) && QuotedText(chars) + "\"" + TailText(t) == s[1..];
      QuotedIsValue(chars, t);
    } else {
      FromParamValue(s[1..]);
      var inner: ParamRest :| ValidParamRest(inner) && inner.beforeEquals == "" && ValueRestText(inner) == s[1..];
      BlankThenValue(s[0], inner);
    }
  }

  lemma {:induction false} FromQuoted(s: string)
    requires Accepts(QuotedString, s)
    ensures IsQuotedThenTail(s)
    decreases |s|
  {
    HeadTail(s);
    if s[0] == '"' {
      FromPreParam(s[1..]);
      var t: Tail :| ValidTail(t) && TailText(t) == s[1..];
      EmptyPrefix("\"");
      assert ValidValue(AsQuoted([])) && QuotedText([]) + "\"" + TailText(t) == s;
    } else {
      var escaped := s[0] == '\\';
      var more := if escaped then s[1..][1..] else s[1..];
      if escaped {
        HeadTail(s[1..]);
      }
      FromQuoted(more);
      var inner: seq<QuotedChar>, t: Tail :|
        ValidValue(AsQuoted(inner)) && ValidTail(t) && QuotedText(inner) + "\"" + TailText(t) == more;
      if escaped {
        BackslashedThenQuoted(s[1], inner, t);
      } else {
        PlainThenQuoted(s[0], inner, t);
      }
    }
  }

  /** The parser accepts exactly the renderings, and decodes each to the list it renders. */
  lemma AcceptedIffRendering(header: string, values: Ptokens)
    ensures Parse(header) == Ok(values) <==>
            exists r: Rendering :: Valid(r) && Text(r) == header && Meaning(r.elements) == values
  {
    if Parse(header) == Ok(values) {
      AcceptsControl(START, header);
      FromPreValue(header);
      var r: Rendering :| Valid(r) && Text(r) == header;
      ParseRendering(r);
    }
    forall r: Rendering | Valid(r) && Text(r) == header && Meaning(r.elements) == values {
      ParseRendering(r);
    }
  }
}
