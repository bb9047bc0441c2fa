/** The other direction: a header of directives is accepted only if it is a rendering of the list it decodes to. */
module HttpDirectivesLanguage {
  import opened Results
  import opened Sequences
  import opened HttpTokens
  import Grammar = HttpTokensGrammar
  import opened HttpDirectives
  import opened HttpDirectivesGrammar

  // ---------- The parser's control ----------

  /** Which state follows which. */
  ghost function Next(state: Reading, c: char): Option<Reading> {
    match state
    case PreDirective => AfterDirective(c)
    case PreName => if IsTchar(c) then Some(Name) else if IsBlank(c) then Some(PreName) else None
    case Name => if IsTchar(c) then Some(Name) else AfterName(c)
    case PreDirectiveValue => AfterName(c)
    case DirectiveValue =>
      if IsTchar(c) then Some(ValueToken) else if c == '"' then Some(ValueQuoted)
      else if IsBlank(c) then Some(DirectiveValue) else None
    case ValueToken => if IsTchar(c) then Some(ValueToken) else AfterDirective(c)
    case ValueQuoted => Some(if c == '"' then PreDirective else if c == '\\' then ValueEscape else ValueQuoted)
    case ValueEscape => Some(ValueQuoted)
  }

  ghost function AfterDirective(c: char): Option<Reading> {
    if c == ';' then Some(PreName) else if IsBlank(c) then Some(PreDirective) else None
  }

  ghost function AfterName(c: char): Option<Reading> {
    if c == '=' then Some(DirectiveValue) else if c == ';' then Some(PreName)
    else if IsBlank(c) then Some(PreDirectiveValue) else None
  }

  ghost predicate Accepts(state: Reading, s: string)
    decreases |s|
  {
    if s == "" then !state.DirectiveValue? && !state.ValueQuoted? && !state.ValueEscape?
    else Next(state, s[0]).Some? && Accepts(Next(state, s[0]).value, s[1..])
  }

  lemma StepControl(p: Reader, c: char)
    requires p.Sound()
    ensures Next(p.state, c) == if p.Step(c).Ok? then Some(p.Step(c).value.state) else None
  {
  }

  lemma {:induction false} AcceptsControl(p: Reader, s: string)
    requires p.Sound()
    ensures Accepts(p.state, s) <==> ReadFrom(p, s).Ok?
    decreases |s|
  {
    if s != "" {
      StepControl(p, s[0]);
      if p.Step(s[0]).Ok? {
        AcceptsControl(p.Step(s[0]).value, s[1..]);
      }
    }
  }

  // ---------- What is left to read, in each state ----------

  ghost predicate IsList(s: string) {
    exists r: Rendering :: Valid(r) && Text(r) == s
  }

  /** The rest of the list behind a directive, if there is a semicolon. */
  ghost function MoreText(more: Option<Rendering>): string {
    if more.Some? then ";" + Text(more.value) else ""
  }

  ghost predicate ValidMore(more: Option<Rendering>) {
    more.Some? ==> Valid(more.value)
  }

  /** What can follow a value. */
  datatype Tail = Tail(after: string, more: Option<Rendering>)

  ghost function TailText(t: Tail): string {
    t.after + MoreText(t.more)
  }

  ghost predicate ValidTail(t: Tail) {
    Grammar.Blanks(t.after) && ValidMore(t.more)
  }

  ghost predicate IsTail(s: string) {
    exists t: Tail :: ValidTail(t) && TailText(t) == s
  }

  ghost predicate IsTokenThenTail(s: string) {
    exists text: string, t: Tail :: AllTchars(text) && ValidTail(t) && text + TailText(t) == s
  }

  ghost predicate IsQuotedThenTail(s: string) {
    exists chars: seq<Grammar.QuotedChar>, t: Tail ::
      Grammar.ValidValue(Grammar.AsQuoted(chars)) && ValidTail(t) && Grammar.QuotedText(chars) + ("\"" + TailText(t)) == s
  }

  /** What can follow an equals sign. */
  datatype ValueRest = ValueRest(beforeValue: string, value: Grammar.RenderedValue, tail: Tail)

  ghost function ValueRestText(v: ValueRest): string {
    v.beforeValue + (Grammar.RenderedValueText(v.value) + TailText(v.tail))
  }

  ghost predicate ValidValueRest(v: ValueRest) {
    Grammar.Blanks(v.beforeValue) && Grammar.ValidValue(v.value) && ValidTail(v.tail)
  }

  ghost predicate IsValueRest(s: string) {
    exists v: ValueRest :: ValidValueRest(v) && ValueRestText(v) == s
  }

  /** What can follow a name. */
  datatype NameRest = NameRest(afterName: string, assignment: Option<Assignment>, more: Option<Rendering>)

  ghost function NameRestText(n: NameRest): string {
    n.afterName + (AssignmentText(n.assignment) + MoreText(n.more))
  }

  ghost predicate ValidNameRest(n: NameRest) {
    Grammar.Blanks(n.afterName) && ValidAssignment(n.assignment) && ValidMore(n.more)
  }

  ghost predicate IsNameRest(s: string) {
    exists n: NameRest :: ValidNameRest(n) && NameRestText(n) == s
  }

  ghost predicate IsNameThenRest(s: string) {
    exists name: string, n: NameRest :: AllTchars(name) && ValidNameRest(n) && name + NameRestText(n) == s
  }

  // ---------- One part in front of the rest ----------

  /** A list with one more blank in front. */
  lemma BlankThenList(c: char, r: Rendering)
    requires IsBlank(c) && Valid(r)
    ensures IsList([c] + Text(r))
  {
    match r
    case End(blanks) =>
      assert Valid(End([c] + blanks)) && Text(End([c] + blanks)) == [c] + Text(r);
    case Last(d) =>
      var longer := BlankThenDirective(c, d);
      assert Valid(Last(longer)) && Text(Last(longer)) == [c] + Text(r);
    case Then(d, rest) =>
      var longer := BlankThenDirective(c, d);
      Associates([c], RenderedText(d), ";" + Text(rest));
      assert Valid(Then(longer, rest)) && Text(Then(longer, rest)) == [c] + Text(r);
  }

  lemma BlankThenDirective(c: char, d: RenderedDirective) returns (longer: RenderedDirective)
    requires IsBlank(c) && ValidDirective(d)
    ensures ValidDirective(longer) && RenderedText(longer) == [c] + RenderedText(d)
  {
    longer := d.(before := [c] + d.before);
    Associates([c], d.before, d.name + (d.afterName + AssignmentText(d.assignment)));
  }

  lemma NameThenList(name: string, n: NameRest)
    requires IsToken(name) && ValidNameRest(n)
    ensures IsList(name + NameRestText(n))
  {
    var d := RenderedDirective("", name, n.afterName, n.assignment);
    EmptyPrefix(name + (n.afterName + AssignmentText(n.assignment)));
    if n.more == None {
      assert AssignmentText(n.assignment) + "" == AssignmentText(n.assignment);
      assert Valid(Last(d)) && Text(Last(d)) == name + NameRestText(n);
    } else {
      ThreeAssociate(name, n.afterName, AssignmentText(n.assignment), MoreText(n.more));
      assert Valid(Then(d, n.more.value)) && Text(Then(d, n.more.value)) == name + NameRestText(n);
    }
  }

  lemma ThreeAssociate(a: string, b: string, c: string, d: string)
    ensures (a + (b + c)) + d == a + (b + (c + d))
  {
  }

  lemma BlankThenTail(c: char, t: Tail)
    requires IsBlank(c) && ValidTail(t)
    ensures IsTail([c] + TailText(t))
  {
    var longer := t.(after := [c] + t.after);
    Associates([c], t.after, MoreText(t.more));
    assert ValidTail(longer) && TailText(longer) == [c] + TailText(t);
  }

  lemma SemicolonThenList(r: Rendering)
    requires Valid(r)
    ensures IsTail(";" + Text(r)) && IsNameRest(";" + Text(r))
  {
    var t, n := Tail("", Some(r)), NameRest("", None, Some(r));
    EmptyPrefix(MoreText(Some(r)));
    EmptyPrefix("" + MoreText(Some(r)));
    assert ValidTail(t) && TailText(t) == ";" + Text(r);
    assert ValidNameRest(n) && NameRestText(n) == ";" + Text(r);
  }

  lemma NothingLeft()
    ensures IsTail("") && IsNameRest("")
  {
    assert ValidTail(Tail("", None)) && TailText(Tail("", None)) == "";
    assert ValidNameRest(NameRest("", None, None)) && NameRestText(NameRest("", None, None)) == "";
  }

  lemma EqualsThenValue(v: ValueRest)
    requires ValidValueRest(v)
    ensures IsNameRest("=" + ValueRestText(v))
  {
    var n := NameRest("", Some(Assignment(v.beforeValue, v.value, v.tail.after)), v.tail.more);
    var text := Grammar.RenderedValueText(v.value);
    AssignmentAssociates(v.beforeValue, text, v.tail.after, MoreText(v.tail.more));
    EmptyPrefix(AssignmentText(n.assignment) + MoreText(n.more));
    assert ValidNameRest(n) && NameRestText(n) == "=" + ValueRestText(v);
  }

  lemma AssignmentAssociates(a: string, b: string, c: string, d: string)
    ensures ("=" + (a + (b + c))) + d == "=" + (a + (b + (c + d)))
  {
  }

  lemma BlankThenNameRest(c: char, n: NameRest)
    requires IsBlank(c) && ValidNameRest(n)
    ensures IsNameRest([c] + NameRestText(n))
  {
    var longer := n.(afterName := [c] + n.afterName);
    Associates([c], n.afterName, AssignmentText(n.assignment) + MoreText(n.more));
    assert ValidNameRest(longer) && NameRestText(longer) == [c] + NameRestText(n);
  }

  lemma BlankThenValue(c: char, v: ValueRest)
    requires IsBlank(c) && ValidValueRest(v)
    ensures IsValueRest([c] + ValueRestText(v))
  {
    var longer := v.(beforeValue := [c] + v.beforeValue);
    Associates([c], v.beforeValue, Grammar.RenderedValueText(v.value) + TailText(v.tail));
    assert ValidValueRest(longer) && ValueRestText(longer) == [c] + ValueRestText(v);
  }

  lemma TokenIsValue(text: string, t: Tail)
    requires IsToken(text) && ValidTail(t)
    ensures IsValueRest(text + TailText(t))
  {
    var v := ValueRest("", Grammar.AsToken(text), t);
    EmptyPrefix(text + TailText(t));
    assert ValidValueRest(v) && ValueRestText(v) == text + TailText(t);
  }

  lemma QuotedIsValue(chars: seq<Grammar.QuotedChar>, t: Tail)
    requires Grammar.ValidValue(Grammar.AsQuoted(chars)) && ValidTail(t)
    ensures IsValueRest("\"" + (Grammar.QuotedText(chars) + ("\"" + TailText(t))))
  {
    var v := ValueRest("", Grammar.AsQuoted(chars), t);
    ThreeAssociate("\"", Grammar.QuotedText(chars), "\"", TailText(t));
    EmptyPrefix(Grammar.RenderedValueText(v.value) + TailText(t));
    assert ValidValueRest(v) && ValueRestText(v) == "\"" + (Grammar.QuotedText(chars) + ("\"" + TailText(t)));
  }

  lemma PlainThenQuoted(c: char, inner: seq<Grammar.QuotedChar>, t: Tail)
    requires Grammar.ValidValue(Grammar.AsQuoted(inner)) && !IsBackslashRequired(c) && ValidTail(t)
    ensures IsQuotedThenTail([c] + (Grammar.QuotedText(inner) + ("\"" + TailText(t))))
  {
    var chars := [Grammar.Plain(c)] + inner;
    assert chars[1..] == inner;
    Associates([c], Grammar.QuotedText(inner), "\"" + TailText(t));
    assert Grammar.ValidValue(Grammar.AsQuoted(chars)) && Grammar.QuotedText(chars) == [c] + Grammar.QuotedText(inner);
  }

  lemma BackslashedThenQuoted(c: char, inner: seq<Grammar.QuotedChar>, t: Tail)
    requires Grammar.ValidValue(Grammar.AsQuoted(inner)) && ValidTail(t)
    ensures IsQuotedThenTail(['\\'] + ([c] + (Grammar.QuotedText(inner) + ("\"" + TailText(t)))))
  {
    var chars := [Grammar.Backslashed(c)] + inner;
    assert chars[1..] == inner;
    PairAssociates('\\', c, Grammar.QuotedText(inner), "\"" + TailText(t));
    assert Grammar.ValidValue(Grammar.AsQuoted(chars)) && Grammar.QuotedText(chars) == ['\\', c] + Grammar.QuotedText(inner);
  }

  lemma PairAssociates(b: char, c: char, s: string, t: string)
    ensures ([b, c] + s) + t == [b] + ([c] + (s + t))
  {
  }

  // ---------- Whatever is accepted in a state is what can be left to read ----------

  lemma {:induction false} FromPreName(s: string)
    requires Accepts(PreName, s)
    ensures IsList(s)
    decreases |s|, 0
  {
    if s == "" {
      assert Valid(End("")) && Text(End("")) == "";
    } else {
      HeadTail(s);
      if IsTchar(s[0]) {
        FromName(s[1..]);
        var name: string, n: NameRest :| AllTchars(name) && ValidNameRest(n) && name + NameRestText(n) == s[1..];
        Associates([s[0]], name, NameRestText(n));
        NameThenList([s[0]] + name, n);
      } else {
        FromPreName(s[1..]);
        var r: Rendering :| Valid(r) && Text(r) == s[1..];
        BlankThenList(s[0], r);
      }
    }
  }

  lemma {:induction false} FromName(s: string)
    requires Accepts(Name, s)
    ensures IsNameThenRest(s)
    decreases |s|, 1
  {
    if s != "" && IsTchar(s[0]) {
      HeadTail(s);
      FromName(s[1..]);
      var name: string, n: NameRest :| AllTchars(name) && ValidNameRest(n) && name + NameRestText(n) == s[1..];
      Associates([s[0]], name, NameRestText(n));
      assert AllTchars([s[0]] + name);
    } else {
      FromPreDirectiveValue(s);
      var n: NameRest :| ValidNameRest(n) && NameRestText(n) == s;
      EmptyPrefix(s);
      assert AllTchars("") && "" + NameRestText(n) == s;
    }
  }

  lemma {:induction false} FromPreDirectiveValue(s: string)
    requires Accepts(PreDirectiveValue, s)
    ensures IsNameRest(s)
    decreases |s|, 0
  {
    if s == "" {
      NothingLeft();
    } else {
      HeadTail(s);
      if s[0] == '=' {
        FromDirectiveValue(s[1..]);
        var v: ValueRest :| ValidValueRest(v) && ValueRestText(v) == s[1..];
        EqualsThenValue(v);
      } else if s[0] == ';' {
        FromPreName(s[1..]);
        var r: Rendering :| Valid(r) && Text(r) == s[1..];
        SemicolonThenList(r);
      } else {
        FromPreDirectiveValue(s[1..]);
        var n: NameRest :| ValidNameRest(n) && NameRestText(n) == s[1..];
        BlankThenNameRest(s[0], n);
      }
    }
  }

  lemma {:induction false} FromDirectiveValue(s: string)
    requires Accepts(DirectiveValue, s)
    ensures IsValueRest(s)
    decreases |s|, 0
  {
    HeadTail(s);
    if IsTchar(s[0]) {
      FromToken(s[1..]);
      var text: string, t: Tail :| AllTchars(text) && ValidTail(t) && text + TailText(t) == s[1..];
      Associates([s[0]], text, TailText(t));
      TokenIsValue([s[0]] + text, t);
    } else if s[0] == '"' {
      FromQuoted(s[1..]);
      var chars: seq<Grammar.QuotedChar>, t: Tail :|
        Grammar.ValidValue(Grammar.AsQuoted(chars)) && ValidTail(t) && Grammar.QuotedText(chars) + ("\"" + TailText(t)) == s[1..];
      QuotedIsValue(chars, t);
    } else {
      FromDirectiveValue(s[1..]);
      var v: ValueRest :| ValidValueRest(v) && ValueRestText(v) == s[1..];
      BlankThenValue(s[0], v);
    }
  }

  lemma {:induction false} FromToken(s: string)
    requires Accepts(ValueToken, s)
    ensures IsTokenThenTail(s)
    decreases |s|, 1
  {
    if s != "" && IsTchar(s[0]) {
      HeadTail(s);
      FromToken(s[1..]);
      var text: string, t: Tail :| AllTchars(text) && ValidTail(t) && text + TailText(t) == s[1..];
      Associates([s[0]], text, TailText(t));
      assert AllTchars([s[0]] + text);
    } else {
      FromPreDirective(s);
      var t: Tail :| ValidTail(t) && TailText(t) == s;
      EmptyPrefix(s);
      assert AllTchars("") && "" + TailText(t) == s;
    }
  }

  lemma {:induction false} FromPreDirective(s: string)
    requires Accepts(PreDirective, s)
    ensures IsTail(s)
    decreases |s|, 0
  {
    if s == "" {
      NothingLeft();
    } else {
      HeadTail(s);
      if s[0] == ';' {
        FromPreName(s[1..]);
        var r: Rendering :| Valid(r) && Text(r) == s[1..];
        SemicolonThenList(r);
      } else {
        FromPreDirective(s[1..]);
        var t: Tail :| ValidTail(t) && TailText(t) == s[1..];
        BlankThenTail(s[0], t);
      }
    }
  }

  lemma {:induction false} FromQuoted(s: string)
    requires Accepts(ValueQuoted, s)
    ensures IsQuotedThenTail(s)
    decreases |s|, 0
  {
    HeadTail(s);
    if s[0] == '"' {
      FromPreDirective(s[1..]);
      var t: Tail :| ValidTail(t) && TailText(t) == s[1..];
      EmptyPrefix(s);
      assert Grammar.ValidValue(Grammar.AsQuoted([])) && Grammar.QuotedText([]) + ("\"" + TailText(t)) == s;
    } else {
      var escaped := s[0] == '\\';
      var more := if escaped then s[1..][1..] else s[1..];
      if escaped {
        HeadTail(s[1..]);
      }
      FromQuoted(more);
      var inner: seq<Grammar.QuotedChar>, t: Tail :|
        Grammar.ValidValue(Grammar.AsQuoted(inner)) && ValidTail(t) && Grammar.QuotedText(inner) + ("\"" + TailText(t)) == more;
      if escaped {
        BackslashedThenQuoted(s[1], inner, t);
      } else {
        PlainThenQuoted(s[0], inner, t);
      }
    }
  }

  /** The parser accepts exactly the renderings, and decodes each to the list it renders. */
  lemma AcceptedIffRendering(header: string, values: Directives)
    ensures ReadDirectives(header) == Ok(values) <==>
            exists r: Rendering :: Valid(r) && Text(r) == header && Meaning(r) == values
  {
    if ReadDirectives(header) == Ok(values) {
      AcceptsControl(BEGIN, header);
      FromPreName(header);
      var r: Rendering :| Valid(r) && Text(r) == header;
      ReadDirectivesRendering(r);
    }
    forall r: Rendering | Valid(r) && Text(r) == header && Meaning(r) == values {
      ReadDirectivesRendering(r);
    }
  }
}
