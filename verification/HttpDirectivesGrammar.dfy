/** The language parse_directives_header reads, as a grammar with every optional blank, the trailing semicolon and every
    quoting choice made explicit, and that every rendering reads as its list. */
module HttpDirectivesGrammar {
  import opened Results
  import opened Sequences
  import opened HttpTokens
  import Grammar = HttpTokensGrammar
  import opened HttpDirectives
  import opened HttpDirectivesProofs

  // ---------- The grammar ----------

  /** "=" beforeValue value after */
  datatype Assignment = Assignment(beforeValue: string, value: Grammar.RenderedValue, after: string)

  /** before name afterName, and an assignment if there is one */
  datatype RenderedDirective = RenderedDirective(before: string, name: string, afterName: string, assignment: Option<Assignment>)

  /** Directives with semicolons between them; the last may have one too. */
  datatype Rendering =
    | End(blanks: string)
    | Last(directive: RenderedDirective)
    | Then(directive: RenderedDirective, rest: Rendering)

  ghost function AssignmentText(assignment: Option<Assignment>): string {
    match assignment
    case None => ""
    case Some(a) => "=" + (a.beforeValue + (Grammar.RenderedValueText(a.value) + a.after))
  }

  ghost function RenderedText(d: RenderedDirective): string {
    d.before + (d.name + (d.afterName + AssignmentText(d.assignment)))
  }

  ghost function Text(r: Rendering): string {
    match r
    case End(blanks) => blanks
    case Last(d) => RenderedText(d)
    case Then(d, rest) => RenderedText(d) + (";" + Text(rest))
  }

  ghost predicate ValidAssignment(assignment: Option<Assignment>) {
    match assignment
    case None => true
    case Some(a) => Grammar.Blanks(a.beforeValue) && Grammar.ValidValue(a.value) && Grammar.Blanks(a.after)
  }

  ghost predicate ValidDirective(d: RenderedDirective) {
    Grammar.Blanks(d.before) && IsToken(d.name) && Grammar.Blanks(d.afterName) && ValidAssignment(d.assignment)
  }

  ghost predicate Valid(r: Rendering) {
    match r
    case End(blanks) => Grammar.Blanks(blanks)
    case Last(d) => ValidDirective(d)
    case Then(d, rest) => ValidDirective(d) && Valid(rest)
  }

  /** The directive that is rendered; without an assignment its value is empty. */
  ghost function DirectiveMeaning(d: RenderedDirective): Directive {
    Directive(d.name, if d.assignment.Some? then Grammar.ValueMeaning(d.assignment.value.value) else "")
  }

  ghost function Meaning(r: Rendering): Directives {
    match r
    case End(_) => []
    case Last(d) => [DirectiveMeaning(d)]
    case Then(d, rest) => [DirectiveMeaning(d)] + Meaning(rest)
  }

  // ---------- Every rendering is read as its list ----------

  ghost function Reached(p: Reader, s: string): Option<Reader> {
    if p.Sound() && p.Run(s).Ok? then Some(p.Run(s).value) else None
  }

  /** From `p`, the text `s` leads to `q`. */
  ghost predicate Leads(p: Reader, s: string, q: Reader) {
    Reached(p, s) == Some(q)
  }

  lemma LeadsAppend(p: Reader, s: string, q: Reader, t: string, r: Reader)
    requires Leads(p, s, q) && Leads(q, t, r)
    ensures Leads(p, s + t, r)
  {
    RunAppend(p, s, t);
  }

  lemma LeadsStep(p: Reader, c: char, q: Reader, s: string, r: Reader)
    requires p.Sound() && p.Step(c) == Ok(q) && Leads(q, s, r)
    ensures Leads(p, [c] + s, r)
  {
    assert ([c] + s)[1..] == s;
  }

  lemma {:induction false} Stays(p: Reader, blanks: string)
    requires p.Sound() && Grammar.Blanks(blanks)
    requires p.state.PreDirective? || p.state.PreName? || p.state.PreDirectiveValue? || p.state.DirectiveValue?
    ensures Leads(p, blanks, p)
    decreases |blanks|
  {
    if blanks != "" {
      assert blanks[0] in blanks && forall c <- blanks[1..] :: c in blanks;
      Stays(p, blanks[1..]);
      LeadsStep(p, blanks[0], p, blanks[1..], p);
      HeadTail(blanks);
    }
  }

  /** The list the parser has read, if a semicolon could follow here. */
  ghost function Settled(p: Reader): Option<Directives> {
    if p.Sound() && !p.state.PreName? && p.Finish().Ok? then Some(p.Finish().value) else None
  }

  lemma SettledStep(p: Reader, values: Directives, c: char)
    requires Settled(p) == Some(values)
    ensures c == ';' ==> p.Step(c) == Ok(Reader(PreName, "", values))
    ensures IsBlank(c) ==> p.Step(c).Ok? && Settled(p.Step(c).value) == Some(values) && !p.Step(c).value.state.Name?
                           && !p.Step(c).value.state.ValueToken?
  {
  }

  lemma SettledBlanks(p: Reader, values: Directives, blanks: string) returns (q: Reader)
    requires Settled(p) == Some(values) && Grammar.Blanks(blanks)
    ensures (Reached(p, blanks), Settled(q)) == (Some(q), Some(values))
  {
    if blanks == "" {
      q := p;
    } else {
      assert blanks[0] in blanks && forall c <- blanks[1..] :: c in blanks;
      SettledStep(p, values, blanks[0]);
      q := p.Step(blanks[0]).value;
      Stays(q, blanks[1..]);
      LeadsStep(p, blanks[0], q, blanks[1..], q);
      HeadTail(blanks);
    }
  }

  /** The parser in quotes, or behind the quoted part of a value. */
  ghost function Quoting(state: Reading, before: Directives, name: string, value: string): Reader {
    Reader(state, "", before + [Directive(name, value)])
  }

  lemma QuotingExtended(state: Reading, before: Directives, name: string, value: string, c: char)
    ensures Quoting(state, before, name, value).Extended(c) == before + [Directive(name, value + [c])]
  {
  }

  lemma ReadQuotedChar(before: Directives, name: string, value: string, quoted: Grammar.QuotedChar)
    requires (forall d <- before :: IsToken(d.name)) && IsToken(name) && (quoted.Plain? ==> !IsBackslashRequired(quoted.c))
    ensures Leads(Quoting(ValueQuoted, before, name, value), if quoted.Plain? then [quoted.c] else ['\\', quoted.c],
                  Quoting(ValueQuoted, before, name, value + [quoted.c]))
  {
    var p, next := Quoting(ValueQuoted, before, name, value), Quoting(ValueQuoted, before, name, value + [quoted.c]);
    var escape := Quoting(ValueEscape, before, name, value);
    QuotingExtended(ValueQuoted, before, name, value, quoted.c);
    QuotingExtended(ValueEscape, before, name, value, quoted.c);
    if quoted.Plain? {
      RunOne(p, quoted.c);
    } else {
      RunOne(escape, quoted.c);
      LeadsStep(p, '\\', escape, [quoted.c], next);
      assert ['\\', quoted.c] == ['\\'] + [quoted.c];
    }
  }

  lemma {:induction false} ReadQuoted(before: Directives, name: string, value: string, chars: seq<Grammar.QuotedChar>)
    requires (forall d <- before :: IsToken(d.name)) && IsToken(name) && Grammar.ValidValue(Grammar.AsQuoted(chars))
    ensures Leads(Quoting(ValueQuoted, before, name, value), Grammar.QuotedText(chars),
                  Quoting(ValueQuoted, before, name, value + Grammar.QuotedMeaning(chars)))
    decreases |chars|
  {
    if chars == [] {
      assert value + "" == value;
    } else {
      var c, rest := chars[0].c, chars[1..];
      ReadQuotedChar(before, name, value, chars[0]);
      ReadQuoted(before, name, value + [c], rest);
      Associates(value, [c], Grammar.QuotedMeaning(rest));
      LeadsAppend(Quoting(ValueQuoted, before, name, value), if chars[0].Plain? then [c] else ['\\', c],
                  Quoting(ValueQuoted, before, name, value + [c]), Grammar.QuotedText(rest),
                  Quoting(ValueQuoted, before, name, value + Grammar.QuotedMeaning(chars)));
    }
  }

  lemma ReadTokenValue(before: Directives, name: string, text: string)
    requires (forall d <- before :: IsToken(d.name)) && IsToken(name) && IsToken(text)
    ensures Leads(Quoting(DirectiveValue, before, name, ""), text, Quoting(ValueToken, before, name, text))
  {
    assert text[0] in text && forall c <- text[1..] :: c in text;
    FirstOfTokenStep(before, name, text[0]);
    RunToken(before, name, [text[0]], text[1..]);
    HeadTail(text);
    LeadsStep(Quoting(DirectiveValue, before, name, ""), text[0], Quoting(ValueToken, before, name, [text[0]]), text[1..],
              Quoting(ValueToken, before, name, text));
  }

  lemma ReadQuotedValue(before: Directives, name: string, chars: seq<Grammar.QuotedChar>)
    requires (forall d <- before :: IsToken(d.name)) && IsToken(name) && Grammar.ValidValue(Grammar.AsQuoted(chars))
    ensures Leads(Quoting(DirectiveValue, before, name, ""), "\"" + (Grammar.QuotedText(chars) + "\""),
                  Quoting(PreDirective, before, name, Grammar.QuotedMeaning(chars)))
  {
    var open, end := Quoting(ValueQuoted, before, name, ""), Quoting(ValueQuoted, before, name, Grammar.QuotedMeaning(chars));
    var q := Quoting(PreDirective, before, name, Grammar.QuotedMeaning(chars));
    ReadQuoted(before, name, "", chars);
    EmptyPrefix(Grammar.QuotedMeaning(chars));
    RunOne(end, '"');
    LeadsAppend(open, Grammar.QuotedText(chars), end, "\"", q);
    LeadsStep(Quoting(DirectiveValue, before, name, ""), '"', open, Grammar.QuotedText(chars) + "\"", q);
  }

  lemma ReadValue(before: Directives, name: string, value: Grammar.RenderedValue) returns (q: Reader)
    requires (forall d <- before :: IsToken(d.name)) && IsToken(name) && Grammar.ValidValue(value)
    ensures (Reached(Quoting(DirectiveValue, before, name, ""), Grammar.RenderedValueText(value)), Settled(q)) ==
            (Some(q), Some(before + [Directive(name, Grammar.ValueMeaning(value))]))
  {
    match value
    case AsToken(text) =>
      ReadTokenValue(before, name, text);
      q := Quoting(ValueToken, before, name, text);
    case AsQuoted(chars) =>
      ReadQuotedValue(before, name, chars);
      q := Quoting(PreDirective, before, name, Grammar.QuotedMeaning(chars));
  }

  lemma ReadAssigned(p: Reader, before: Directives, name: string, a: Assignment) returns (q: Reader)
    requires (forall d <- before :: IsToken(d.name)) && IsToken(name) && ValidAssignment(Some(a))
    requires p.Sound() && p.Step('=') == Ok(Quoting(DirectiveValue, before, name, ""))
    ensures (Reached(p, AssignmentText(Some(a))), Settled(q)) ==
            (Some(q), Some(before + [Directive(name, Grammar.ValueMeaning(a.value))]))
  {
    var start := Quoting(DirectiveValue, before, name, "");
    var end := ReadValue(before, name, a.value);
    q := SettledBlanks(end, before + [Directive(name, Grammar.ValueMeaning(a.value))], a.after);
    Stays(start, a.beforeValue);
    LeadsAppend(start, Grammar.RenderedValueText(a.value), end, a.after, q);
    LeadsAppend(start, a.beforeValue, start, Grammar.RenderedValueText(a.value) + a.after, q);
    LeadsStep(p, '=', start, a.beforeValue + (Grammar.RenderedValueText(a.value) + a.after), q);
  }

  lemma EqualsBehindName(p: Reader, before: Directives, name: string)
    requires p == Reader(Name, name, before) || p == Quoting(PreDirectiveValue, before, name, "")
    requires p.Sound() && IsToken(name)
    ensures p.Step('=') == Ok(Quoting(DirectiveValue, before, name, "")) && Settled(p) == Some(before + [Directive(name, "")])
  {
  }

  lemma ReadAfterName(before: Directives, name: string, blanks: string) returns (q: Reader)
    requires (forall d <- before :: IsToken(d.name)) && IsToken(name) && Grammar.Blanks(blanks)
    ensures Leads(Reader(Name, name, before), blanks, q)
    ensures q == Reader(Name, name, before) || q == Quoting(PreDirectiveValue, before, name, "")
  {
    var p := Reader(Name, name, before);
    if blanks == "" {
      q := p;
    } else {
      q := Quoting(PreDirectiveValue, before, name, "");
      assert blanks[0] in blanks && forall c <- blanks[1..] :: c in blanks;
      assert p.Step(blanks[0]) == Ok(q);
      Stays(q, blanks[1..]);
      LeadsStep(p, blanks[0], q, blanks[1..], q);
      HeadTail(blanks);
    }
  }

  lemma ReadBehindName(before: Directives, d: RenderedDirective) returns (q: Reader)
    requires (forall x <- before :: IsToken(x.name)) && ValidDirective(d)
    ensures (Reached(Reader(Name, d.name, before), d.afterName + AssignmentText(d.assignment)), Settled(q)) ==
            (Some(q), Some(before + [DirectiveMeaning(d)]))
  {
    var p := Reader(Name, d.name, before);
    var named := ReadAfterName(before, d.name, d.afterName);
    EqualsBehindName(named, before, d.name);
    if d.assignment == None {
      q := named;
      assert d.afterName + "" == d.afterName;
    } else {
      q := ReadAssigned(named, before, d.name, d.assignment.value);
      LeadsAppend(p, d.afterName, named, AssignmentText(d.assignment), q);
    }
  }

  lemma ReadRendered(before: Directives, d: RenderedDirective) returns (q: Reader)
    requires (forall x <- before :: IsToken(x.name)) && ValidDirective(d)
    ensures (Reached(Reader(PreName, "", before), RenderedText(d)), Settled(q)) == (Some(q), Some(before + [DirectiveMeaning(d)]))
  {
    var p, named := Reader(PreName, "", before), Reader(Name, d.name, before);
    Stays(p, d.before);
    RunWholeName(before, d.name);
    q := ReadBehindName(before, d);
    LeadsAppend(p, d.name, named, d.afterName + AssignmentText(d.assignment), q);
    LeadsAppend(p, d.before, p, d.name + (d.afterName + AssignmentText(d.assignment)), q);
  }

  /** The list at the end of a text, read on from `p`. */
  ghost function ReadFrom(p: Reader, s: string): Result<Directives, ()>
    requires p.Sound()
  {
    var end :- p.Run(s);
    end.Finish()
  }

  lemma ReadThen(before: Directives, d: RenderedDirective, rest: string)
    requires (forall x <- before :: IsToken(x.name)) && ValidDirective(d)
    ensures ReadFrom(Reader(PreName, "", before), RenderedText(d)) == Ok(before + [DirectiveMeaning(d)])
    ensures ReadFrom(Reader(PreName, "", before), RenderedText(d) + (";" + rest)) ==
            ReadFrom(Reader(PreName, "", before + [DirectiveMeaning(d)]), rest)
  {
    var q := ReadRendered(before, d);
    SettledStep(q, before + [DirectiveMeaning(d)], ';');
    RunAppend(Reader(PreName, "", before), RenderedText(d), ";" + rest);
    assert (";" + rest)[1..] == rest;
  }

  lemma {:induction false} ReadRendering(before: Directives, r: Rendering)
    requires (forall x <- before :: IsToken(x.name)) && Valid(r)
    ensures ReadFrom(Reader(PreName, "", before), Text(r)) == Ok(before + Meaning(r))
    decreases r
  {
    match r
    case End(blanks) =>
      Stays(Reader(PreName, "", before), blanks);
      assert before + [] == before;
    case Last(d) => ReadThen(before, d, "");
    case Then(d, rest) =>
      ReadThen(before, d, Text(rest));
      ReadRendering(before + [DirectiveMeaning(d)], rest);
      Associates(before, [DirectiveMeaning(d)], Meaning(rest));
  }

  /** Every rendering of a list is read as that list. */
  lemma ReadDirectivesRendering(r: Rendering)
    requires Valid(r)
    ensures ReadDirectives(Text(r)) == Ok(Meaning(r))
  {
    ReadRendering([], r);
    EmptyPrefix(Meaning(r));
  }
}
