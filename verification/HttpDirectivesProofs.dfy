/** The parser of directives reads quoted values, and the printer never writes any, so only some lists survive the
    trip: which ones follows from counting what the parser must have consumed. */
module HttpDirectivesProofs {
  import opened Results
  import opened Sequences
  import opened HttpTokens
  import opened HttpDirectives

  // ---------- What the parser must have consumed ----------

  /** Nothing, or something that need not be quoted. */
  ghost predicate Bare(value: string) {
    value == "" || IsToken(value)
  }

  /** The fewest characters a directive can be read from, with the semicolon behind it: a value that is not a
      token costs its quotes. */
  ghost function Cost(d: Directive): nat {
    |d.name| + 1 + (if d.value == "" then 0 else 1 + |d.value|) + (if Bare(d.value) then 0 else 2)
  }

  ghost function Costs(values: Directives): nat {
    if values == [] then 0 else Costs(values[..|values| - 1]) + Cost(values[|values| - 1])
  }

  lemma CostsLast(values: Directives, d: Directive)
    ensures Costs(values + [d]) == Costs(values) + Cost(d)
  {
    assert (values + [d])[..|values|] == values;
  }

  /** The fewest characters that lead to this state. */
  ghost function Consumed(p: Reader): int
    requires p.Sound()
  {
    var n := |p.result|;
    match p.state
    case PreName => Costs(p.result)
    case Name => Costs(p.result) + |p.name|
    case DirectiveValue => Costs(p.result)
    case ValueQuoted => Costs(p.result[..n - 1]) + |p.result[n - 1].name| + |p.result[n - 1].value| + 2
    case ValueEscape => Costs(p.result[..n - 1]) + |p.result[n - 1].name| + |p.result[n - 1].value| + 3
    case _ => Costs(p.result) - 1
  }

  lemma ExtendedCosts(p: Reader, c: char)
    requires p.result != []
    ensures var n, grown := |p.result|, p.Extended(c);
            && |grown| == n && grown[..n - 1] == p.result[..n - 1]
            && grown[n - 1] == Directive(p.result[n - 1].name, p.result[n - 1].value + [c])
            && Costs(grown) == Costs(p.result[..n - 1]) + Cost(grown[n - 1])
  {
    var n := |p.result|;
    CostsLast(p.result[..n - 1], p.Extended(c)[n - 1]);
  }

  lemma NameStepConsumes(p: Reader, c: char)
    requires p.Sound() && p.state.Name? && p.Step(c).Ok?
    ensures Consumed(p.Step(c).value) <= Consumed(p) + 1
  {
    CostsLast(p.result, Directive(p.name, ""));
  }

  lemma LastCosts(values: Directives)
    requires values != []
    ensures Costs(values) == Costs(values[..|values| - 1]) + Cost(values[|values| - 1])
  {
  }

  lemma TokenStepConsumes(p: Reader, c: char)
    requires p.Sound() && (p.state.DirectiveValue? || p.state.ValueToken?) && p.Step(c).Ok?
    ensures Consumed(p.Step(c).value) <= Consumed(p) + 1
  {
    LastCosts(p.result);
    ExtendedCosts(p, c);
  }

  lemma QuotedStepConsumes(p: Reader, c: char)
    requires p.Sound() && (p.state.ValueQuoted? || p.state.ValueEscape?) && p.Step(c).Ok?
    ensures Consumed(p.Step(c).value) <= Consumed(p) + 1
  {
    LastCosts(p.result);
    ExtendedCosts(p, c);
  }

  /** Each character leads at most one further. */
  lemma StepConsumes(p: Reader, c: char)
    requires p.Sound() && p.Step(c).Ok?
    ensures Consumed(p.Step(c).value) <= Consumed(p) + 1
  {
    if p.state.Name? {
      NameStepConsumes(p, c);
    } else if p.state.DirectiveValue? || p.state.ValueToken? {
      TokenStepConsumes(p, c);
    } else if p.HasValue() {
      QuotedStepConsumes(p, c);
    }
  }

  lemma {:induction false} RunConsumes(p: Reader, s: string)
    requires p.Sound() && p.Run(s).Ok?
    ensures Consumed(p.Run(s).value) <= Consumed(p) + |s|
    decreases |s|
  {
    if s != "" {
      StepConsumes(p, s[0]);
      RunConsumes(p.Step(s[0]).value, s[1..]);
    }
  }

  /** A header that is read as a list has a character for each of its names, values and separators, and two more for
      each value that is not a token. */
  lemma AcceptedLength(header: string)
    requires ReadDirectives(header).Ok?
    ensures Costs(ReadDirectives(header).value) <= |header| + 1
  {
    RunConsumes(BEGIN, header);
    var end := BEGIN.Run(header).value;
    if end.state.Name? {
      CostsLast(end.result, Directive(end.name, ""));
    }
  }

  lemma TextLast(before: Directives, d: Directive)
    ensures DirectivesText(before + [d]) ==
            DirectivesText(before) + ((if DirectivesText(before) == "" then "" else ";") + DirectiveText(d))
  {
    assert (before + [d])[..|before|] == before;
  }

  /** Shorter than what a list costs by its last semicolon, and, with a value that is not bare, by more than that. */
  ghost predicate PrintedShort(values: Directives) {
    && DirectivesText(values) != ""
    && |DirectivesText(values)| < Costs(values)
    && ((exists d <- values :: !Bare(d.value)) ==> |DirectivesText(values)| + 1 < Costs(values))
  }

  lemma PrintedShortLast(before: Directives, d: Directive)
    requires IsToken(d.name) && (before == [] || PrintedShort(before))
    ensures PrintedShort(before + [d])
  {
    TextLast(before, d);
    CostsLast(before, d);
    assert forall x <- before + [d] :: x in before || x == d;
  }

  lemma {:induction false} PrintedLength(values: Directives)
    requires values != [] && forall d <- values :: IsToken(d.name)
    ensures PrintedShort(values)
    decreases |values|
  {
    var n := |values| - 1;
    assert values[n] in values && forall d <- values[..n] :: d in values;
    assert values == values[..n] + [values[n]];
    if n > 0 {
      PrintedLength(values[..n]);
    }
    PrintedShortLast(values[..n], values[n]);
  }

  // ---------- Reading what was printed ----------

  lemma {:induction false} RunAppend(p: Reader, a: string, b: string)
    requires p.Sound() && p.Run(a).Ok?
    ensures p.Run(a + b) == p.Run(a).value.Run(b)
    decreases |a|
  {
    if a == "" {
      EmptyPrefix(b);
    } else {
      assert (a + b)[0] == a[0] && (a + b)[1..] == a[1..] + b;
      RunAppend(p.Step(a[0]).value, a[1..], b);
    }
  }

  lemma RunOne(p: Reader, c: char)
    requires p.Sound()
    ensures p.Run([c]) == p.Step(c)
  {
    assert [c][1..] == "";
  }

  lemma {:induction false} RunName(p: Reader, name: string)
    requires p.Sound() && p.state.Name? && AllTchars(name)
    ensures p.Run(name) == Ok(p.(name := p.name + name))
    decreases |name|
  {
    if name == "" {
      assert p.name + name == p.name;
    } else {
      assert name[0] in name && forall c <- name[1..] :: c in name;
      var next := p.Step(name[0]).value;
      RunName(next, name[1..]);
      assert next.name + name[1..] == p.name + name;
    }
  }

  lemma RunWholeName(result: Directives, name: string)
    requires (forall d <- result :: IsToken(d.name)) && IsToken(name)
    ensures Reader(PreName, "", result).Run(name) == Ok(Reader(Name, name, result))
  {
    assert name[0] in name && forall c <- name[1..] :: c in name;
    EmptyPrefix([name[0]]);
    RunName(Reader(Name, [name[0]], result), name[1..]);
    HeadTail(name);
  }

  lemma {:induction false} RunToken(result: Directives, name: string, value: string, rest: string)
    requires (forall d <- result :: IsToken(d.name)) && IsToken(name) && IsToken(value) && AllTchars(rest)
    ensures Reader(ValueToken, "", result + [Directive(name, value)]).Run(rest) ==
            Ok(Reader(ValueToken, "", result + [Directive(name, value + rest)]))
    decreases |rest|
  {
    if rest == "" {
      assert value + rest == value;
    } else {
      assert rest[0] in rest && forall c <- rest[1..] :: c in rest;
      var p := Reader(ValueToken, "", result + [Directive(name, value)]);
      assert p.Extended(rest[0]) == result + [Directive(name, value + [rest[0]])];
      RunToken(result, name, value + [rest[0]], rest[1..]);
      HeadTail(rest);
      Associates(value, [rest[0]], rest[1..]);
    }
  }

  /** Where the parser is when it has read a list up to the end of its last directive. */
  ghost function Behind(before: Directives, d: Directive): Reader {
    if d.value == "" then Reader(Name, d.name, before) else Reader(ValueToken, "", before + [d])
  }

  lemma EqualsStep(before: Directives, name: string)
    requires (forall d <- before :: IsToken(d.name)) && IsToken(name)
    ensures Reader(Name, name, before).Step('=') == Ok(Reader(DirectiveValue, "", before + [Directive(name, "")]))
  {
  }

  lemma FirstOfTokenStep(before: Directives, name: string, first: char)
    requires (forall d <- before :: IsToken(d.name)) && IsToken(name) && IsTchar(first)
    ensures Reader(DirectiveValue, "", before + [Directive(name, "")]).Step(first) ==
            Ok(Reader(ValueToken, "", before + [Directive(name, [first])]))
  {
    var p := Reader(DirectiveValue, "", before + [Directive(name, "")]);
    EmptyPrefix([first]);
    assert p.Extended(first) == before + [Directive(name, [first])];
  }

  lemma RunTwo(p: Reader, a: char, b: char, rest: string)
    requires p.Sound() && p.Step(a).Ok? && p.Step(a).value.Step(b).Ok?
    ensures p.Run([a] + ([b] + rest)) == p.Step(a).value.Step(b).value.Run(rest)
  {
    assert ([a] + ([b] + rest))[1..] == [b] + rest && ([b] + rest)[1..] == rest;
  }

  lemma RunValue(before: Directives, name: string, value: string)
    requires (forall d <- before :: IsToken(d.name)) && IsToken(name) && IsToken(value)
    ensures Reader(Name, name, before).Run("=" + value) == Ok(Reader(ValueToken, "", before + [Directive(name, value)]))
  {
    var first, rest := value[0], value[1..];
    assert first in value && forall c <- rest :: c in value;
    HeadTail(value);
    EqualsStep(before, name);
    FirstOfTokenStep(before, name, first);
    RunTwo(Reader(Name, name, before), '=', first, rest);
    RunToken(before, name, [first], rest);
  }

  /** Something the printer can write: a token for a name, and a value that needs no quotes. */
  ghost predicate PrintableOne(d: Directive) {
    IsToken(d.name) && Bare(d.value)
  }

  ghost predicate Printable(values: Directives) {
    forall d <- values :: PrintableOne(d)
  }

  lemma RunDirective(before: Directives, d: Directive)
    requires (forall d <- before :: IsToken(d.name)) && PrintableOne(d)
    ensures Reader(PreName, "", before).Run(DirectiveText(d)) == Ok(Behind(before, d))
  {
    RunWholeName(before, d.name);
    if d.value == "" {
      assert DirectiveText(d) == d.name;
    } else {
      RunAppend(Reader(PreName, "", before), d.name, "=" + d.value);
      RunValue(before, d.name, d.value);
    }
  }

  lemma SemicolonStep(before: Directives, last: Directive)
    requires (forall d <- before :: IsToken(d.name)) && PrintableOne(last)
    ensures Behind(before, last).Step(';') == Ok(Reader(PreName, "", before + [last]))
  {
  }

  /** The next directive, behind a list that has been read. */
  lemma RunNext(text: string, before: Directives, last: Directive, d: Directive)
    requires (forall x <- before :: IsToken(x.name)) && PrintableOne(last) && PrintableOne(d)
    requires BEGIN.Run(text) == Ok(Behind(before, last))
    ensures BEGIN.Run(text + (";" + DirectiveText(d))) == Ok(Behind(before + [last], d))
  {
    SemicolonStep(before, last);
    RunDirective(before + [last], d);
    RunAppend(BEGIN, text, ";" + DirectiveText(d));
    assert (";" + DirectiveText(d))[1..] == DirectiveText(d);
  }

  lemma {:induction false} RunPrinted(before: Directives, d: Directive)
    requires Printable(before) && PrintableOne(d)
    ensures BEGIN.Run(DirectivesText(before + [d])) == Ok(Behind(before, d))
    decreases |before|
  {
    TextLast(before, d);
    if before == [] {
      RunDirective([], d);
      EmptyPrefix(DirectiveText(d));
      EmptyPrefix("" + DirectiveText(d));
    } else {
      var n := |before| - 1;
      var front, last := before[..n], before[n];
      assert last in before && forall x <- front :: x in before;
      assert front + [last] == before;
      RunPrinted(front, last);
      PrintedLength(before);
      RunNext(DirectivesText(before), front, last, d);
    }
  }

  lemma PrintedIsRead(values: Directives)
    requires Printable(values)
    ensures ReadDirectives(DirectivesText(values)) == Ok(values)
  {
    if values != [] {
      var n := |values| - 1;
      assert values[..n] + [values[n]] == values;
      assert values[n] in values && forall d <- values[..n] :: d in values;
      RunPrinted(values[..n], values[n]);
    }
  }

  // ---------- Exactly which lists survive ----------

  /** A list of directives survives printing and parsing exactly when its names are tokens and its values are empty
      or tokens; a value that would need quotes never comes back, however the text is read. */
  lemma DirectivesSurviveIffPrintable(values: Directives)
    ensures ReadDirectives(DirectivesText(values)) == Ok(values) <==> Printable(values)
  {
    if Printable(values) {
      PrintedIsRead(values);
    } else if ReadDirectives(DirectivesText(values)) == Ok(values) {
      AcceptedLength(DirectivesText(values));
      PrintedLength(values);
    }
  }

  /** Printing what was parsed loses something exactly when a value had to be quoted. */
  lemma ReprintingIffBare(header: string)
    requires ReadDirectives(header).Ok?
    ensures var values := ReadDirectives(header).value;
            ReadDirectives(DirectivesText(values)) == ReadDirectives(header) <==> forall d <- values :: Bare(d.value)
  {
    DirectivesSurviveIffPrintable(ReadDirectives(header).value);
  }
}
