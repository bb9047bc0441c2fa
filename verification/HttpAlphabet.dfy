/** The characters of names and values in headers, as section 3.2.6 of RFC 7230 has them: visible US-ASCII characters
    that are no delimiters. What the headers' printers and parsers do, said in those characters. */
module HttpAlphabet {
  import opened Results
  import opened Sequences
  import opened HttpTokens
  import HttpTokensPrinting
  import opened HttpDirectives
  import opened HttpDirectivesProofs

  ghost predicate IsVisible(c: char) {
    0x21 <= c as int <= 0x7E && c !in "\"(),/:;<=>?@[\\]{}"
  }

  ghost predicate IsVisibleToken(s: string) {
    s != "" && forall c <- s :: IsVisible(c)
  }

  lemma TcharIsVisible(c: char)
    ensures IsTchar(c) <==> IsVisible(c)
  {
    if 0x21 <= c as int <= 0x7E {
      assert c == c as int as char;
    }
  }

  lemma TokenIsVisible(s: string)
    ensures IsToken(s) <==> IsVisibleToken(s)
  {
    forall c
      ensures IsTchar(c) <==> IsVisible(c)
    {
      TcharIsVisible(c);
    }
  }

  /** A header of one character: a name, nothing for a comma, a space and a tab, and an error for any other. */
  lemma SingleCharacterHeader(c: char)
    ensures var r := HttpTokens.Parse([c]);
            if IsVisible(c) then r == Ok([Ptoken([c], [])])
            else if c == ',' || c as int == 0x20 || c as int == 0x09 then r == Ok([])
            else r.Err?
  {
    TcharIsVisible(c);
    assert [c][1..] == "" && "" + [c] == [c] && [] + [Ptoken([c], [])] == [Ptoken([c], [])];
    var step := HttpTokens.START.Step(c);
    if step.Ok? {
      assert HttpTokens.START.Run([c]) == step.value.Run("");
    }
  }

  lemma SingleCharacterDirectives(c: char)
    ensures var r := ReadDirectives([c]);
            if IsVisible(c) then r == Ok([Directive([c], "")])
            else if c as int == 0x20 || c as int == 0x09 then r == Ok([])
            else r.Err?
  {
    TcharIsVisible(c);
    assert "" + [c] == [c] && [] + [Directive([c], "")] == [Directive([c], "")];
    RunOne(BEGIN, c);
  }

  /** A parameter value is printed as it is exactly if all its characters are such, and there is one. */
  lemma PrintedBareIffVisible(value: string)
    ensures HttpTokens.ValueText(value) == value <==> IsVisibleToken(value)
  {
    TokenIsVisible(value);
    if !IsToken(value) {
      NotShorter(value);
      assert |HttpTokens.ValueText(value)| > |value|;
    }
  }

  lemma {:induction false} NotShorter(value: string)
    ensures |HttpTokens.Escaped(value)| >= |value|
  {
    if value != "" {
      NotShorter(value[1..]);
    }
  }

  /** The lists that survive printing and parsing, in the characters of their names. */
  lemma HeaderSurvivesIffVisible(values: Ptokens)
    ensures HttpTokens.Parse(HeaderText(values)) == Ok(values) <==>
            forall v <- values :: IsVisibleToken(v.name) && forall p <- v.params :: IsVisibleToken(p.name)
  {
    HttpTokensPrinting.HeaderSurvivesIffWellFormed(values);
    forall s: string
      ensures IsToken(s) <==> IsVisibleToken(s)
    {
      TokenIsVisible(s);
    }
  }

  lemma DirectivesSurviveIffVisible(values: Directives)
    ensures ReadDirectives(DirectivesText(values)) == Ok(values) <==>
            forall d <- values :: IsVisibleToken(d.name) && (d.value == "" || IsVisibleToken(d.value))
  {
    DirectivesSurviveIffPrintable(values);
    forall s: string
      ensures IsToken(s) <==> IsVisibleToken(s)
    {
      TokenIsVisible(s);
    }
  }

  // ---------- What the printers write ----------

  ghost function JoinedBy(separator: string, texts: seq<string>): string {
    if texts == [] then ""
    else if |texts| == 1 then texts[0]
    else JoinedBy(separator, texts[..|texts| - 1]) + separator + texts[|texts| - 1]
  }

  /** A value as it is if it can be, and otherwise in quotes, with backslashes in front of quotes and backslashes. */
  ghost function ValueWritten(value: string): string {
    if IsVisibleToken(value) then value else ['"'] + WithBackslashes(value) + ['"']
  }

  ghost function WithBackslashes(value: string): string {
    if value == "" then ""
    else
      var c := value[|value| - 1];
      WithBackslashes(value[..|value| - 1]) + if c == '"' || c == '\\' then ['\\', c] else [c]
  }

  ghost function PtokenWritten(v: Ptoken): seq<string> {
    [v.name] + seq(|v.params|, i requires 0 <= i < |v.params| => v.params[i].name + "=" + ValueWritten(v.params[i].value))
  }

  ghost function DirectiveWritten(d: Directive): string {
    if d.value == "" then d.name else d.name + "=" + d.value
  }

  lemma {:induction false} EscapedIsWithBackslashes(value: string)
    ensures HttpTokens.Escaped(value) == WithBackslashes(value)
    decreases |value|
  {
    if value != "" {
      var n := |value| - 1;
      InitLast(value);
      EscapedIsWithBackslashes(value[..n]);
      HttpTokens.EscapedAppend(value[..n], value[n]);
    }
  }

  lemma ValueTextIsWritten(value: string)
    ensures HttpTokens.ValueText(value) == ValueWritten(value)
  {
    TokenIsVisible(value);
    EscapedIsWithBackslashes(value);
  }

  lemma PtokenGrows(name: string, params: seq<Param>, last: Param)
    ensures PtokenWritten(Ptoken(name, params + [last])) ==
            PtokenWritten(Ptoken(name, params)) + [last.name + "=" + ValueWritten(last.value)]
  {
  }

  lemma JoinedGrows(separator: string, texts: seq<string>, last: string)
    requires texts != []
    ensures JoinedBy(separator, texts + [last]) == JoinedBy(separator, texts) + separator + last
  {
    Parts(texts, [last]);
  }

  lemma FiveAssociate(name: string, before: string, param: string, value: string)
    ensures name + (before + ";" + param + "=" + value) == (name + before) + ";" + (param + "=" + value)
  {
  }

  lemma {:induction false} ParamsWritten(name: string, params: seq<Param>)
    ensures name + HttpTokens.ParamsText(params) == JoinedBy(";", PtokenWritten(Ptoken(name, params)))
    decreases |params|
  {
    if params == [] {
      assert name + "" == name && PtokenWritten(Ptoken(name, [])) == [name];
    } else {
      var front, last := params[..|params| - 1], params[|params| - 1];
      InitLast(params);
      ParamsWritten(name, front);
      ValueTextIsWritten(last.value);
      PtokenGrows(name, front, last);
      JoinedGrows(";", PtokenWritten(Ptoken(name, front)), last.name + "=" + ValueWritten(last.value));
      FiveAssociate(name, HttpTokens.ParamsText(front), last.name, ValueWritten(last.value));
    }
  }

  ghost function HeaderWritten(values: Ptokens): seq<string> {
    seq(|values|, i requires 0 <= i < |values| => JoinedBy(";", PtokenWritten(values[i])))
  }

  ghost function DirectivesWritten(values: Directives): seq<string> {
    seq(|values|, i requires 0 <= i < |values| => DirectiveWritten(values[i]))
  }

  /** The values of a header are written with a comma and a space between them, each with its parameters behind
      semicolons. */
  lemma {:induction false} HeaderIsWritten(values: Ptokens)
    requires forall v <- values :: v.name != ""
    ensures HeaderText(values) == JoinedBy(", ", HeaderWritten(values))
    ensures values != [] ==> HeaderText(values) != ""
    decreases |values|
  {
    if values != [] {
      var n := |values| - 1;
      InitLast(values);
      HeaderIsWritten(values[..n]);
      ParamsWritten(values[n].name, values[n].params);
      assert HeaderWritten(values)[..n] == HeaderWritten(values[..n]);
      var before := HeaderText(values[..n]);
      var separator := if n == 0 then "" else ", ";
      Associates(before + separator, values[n].name, HttpTokens.ParamsText(values[n].params));
    }
  }

  /** Directives are written with semicolons between them, and an equals sign in front of a value that is not empty. */
  lemma {:induction false} DirectivesAreWritten(values: Directives)
    requires forall d <- values :: d.name != ""
    ensures DirectivesText(values) == JoinedBy(";", DirectivesWritten(values))
    ensures values != [] ==> DirectivesText(values) != ""
    decreases |values|
  {
    if values != [] {
      var n := |values| - 1;
      InitLast(values);
      DirectivesAreWritten(values[..n]);
      assert DirectivesWritten(values)[..n] == DirectivesWritten(values[..n]);
      assert DirectiveText(values[n]) == DirectiveWritten(values[n]);
      Associates(DirectivesText(values[..n]), if n == 0 then "" else ";", DirectiveWritten(values[n]));
    }
  }
}
