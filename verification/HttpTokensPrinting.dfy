/** The printer's output is one of a list's renderings, so printing and parsing undo each other. */
module HttpTokensPrinting {
  import opened Results
  import opened HttpTokens
  import opened Sequences
  import opened HttpTokensGrammar

  // ---------- The printer's output is a rendering ----------

  ghost function PrintedChars(value: string): seq<QuotedChar> {
    seq(|value|, i requires 0 <= i < |value| => if IsBackslashRequired(value[i]) then Backslashed(value[i]) else Plain(value[i]))
  }

  ghost function PrintedValue(value: string): RenderedValue {
    if IsToken(value) then AsToken(value) else AsQuoted(PrintedChars(value))
  }

  ghost function PrintedParams(params: seq<Param>): seq<RenderedParam> {
    seq(|params|, i requires 0 <= i < |params| => RenderedParam("", params[i].name, "", "", PrintedValue(params[i].value), ""))
  }

  ghost function PrintedElements(values: Ptokens): seq<RenderedElement> {
    seq(|values|, i requires 0 <= i < |values| =>
      RenderedElement(if i == 0 then "" else ", ", values[i].name, "", PrintedParams(values[i].params)))
  }

  lemma {:induction false} PrintedCharsText(value: string)
    ensures QuotedText(PrintedChars(value)) == Escaped(value)
    ensures QuotedMeaning(PrintedChars(value)) == value
  {
    if value != "" {
      assert PrintedChars(value)[1..] == PrintedChars(value[1..]);
      PrintedCharsText(value[1..]);
    }
  }

  lemma {:induction false} RenderedParamsTextAppend(a: seq<RenderedParam>, b: seq<RenderedParam>)
    ensures RenderedParamsText(a + b) == RenderedParamsText(a) + RenderedParamsText(b)
  {
    if a == [] {
      assert a + b == b;
    } else {
      assert (a + b)[1..] == a[1..] + b;
      RenderedParamsTextAppend(a[1..], b);
    }
  }

  lemma {:induction false} ElementsTextAppend(a: seq<RenderedElement>, b: seq<RenderedElement>)
    ensures ElementsText(a + b) == ElementsText(a) + ElementsText(b)
  {
    if a == [] {
      assert a + b == b;
    } else {
      assert (a + b)[1..] == a[1..] + b;
      ElementsTextAppend(a[1..], b);
    }
  }

  lemma PrintedParamText(param: Param)
    ensures ParamText(RenderedParam("", param.name, "", "", PrintedValue(param.value), "")) ==
            ";" + param.name + "=" + ValueText(param.value)
  {
    PrintedCharsText(param.value);
    var text := RenderedValueText(PrintedValue(param.value));
    assert text == ValueText(param.value);
    assert ";" + ("" + (param.name + ("" + ("=" + ("" + (text + "")))))) == ";" + param.name + "=" + text;
  }

  lemma PartsAssociate(before: string, a: string, b: string, c: string, d: string)
    ensures before + (a + b + c + d) == before + a + b + c + d
  {
  }

  lemma PrintedParamsLast(params: seq<Param>)
    requires params != []
    ensures var n := |params| - 1;
            PrintedParams(params) ==
            PrintedParams(params[..n]) + [RenderedParam("", params[n].name, "", "", PrintedValue(params[n].value), "")]
  {
  }

  lemma {:induction false} PrintedParamsText(params: seq<Param>)
    ensures RenderedParamsText(PrintedParams(params)) == ParamsText(params)
    decreases |params|
  {
    if params != [] {
      var n := |params| - 1;
      var last := RenderedParam("", params[n].name, "", "", PrintedValue(params[n].value), "");
      PrintedParamsText(params[..n]);
      PrintedParamsLast(params);
      RenderedParamsTextAppend(PrintedParams(params[..n]), [last]);
      OneParamText(last);
      PrintedParamText(params[n]);
      PartsAssociate(ParamsText(params[..n]), ";", params[n].name, "=", ValueText(params[n].value));
    }
  }

  lemma OneParamText(param: RenderedParam)
    ensures RenderedParamsText([param]) == ParamText(param)
  {
    assert RenderedParamsText([param]) == ParamText(param) + "";
  }

  lemma OneElementText(e: RenderedElement)
    ensures ElementsText([e]) == ElementText(e)
  {
    assert ElementsText([e]) == ElementText(e) + "";
  }

  lemma PrintedParamsMeaning(params: seq<Param>)
    ensures ParamsMeaning(PrintedParams(params)) == params
  {
    forall i | 0 <= i < |params| {
      PrintedCharsText(params[i].value);
    }
  }

  lemma PrintedElementsMeaning(values: Ptokens)
    ensures Meaning(PrintedElements(values)) == values
  {
    forall i | 0 <= i < |values| {
      PrintedParamsMeaning(values[i].params);
    }
  }

  lemma PrintedElementsLast(values: Ptokens)
    requires values != []
    ensures var n := |values| - 1;
            PrintedElements(values) ==
            PrintedElements(values[..n]) +
            [RenderedElement(if n == 0 then "" else ", ", values[n].name, "", PrintedParams(values[n].params))]
  {
  }

  lemma {:induction false} PrintedElementsText(values: Ptokens)
    requires WellFormed(values)
    ensures ElementsText(PrintedElements(values)) == HeaderText(values)
    ensures HeaderText(values) == "" <==> values == []
    decreases |values|
  {
    if values != [] {
      var n := |values| - 1;
      var comma := if n == 0 then "" else ", ";
      var last := RenderedElement(comma, values[n].name, "", PrintedParams(values[n].params));
      assert values[n] in values;
      PrintedElementsText(values[..n]);
      PrintedElementsLast(values);
      ElementsTextAppend(PrintedElements(values[..n]), [last]);
      OneElementText(last);
      PrintedParamsText(values[n].params);
      EmptyPrefix(ParamsText(values[n].params));
      ElementTextAssociates(HeaderText(values[..n]), comma, values[n].name, ParamsText(values[n].params));
    }
  }

  lemma ElementTextAssociates(before: string, comma: string, name: string, params: string)
    ensures before + (comma + (name + params)) == before + comma + name + params
  {
  }

  lemma {:induction false} ElementsAreValid(elements: seq<RenderedElement>, first: bool)
    requires forall i | 0 <= i < |elements| ::
               var e := elements[i];
               && e.before == (if i == 0 && first then "" else ", ")
               && IsToken(e.name) && e.after == "" && forall p <- e.params :: ValidParam(p)
    ensures ValidElements(elements, first)
  {
    if elements != [] {
      assert forall i | 0 <= i < |elements| - 1 :: elements[1..][i] == elements[i + 1];
      ElementsAreValid(elements[1..], false);
    }
  }

  lemma PrintedParamsAreValid(params: seq<Param>)
    requires forall p <- params :: IsToken(p.name)
    ensures forall p <- PrintedParams(params) :: ValidParam(p)
  {
    forall j | 0 <= j < |params|
      ensures ValidParam(PrintedParams(params)[j])
    {
      assert params[j] in params;
    }
  }

  /** What the printer writes for a list of token names is one of its renderings. */
  lemma PrintedIsRendering(values: Ptokens)
    requires WellFormed(values)
    ensures var r := Rendering(PrintedElements(values), "");
            Valid(r) && Text(r) == HeaderText(values) && Meaning(r.elements) == values
  {
    PrintedElementsText(values);
    PrintedElementsMeaning(values);
    assert Text(Rendering(PrintedElements(values), "")) == HeaderText(values) + "";
    forall i | 0 <= i < |values|
      ensures IsToken(values[i].name) && forall p <- PrintedParams(values[i].params) :: ValidParam(p)
    {
      assert values[i] in values;
      PrintedParamsAreValid(values[i].params);
    }
    ElementsAreValid(PrintedElements(values), true);
  }

  /** The lists that survive printing and parsing are exactly those whose names are tokens;
      parameter values may be anything. */
  lemma HeaderSurvivesIffWellFormed(values: Ptokens)
    ensures Parse(HeaderText(values)) == Ok(values) <==> WellFormed(values)
  {
    if WellFormed(values) {
      PrintedIsRendering(values);
      ParseRendering(Rendering(PrintedElements(values), ""));
    }
  }

  /** Printing what was parsed is a normal form: it parses to the same list as the header it came from. */
  lemma ReprintingIsNormalForm(header: string)
    requires Parse(header).Ok?
    ensures Parse(HeaderText(Parse(header).value)) == Parse(header)
  {
    HeaderSurvivesIffWellFormed(Parse(header).value);
  }
}
