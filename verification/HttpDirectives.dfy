/** Headers that are lists of directives (make_directives_header and parse_directives_header of http_utils.cpp): a
    printer, which never quotes, and a parser that is an eight-state machine over the characters. */
module HttpDirectives {
  import opened Results
  import opened HttpTokens

  datatype Directive = Directive(name: string, value: string)

  type Directives = seq<Directive>

  // ---------- The printer ----------

  function DirectiveText(d: Directive): string {
    d.name + if d.value == "" then "" else "=" + d.value
  }

  function DirectivesText(values: Directives): string {
    if values == [] then ""
    else
      var before := DirectivesText(values[..|values| - 1]);
      before + ((if before == "" then "" else ";") + DirectiveText(values[|values| - 1]))
  }

  method MakeDirectives(values: Directives) returns (result: string)
    ensures result == DirectivesText(values)
  {
    result := "";
    for i := 0 to |values|
      invariant result == DirectivesText(values[..i])
    {
      assert values[..i + 1][..i] == values[..i];
      ghost var before := result;
      if result != "" {
        result := result + [';'];
      }
      result := result + values[i].name;
      if values[i].value != "" {
        result := result + ['='];
        result := result + values[i].value;
      }
      assert result == before + ((if before == "" then "" else ";") + DirectiveText(values[i]));
    }
    assert values[..|values|] == values;
  }

  // ---------- The parser ----------

  datatype Reading =
    | PreDirective
    | PreName
    | Name
    | PreDirectiveValue
    | DirectiveValue
    | ValueToken
    | ValueQuoted
    | ValueEscape

  datatype Reader = Reader(state: Reading, name: string, result: Directives) {

    ghost predicate HasValue() {
      state.ValueToken? || state.ValueQuoted? || state.ValueEscape?
    }

    /** Every name stored is a token, a name is being collected exactly in the name state, and the directive whose
        value a state goes on to extend exists: without one so far, with a token, or with anything in quotes. */
    ghost predicate Sound() {
      (forall d <- result :: IsToken(d.name)) && (
        || ((state.PreDirective? || state.PreName?) && name == "")
        || (state.Name? && IsToken(name))
        || ((state.PreDirectiveValue? || state.DirectiveValue?) && name == "" && result != [] && result[|result| - 1].value == "")
        || (state.ValueToken? && name == "" && result != [] && IsToken(result[|result| - 1].value))
        || ((state.ValueQuoted? || state.ValueEscape?) && name == "" && result != [])
      )
    }

    function Push(): (next: Reader)
      requires Sound() && state.Name?
      ensures next.Sound() && next.state == PreDirectiveValue && next.result == result + [Directive(name, "")]
    {
      Reader(PreDirectiveValue, "", result + [Directive(name, "")])
    }

    function Extended(c: char): Directives
      requires result != []
    {
      var last := result[|result| - 1];
      result[..|result| - 1] + [Directive(last.name, last.value + [c])]
    }

    /** One character. The error stands for the exception the original throws. */
    function Step(c: char): (r: Result<Reader, ()>)
      requires Sound()
      ensures r.Ok? ==> r.value.Sound()
    {
      match state
      case PreDirective =>
        if c == ';' then Ok(this.(state := PreName)) else if IsBlank(c) then Ok(this) else Err(())
      case PreName =>
        if IsTchar(c) then Ok(this.(name := name + [c], state := Name)) else if IsBlank(c) then Ok(this) else Err(())
      case Name =>
        if IsTchar(c) then Ok(this.(name := name + [c]))
        else
          var next := Push();
          if c == '=' then Ok(next.(state := DirectiveValue))
          else if c == ';' then Ok(next.(state := PreName))
          else if IsBlank(c) then Ok(next)
          else Err(())
      case PreDirectiveValue =>
        if c == '=' then Ok(this.(state := DirectiveValue))
        else if IsBlank(c) then Ok(this)
        else if c == ';' then Ok(this.(state := PreName))
        else Err(())
      case DirectiveValue =>
        if IsTchar(c) then Ok(Reader(ValueToken, "", Extended(c)))
        else if c == '"' then Ok(this.(state := ValueQuoted))
        else if IsBlank(c) then Ok(this)
        else Err(())
      case ValueToken =>
        if IsTchar(c) then Ok(this.(result := Extended(c)))
        else if c == ';' then Ok(this.(state := PreName))
        else if IsBlank(c) then Ok(this.(state := PreDirective))
        else Err(())
      case ValueQuoted =>
        if c == '"' then Ok(this.(state := PreDirective))
        else if c == '\\' then Ok(this.(state := ValueEscape))
        else Ok(this.(result := Extended(c)))
      case ValueEscape =>
        Ok(Reader(ValueQuoted, "", Extended(c)))
    }

    /** What the states mean at the end of the header. */
    function Finish(): (r: Result<Directives, ()>)
      requires Sound()
      ensures r.Ok? ==> forall d <- r.value :: IsToken(d.name)
    {
      match state
      case Name => Ok(Push().result)
      case DirectiveValue => Err(())
      case ValueQuoted => Err(())
      case ValueEscape => Err(())
      case _ => Ok(result)
    }

    function Run(s: string): (r: Result<Reader, ()>)
      requires Sound()
      ensures r.Ok? ==> r.value.Sound()
      decreases |s|
    {
      if s == "" then Ok(this)
      else
        var next :- Step(s[0]);
        next.Run(s[1..])
    }
  }

  const BEGIN := Reader(PreName, "", [])

  /** The names of an accepted header are tokens. */
  function ReadDirectives(header: string): (r: Result<Directives, ()>)
    ensures r.Ok? ==> forall d <- r.value :: IsToken(d.name)
  {
    var end :- BEGIN.Run(header);
    end.Finish()
  }

  method ParseDirectives(value: string) returns (r: Result<Directives, ()>)
    ensures r == ReadDirectives(value)
  {
    var state: Reading := PreName;
    var result: Directives := [];
    var name: string := "";
    for i := 0 to |value|
      invariant Reader(state, name, result).Sound()
      invariant Reader(state, name, result).Run(value[i..]) == BEGIN.Run(value)
    {
      var c := value[i];
      assert value[i..][0] == c && value[i..][1..] == value[i + 1..];
      ghost var before := Reader(state, name, result);
      if state.PreDirective? {
        if c == ';' { state := PreName; }
        else if IsBlank(c) { }
        else { return Err(()); }
      } else if state.PreName? {
        if IsTchar(c) { name := name + [c]; state := Name; }
        else if IsBlank(c) { }
        else { return Err(()); }
      } else if state.Name? {
        if IsTchar(c) { name := name + [c]; }
        else {
          result := result + [Directive(name, "")];
          name := "";
          if c == '=' { state := DirectiveValue; }
          else if c == ';' { state := PreName; }
          else if IsBlank(c) { state := PreDirectiveValue; }
          else { return Err(()); }
        }
      } else if state.PreDirectiveValue? {
        if c == '=' { state := DirectiveValue; }
        else if IsBlank(c) { }
        else if c == ';' { state := PreName; }
        else { return Err(()); }
      } else if state.DirectiveValue? {
        if IsTchar(c) { result := PushBackChar(result, c); state := ValueToken; }
        else if c == '"' { state := ValueQuoted; }
        else if IsBlank(c) { }
        else { return Err(()); }
      } else if state.ValueToken? {
        if IsTchar(c) { result := PushBackChar(result, c); }
        else if c == ';' { state := PreName; }
        else if IsBlank(c) { state := PreDirective; }
        else { return Err(()); }
      } else if state.ValueQuoted? {
        if c == '"' { state := PreDirective; }
        else if c == '\\' { state := ValueEscape; }
        else { result := PushBackChar(result, c); }
      } else {
        result := PushBackChar(result, c);
        state := ValueQuoted;
      }
      assert before.Step(c) == Ok(Reader(state, name, result));
    }
    assert value[|value|..] == "";
    if state.Name? {
      result := result + [Directive(name, "")];
      name := "";
    } else if state.DirectiveValue? || state.ValueQuoted? || state.ValueEscape? {
      return Err(());
    }
    return Ok(result);
  }

  method PushBackChar(result: Directives, c: char) returns (grown: Directives)
    requires result != []
    ensures var last := result[|result| - 1];
            grown == result[..|result| - 1] + [Directive(last.name, last.value + [c])]
  {
    var last := result[|result| - 1];
    grown := result[|result| - 1 := last.(value := last.value + [c])];
  }
}
