/** Headers that are lists of tokens with parameters (make_ptokens_header and parse_ptokens_header of
    http_utils.cpp): a printer, and a parser that is a ten-state machine over the characters. */
module HttpTokens {
  import opened Results
  import opened Sequences

  datatype Param = Param(name: string, value: string)

  datatype Ptoken = Ptoken(name: string, params: seq<Param>)

  type Ptokens = seq<Ptoken>

  // ---------- Characters (section 3.2.6 of RFC 7230) ----------

  predicate IsTchar(c: char) {
    '0' <= c <= '9' || 'A' <= c <= 'Z' || 'a' <= c <= 'z' || c in "!#$%&'*+-.^_`|~"
  }

  predicate IsBackslashRequired(c: char) {
    c == '"' || c == '\\'
  }

  predicate IsBlank(c: char) {
    c == ' ' || c == '\t'
  }

  predicate AllTchars(s: string) {
    forall c <- s :: IsTchar(c)
  }

  predicate IsToken(s: string) {
    s != "" && AllTchars(s)
  }

  predicate WellFormed(values: Ptokens) {
    forall v <- values :: IsToken(v.name) && forall p <- v.params :: IsToken(p.name)
  }

  // ---------- The printer ----------

  function Escaped(s: string): string {
    if s == "" then ""
    else (if IsBackslashRequired(s[0]) then ['\\', s[0]] else [s[0]]) + Escaped(s[1..])
  }

  function ValueText(value: string): string {
    if IsToken(value) then value else "\"" + Escaped(value) + "\""
  }

  function ParamsText(params: seq<Param>): string {
    if params == [] then ""
    else
      var last := params[|params| - 1];
      ParamsText(params[..|params| - 1]) + ";" + last.name + "=" + ValueText(last.value)
  }

  function HeaderText(values: Ptokens): string {
    if values == [] then ""
    else
      var before, last := HeaderText(values[..|values| - 1]), values[|values| - 1];
      before + (if before == "" then "" else ", ") + last.name + ParamsText(last.params)
  }

  lemma {:induction false} EscapedAppend(s: string, c: char)
    ensures Escaped(s + [c]) == Escaped(s) + if IsBackslashRequired(c) then ['\\', c] else [c]
  {
    if s == "" {
      assert s + [c] == [c] && Escaped([c][1..]) == "";
    } else {
      assert (s + [c])[1..] == s[1..] + [c];
      EscapedAppend(s[1..], c);
    }
  }

  method AppendQuoted(start: string, value: string) returns (result: string)
    ensures result == start + Escaped(value)
  {
    result := start;
    for k := 0 to |value|
      invariant result == start + Escaped(value[..k])
    {
      assert value[..k + 1] == value[..k] + [value[k]];
      EscapedAppend(value[..k], value[k]);
      ghost var before := result;
      if IsBackslashRequired(value[k]) {
        result := result + ['\\'];
      }
      result := result + [value[k]];
      ghost var more := if IsBackslashRequired(value[k]) then ['\\', value[k]] else [value[k]];
      assert result == before + more;
      Associates(start, Escaped(value[..k]), more);
    }
    assert value[..|value|] == value;
  }

  method AppendValue(start: string, value: string) returns (result: string)
    ensures result == start + ValueText(value)
  {
    result := start;
    if value == "" || exists c <- value :: !IsTchar(c) {
      result := AppendQuoted(result + ['"'], value);
      result := result + ['"'];
    } else {
      result := result + value;
    }
  }

  method AppendParams(start: string, params: seq<Param>) returns (result: string)
    ensures result == start + ParamsText(params)
  {
    result := start;
    for j := 0 to |params|
      invariant result == start + ParamsText(params[..j])
    {
      assert params[..j + 1][..j] == params[..j];
      result := result + [';'];
      result := result + params[j].name;
      result := result + ['='];
      result := AppendValue(result, params[j].value);
    }
    assert params[..|params|] == params;
  }

  lemma HeaderTextStep(values: Ptokens, i: nat)
    requires i < |values|
    ensures var before, last := HeaderText(values[..i]), values[i];
            HeaderText(values[..i + 1]) ==
            before + (if before == "" then "" else ", ") + last.name + ParamsText(last.params)
  {
    assert values[..i + 1][..i] == values[..i];
  }

  method MakeHeader(values: Ptokens) returns (result: string)
    ensures result == HeaderText(values)
  {
    result := "";
    for i := 0 to |values|
      invariant result == HeaderText(values[..i])
    {
      HeaderTextStep(values, i);
      ghost var before := result;
      if result != "" {
        result := result + [','];
        result := result + [' '];
      }
      assert result == before + if before == "" then "" else ", ";
      result := result + values[i].name;
      result := AppendParams(result, values[i].params);
    }
    assert values[..|values|] == values;
  }

  // ---------- The parser ----------

  datatype State =
    | PreValue
    | ValueName
    | PreParam
    | PreParamName
    | ParamName
    | PreParamValue
    | ParamValue
    | ParamValueToken
    | QuotedString
    | QuotedStringEscape

  datatype Parser = Parser(state: State, name: string, result: Ptokens) {

    /** Every value and parameter name stored is a token, a name is being collected exactly in the two name
        states, and the value and parameter a state goes on to extend exist. */
    ghost predicate Sound() {
      WellFormed(result) && (
        || (state.PreValue? && name == "")
        || (state.ValueName? && IsToken(name))
        || ((state.PreParam? || state.PreParamName?) && name == "" && result != [])
        || (state.ParamName? && IsToken(name) && result != [])
        || (InValue() && name == "" && result != [] && result[|result| - 1].params != [])
      )
    }

    predicate InValue() {
      state.PreParamValue? || state.ParamValue? || state.ParamValueToken? || state.QuotedString? || state.QuotedStringEscape?
    }

    function Extend(c: char): (next: Parser)
      requires Sound() && (state.ParamValue? || state.ParamValueToken? || state.QuotedString? || state.QuotedStringEscape?)
      ensures next.Sound() && next.state == state
    {
      var last := result[|result| - 1];
      var param := last.params[|last.params| - 1];
      var grown := Ptoken(last.name, last.params[..|last.params| - 1] + [Param(param.name, param.value + [c])]);
      this.(result := result[..|result| - 1] + [grown])
    }

    function PushValue(): (next: Parser)
      requires Sound() && state.ValueName?
      ensures next.name == "" && next.result == result + [Ptoken(name, [])] && next.state == PreParam && next.Sound()
    {
      Parser(PreParam, "", result + [Ptoken(name, [])])
    }

    function PushParam(): (next: Parser)
      requires Sound() && state.ParamName?
      ensures next.state == PreParamValue && next.Sound()
    {
      var last := result[|result| - 1];
      Parser(PreParamValue, "", result[..|result| - 1] + [Ptoken(last.name, last.params + [Param(name, "")])])
    }

    /** One character. The error stands for the exception the original throws. */
    function Step(c: char): (r: Result<Parser, ()>)
      requires Sound()
      ensures r.Ok? ==> r.value.Sound()
    {
      match state
      case PreValue =>
        if IsTchar(c) then Ok(this.(name := name + [c], state := ValueName))
        else if c == ',' || IsBlank(c) then Ok(this)
        else Err(())
      case ValueName =>
        if IsTchar(c) then Ok(this.(name := name + [c]))
        else
          var next := PushValue();
          if c == ',' then Ok(next.(state := PreValue))
          else if c == ';' then Ok(next.(state := PreParamName))
          else if IsBlank(c) then Ok(next.(state := PreParam))
          else Err(())
      case PreParam =>
        if c == ',' then Ok(this.(state := PreValue))
        else if c == ';' then Ok(this.(state := PreParamName))
        else if IsBlank(c) then Ok(this)
        else Err(())
      case PreParamName =>
        if IsTchar(c) then Ok(this.(name := name + [c], state := ParamName))
        else if IsBlank(c) then Ok(this)
        else Err(())
      case ParamName =>
        if IsTchar(c) then Ok(this.(name := name + [c]))
        else
          var next := PushParam();
          if c == '=' then Ok(next.(state := ParamValue))
          else if IsBlank(c) then Ok(next.(state := PreParamValue))
          else Err(())
      case PreParamValue =>
        if c == '=' then Ok(this.(state := ParamValue))
        else if IsBlank(c) then Ok(this)
        else Err(())
      case ParamValue =>
        if IsTchar(c) then Ok(Extend(c).(state := ParamValueToken))
        else if c == '"' then Ok(this.(state := QuotedString))
        else if IsBlank(c) then Ok(this)
        else Err(())
      case ParamValueToken =>
        if IsTchar(c) then Ok(Extend(c))
        else if c == ',' then Ok(this.(state := PreValue))
        else if c == ';' then Ok(this.(state := PreParamName))
        else if IsBlank(c) then Ok(this.(state := PreParam))
        else Err(())
      case QuotedString =>
        if c == '"' then Ok(this.(state := PreParam))
        else if c == '\\' then Ok(this.(state := QuotedStringEscape))
        else Ok(Extend(c))
      case QuotedStringEscape =>
        Ok(Extend(c).(state := QuotedString))
    }

    /** What the states mean at the end of the header. */
    function Finish(): (r: Result<Ptokens, ()>)
      requires Sound()
      ensures r.Ok? ==> WellFormed(r.value)
    {
      match state
      case PreValue => Ok(result)
      case ValueName => Ok(PushValue().result)
      case PreParam => Ok(result)
      case ParamValueToken => Ok(result)
      case _ => Err(())
    }

    function Run(s: string): (r: Result<Parser, ()>)
      requires Sound()
      ensures r.Ok? ==> r.value.Sound()
      decreases |s|
    {
      if s == "" then Ok(this)
      else
        var next :- Step(s[0]);
        next.Run(s[1..])
    }
  }

  const START := Parser(PreValue, "", [])

  function Parse(value: string): (r: Result<Ptokens, ()>)
    ensures r.Ok? ==> WellFormed(r.value)
  {
    var end :- START.Run(value);
    end.Finish()
  }

  method ParseHeader(value: string) returns (r: Result<Ptokens, ()>)
    ensures r == Parse(value)
  {
    var state: State := PreValue;
    var result: Ptokens := [];
    var name: string := "";
    for i := 0 to |value|
      invariant Parser(state, name, result).Sound()
      invariant Parser(state, name, result).Run(value[i..]) == START.Run(value)
    {
      var c := value[i];
      assert value[i..][0] == c && value[i..][1..] == value[i + 1..];
      ghost var before := Parser(state, name, result);
      if state.PreValue? {
        if IsTchar(c) { name := name + [c]; state := ValueName; }
        else if c == ',' { }
        else if IsBlank(c) { }
        else { return Err(()); }
      } else if state.ValueName? {
        if IsTchar(c) { name := name + [c]; }
        else {
          result := result + [Ptoken(name, [])];
          name := "";
          if c == ',' { state := PreValue; }
          else if c == ';' { state := PreParamName; }
          else if IsBlank(c) { state := PreParam; }
          else { return Err(()); }
        }
      } else if state.PreParam? {
        if c == ',' { state := PreValue; }
        else if c == ';' { state := PreParamName; }
        else if IsBlank(c) { }
        else { return Err(()); }
      } else if state.PreParamName? {
        if IsTchar(c) { name := name + [c]; state := ParamName; }
        else if IsBlank(c) { }
        else { return Err(()); }
      } else if state.ParamName? {
        if IsTchar(c) { name := name + [c]; }
        else {
          result := PushBackParam(result, name);
          name := "";
          if c == '=' { state := ParamValue; }
          else if IsBlank(c) { state := PreParamValue; }
          else { return Err(()); }
        }
      } else if state.PreParamValue? {
        if c == '=' { state := ParamValue; }
        else if IsBlank(c) { }
        else { return Err(()); }
      } else if state.ParamValue? {
        if IsTchar(c) { result := PushBackChar(result, c); state := ParamValueToken; }
        else if c == '"' { state := QuotedString; }
        else if IsBlank(c) { }
        else { return Err(()); }
      } else if state.ParamValueToken? {
        if IsTchar(c) { result := PushBackChar(result, c); }
        else if c == ',' { state := PreValue; }
        else if c == ';' { state := PreParamName; }
        else if IsBlank(c) { state := PreParam; }
        else { return Err(()); }
      } else if state.QuotedString? {
        if c == '"' { state := PreParam; }
        else if c == '\\' { state := QuotedStringEscape; }
        else { result := PushBackChar(result, c); }
      } else {
        result := PushBackChar(result, c);
        state := QuotedString;
      }
      assert before.Step(c) == Ok(Parser(state, name, result));
    }
    assert value[|value|..] == "";
    if state.ValueName? {
      result := result + [Ptoken(name, [])];
      name := "";
    } else if !state.PreValue? && !state.PreParam? && !state.ParamValueToken? {
      return Err(());
    }
    return Ok(result);
  }

  method PushBackParam(result: Ptokens, name: string) returns (grown: Ptokens)
    requires result != []
    ensures var last := result[|result| - 1];
            grown == result[..|result| - 1] + [Ptoken(last.name, last.params + [Param(name, "")])]
  {
    var last := result[|result| - 1];
    grown := result[|result| - 1 := last.(params := last.params + [Param(name, "")])];
  }

  method PushBackChar(result: Ptokens, c: char) returns (grown: Ptokens)
    requires result != [] && result[|result| - 1].params != []
    ensures var last := result[|result| - 1];
            var param := last.params[|last.params| - 1];
            grown == result[..|result| - 1] + [Ptoken(last.name, last.params[..|last.params| - 1] + [Param(param.name, param.value + [c])])]
  {
    var last := result[|result| - 1];
    var param := last.params[|last.params| - 1];
    var params := last.params[|last.params| - 1 := param.(value := param.value + [c])];
    assert params == last.params[..|last.params| - 1] + [param.(value := param.value + [c])];
    grown := result[|result| - 1 := last.(params := params)];
  }
}
