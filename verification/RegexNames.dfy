/** Named groups on top of a regex engine without them (regex_utils.h): a scanner that strips the name
    specifiers from a regex and records, for each name, the number of its group. */
module RegexNames {

  datatype State = Normal | Escaped | SubMatch | ExtendedSubMatch | NamedSubMatch | UnknownExtension

  datatype Scanner = Scanner(state: State, text: string, names: map<string, int>, count: int, name: string) {

    /** One character of the regex. */
    function Step(c: char): Scanner {
      var copied := this.(text := text + [c]);
      match state
      case Normal =>
        if c == '\\' then copied.(state := Escaped)
        else if c == '(' then copied.(state := SubMatch, count := count + 1)
        else copied
      case Escaped => copied.(state := Normal)
      case SubMatch =>
        if c == '?' then this.(state := ExtendedSubMatch)
        else if c == '\\' then copied.(state := Escaped)
        else if c == '(' then copied.(count := count + 1)
        else copied.(state := Normal)
      case ExtendedSubMatch =>
        if c == '<' then this.(state := NamedSubMatch)
        else if c == '=' || c == '!' || c == ':' then this.(text := text + "?" + [c], count := count - 1, state := Normal)
        else this.(text := text + "?" + [c], state := UnknownExtension)
      case NamedSubMatch =>
        if c == '>' then this.(names := names[name := count], name := "", state := Normal)
        else this.(name := name + [c])
      case UnknownExtension =>
        if c == ')' then copied.(state := Normal) else copied
    }

    function Run(regex: string): Scanner
      decreases |regex|
    {
      if regex == "" then this else Step(regex[0]).Run(regex[1..])
    }
  }

  const START := Scanner(Normal, "", map[], 0, "")

  /** The regex without name specifiers, and the group number of each name. */
  function Parse(regex: string): (string, map<string, int>) {
    var end := START.Run(regex);
    (end.text, end.names)
  }

  function MakeNamedSubMatch(name: string, subMatch: string): string {
    "(?<" + name + ">" + subMatch + ")"
  }

  method ParseRegex(regex: string) returns (text: string, names: map<string, int>)
    ensures (text, names) == Parse(regex)
  {
    text, names := "", map[];
    var count, name, state := 0, "", Normal;
    for i := 0 to |regex|
      invariant Scanner(state, text, names, count, name).Run(regex[i..]) == START.Run(regex)
    {
      assert regex[i..][0] == regex[i] && regex[i..][1..] == regex[i + 1..];
      ghost var before := Scanner(state, text, names, count, name);
      var ch := regex[i];
      var copy := true;
      match state {
        case Normal =>
          if ch == '\\' {
            state := Escaped;
          } else if ch == '(' {
            count := count + 1;
            state := SubMatch;
          }
        case Escaped =>
          state := Normal;
        case SubMatch =>
          if ch == '?' {
            copy := false;
            state := ExtendedSubMatch;
          } else if ch == '\\' {
            state := Escaped;
          } else if ch == '(' {
            count := count + 1;
            state := SubMatch;
          } else {
            state := Normal;
          }
        case ExtendedSubMatch =>
          if ch == '<' {
            copy := false;
            state := NamedSubMatch;
          } else if ch == '=' || ch == '!' || ch == ':' {
            text := text + "?";
            count := count - 1;
            state := Normal;
          } else {
            text := text + "?";
            state := UnknownExtension;
          }
        case NamedSubMatch =>
          copy := false;
          if ch == '>' {
            names := names[name := count];
            name := "";
            state := Normal;
          } else {
            name := name + [ch];
          }
        case UnknownExtension =>
          if ch == ')' {
            state := Normal;
          }
      }
      if copy {
        text := text + [ch];
      }
      assert Scanner(state, text, names, count, name) == before.Step(ch);
    }
    assert regex[|regex|..] == "";
  }
}
