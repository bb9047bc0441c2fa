/** Group numbers stay right when regexes are concatenated or nested, and they are the numbers a regex engine
    gives the groups. */
module RegexNamesProofs {
  import opened RegexNames
  import opened Sequences

  lemma {:induction false} RunAppend(p: Scanner, a: string, b: string)
    ensures p.Run(a + b) == p.Run(a).Run(b)
    decreases |a|
  {
    if a == "" {
      assert a + b == b;
    } else {
      assert (a + b)[0] == a[0] && (a + b)[1..] == a[1..] + b;
      RunAppend(p.Step(a[0]), a[1..], b);
    }
  }

  lemma RunOne(p: Scanner, c: char)
    ensures p.Run([c]) == p.Step(c)
  {
    assert [c][1..] == "";
  }

  // ---------- Concatenation ----------

  ghost function Shifted(names: map<string, int>, offset: int): map<string, int> {
    map n | n in names :: names[n] + offset
  }

  /** `q`, had it started from `p`. */
  ghost function After(p: Scanner, q: Scanner): Scanner {
    Scanner(q.state, p.text + q.text, p.names + Shifted(q.names, p.count), p.count + q.count, q.name)
  }

  lemma ShiftedUpdate(a: map<string, int>, b: map<string, int>, name: string, offset: int, n: int)
    ensures (a + Shifted(b, offset))[name := offset + n] == a + Shifted(b[name := n], offset)
  {
  }

  lemma AfterNameStep(p: Scanner, q: Scanner, c: char)
    requires q.state.NamedSubMatch?
    ensures After(p, q).Step(c) == After(p, q.Step(c))
  {
    if c == '>' {
      ShiftedUpdate(p.names, q.names, q.name, p.count, q.count);
    }
  }

  lemma AfterExtensionStep(p: Scanner, q: Scanner, c: char)
    requires q.state.ExtendedSubMatch?
    ensures After(p, q).Step(c) == After(p, q.Step(c))
  {
    Associates(p.text, q.text, "?");
    Associates(p.text, q.text + "?", [c]);
  }

  lemma AfterStep(p: Scanner, q: Scanner, c: char)
    ensures After(p, q).Step(c) == After(p, q.Step(c))
  {
    if q.state.ExtendedSubMatch? {
      AfterExtensionStep(p, q, c);
    } else if q.state.NamedSubMatch? {
      AfterNameStep(p, q, c);
    } else {
      AfterPlainStep(p, q, c);
    }
  }

  lemma AfterPlainStep(p: Scanner, q: Scanner, c: char)
    requires !q.state.ExtendedSubMatch? && !q.state.NamedSubMatch?
    ensures After(p, q).Step(c) == After(p, q.Step(c))
  {
    Associates(p.text, q.text, [c]);
  }

  lemma {:induction false} AfterRun(p: Scanner, q: Scanner, s: string)
    ensures After(p, q).Run(s) == After(p, q.Run(s))
    decreases |s|
  {
    if s != "" {
      AfterStep(p, q, s[0]);
      AfterRun(p, q.Step(s[0]), s[1..]);
    }
  }

  /** No name is pending, except inside a name specifier. */
  lemma {:induction false} NamePending(p: Scanner, s: string)
    requires p.state.NamedSubMatch? || p.name == ""
    ensures p.Run(s).state.NamedSubMatch? || p.Run(s).name == ""
    decreases |s|
  {
    if s != "" {
      NamePending(p.Step(s[0]), s[1..]);
    }
  }

  lemma ContinuesNormally(p: Scanner, s: string)
    requires p.state.Normal? && p.name == ""
    ensures p.Run(s) == After(p, START.Run(s))
  {
    assert p.text + "" == p.text && p.names + Shifted(map[], p.count) == p.names;
    assert After(p, START) == p;
    AfterRun(p, START, s);
  }

  ghost function Groups(regex: string): int {
    START.Run(regex).count
  }

  ghost predicate EndsNormally(regex: string) {
    START.Run(regex).state.Normal?
  }

  /** The texts join, and the second regex's numbers move up by the groups of the first; later names win. */
  ghost predicate Composes(a: string, b: string) {
    Parse(a + b) == (Parse(a).0 + Parse(b).0, Parse(a).1 + Shifted(Parse(b).1, Groups(a)))
  }

  lemma ConcatenationComposes(a: string, b: string)
    requires EndsNormally(a)
    ensures Composes(a, b)
    ensures Groups(a + b) == Groups(a) + Groups(b) && START.Run(a + b).state == START.Run(b).state
  {
    RunAppend(START, a, b);
    NamePending(START, a);
    ContinuesNormally(START.Run(a), b);
  }

  /** After an opening parenthesis, the start of a name specifier disappears. */
  lemma SpecifierDisappears(a: string)
    requires START.Run(a).state.SubMatch?
    ensures !Composes(a, "?<")
  {
    RunAppend(START, a, "?<");
    assert |Parse(a + "?<").0| == |Parse(a).0|;
  }

  /** In the other abnormal states, a named group is not read as one. */
  lemma GroupIsMisread(a: string)
    requires !EndsNormally(a) && !START.Run(a).state.SubMatch?
    ensures !Composes(a, "(?<n>x)")
  {
    var p := START.Run(a);
    RunAppend(START, a, "(?<n>x)");
    SevenIn(p);
    SevenAtStart();
    assert |Parse(a + "(?<n>x)").0| != |Parse(a).0| + 3;
  }

  lemma SevenAtStart()
    ensures START.Run("(?<n>x)") == Scanner(Normal, "(x)", map["n" := 1], 1, "")
  {
    var named := Scanner(NamedSubMatch, "(", map[], 1, "");
    assert START.Step('(').Step('?').Step('<') == named;
    assert named.Step('n') == named.(name := "n");
    assert named.(name := "n").Step('>') == Scanner(Normal, "(", map["n" := 1], 1, "");
  }

  lemma SevenIn(p: Scanner)
    requires !p.state.Normal? && !p.state.SubMatch?
    ensures |p.Run("(?<n>x)").text| != |p.text| + 3
  {
    var p4 := p.Step('(').Step('?').Step('<').Step('n');
    match p.state
    case Escaped => assert p4.state.Normal? && |p4.text| == |p.text| + 4;
    case ExtendedSubMatch => assert p4.state.UnknownExtension? && |p4.text| == |p.text| + 5;
    case NamedSubMatch => assert p4.state.NamedSubMatch? && |p4.text| == |p.text|;
    case UnknownExtension => assert p4.state.UnknownExtension? && |p4.text| == |p.text| + 4;
  }

  /** A regex composes with every other exactly when scanning it ends normally. */
  lemma ComposesIffEndsNormally(a: string)
    ensures EndsNormally(a) <==> forall b :: Composes(a, b)
  {
    if EndsNormally(a) {
      forall b {
        ConcatenationComposes(a, b);
      }
    } else if START.Run(a).state.SubMatch? {
      SpecifierDisappears(a);
    } else {
      GroupIsMisread(a);
    }
  }

  // ---------- Nesting ----------

  lemma {:induction false} ReadsName(p: Scanner, name: string)
    requires p.state.NamedSubMatch? && '>' !in name
    ensures p.Run(name) == p.(name := p.name + name)
    decreases |name|
  {
    if name == "" {
      assert p.name + name == p.name;
    } else {
      assert name[0] in name && forall c <- name[1..] :: c in name;
      ReadsName(p.Step(name[0]), name[1..]);
      assert p.name + [name[0]] + name[1..] == p.name + name;
    }
  }

  /** Opening a named group, from any point where a group can be opened. */
  lemma OpensGroup(p: Scanner, name: string)
    requires (p.state.Normal? || p.state.SubMatch?) && p.name == "" && '>' !in name
    ensures p.Run("(?<" + name + ">") == Scanner(Normal, p.text + "(", p.names[name := p.count + 1], p.count + 1, "")
  {
    var open := p.Step('(');
    var named := open.Step('?').Step('<');
    RunOne(p, '(');
    RunAppend(p, "(", "?<");
    assert "(" + "?<" == "(?<";
    RunAppend(p, "(?<", name);
    ReadsName(named, name);
    assert named.name + name == name;
    RunAppend(p, "(?<" + name, ">");
    RunOne(named.(name := name), '>');
  }

  /** Wrapping a regex in a named group brackets its text, gives the name number 1 and moves the others up by
      one; a name the regex defines itself keeps its own number. */
  ghost predicate Nests(name: string, subMatch: string) {
    Parse(MakeNamedSubMatch(name, subMatch)) ==
    ("(" + Parse(subMatch).0 + ")", map[name := 1] + Shifted(Parse(subMatch).1, 1))
  }

  lemma NestedRun(name: string, subMatch: string)
    requires '>' !in name
    ensures START.Run(MakeNamedSubMatch(name, subMatch)) ==
            After(Scanner(Normal, "(", map[name := 1], 1, ""), START.Run(subMatch)).Step(')')
  {
    var open := Scanner(Normal, "(", map[name := 1], 1, "");
    OpensGroup(START, name);
    assert "" + "(" == "(" && START.names[name := 1] == map[name := 1];
    RunAppend(START, "(?<" + name + ">", subMatch);
    ContinuesNormally(open, subMatch);
    RunAppend(START, "(?<" + name + ">" + subMatch, ")");
    RunOne(open.Run(subMatch), ')');
  }

  /** Nothing is lost for further wrapping. */
  lemma NestingComposes(name: string, subMatch: string)
    requires '>' !in name && EndsNormally(subMatch)
    ensures var whole := MakeNamedSubMatch(name, subMatch);
            Nests(name, subMatch) && EndsNormally(whole) && Groups(whole) == 1 + Groups(subMatch)
  {
    NestedRun(name, subMatch);
    NamePending(START, subMatch);
  }

  lemma {:induction false} NamesHaveNoFinish(p: Scanner, s: string)
    requires '>' !in p.name && forall n <- p.names :: '>' !in n
    ensures '>' !in p.Run(s).name && forall n <- p.Run(s).names :: '>' !in n
    decreases |s|
  {
    if s != "" {
      NamesHaveNoFinish(p.Step(s[0]), s[1..]);
    }
  }

  /** Exactly when wrapping does that: the name can be written, and the closing parenthesis is not read as part of
      an extension or of a name. */
  lemma NestsIff(name: string, subMatch: string)
    ensures Nests(name, subMatch) <==>
            '>' !in name && !START.Run(subMatch).state.ExtendedSubMatch? && !START.Run(subMatch).state.NamedSubMatch?
  {
    if '>' in name {
      NamesHaveNoFinish(START, MakeNamedSubMatch(name, subMatch));
      assert name in map[name := 1] + Shifted(Parse(subMatch).1, 1);
    } else {
      NestedRun(name, subMatch);
      var q := START.Run(subMatch);
      var whole := After(Scanner(Normal, "(", map[name := 1], 1, ""), q).Step(')');
      assert Parse(MakeNamedSubMatch(name, subMatch)) == (whole.text, whole.names);
      if q.state.ExtendedSubMatch? {
        assert |whole.text| == |q.text| + 3;
      } else if q.state.NamedSubMatch? {
        assert |whole.text| == |q.text| + 1;
      } else {
        assert whole.text == "(" + q.text + ")";
      }
    }
  }

  // ---------- The engine's numbers ----------

  datatype Reading =
    | Plain
    | AfterBackslash
    | AfterControl
    | Opened
    | Extension
    | InClass
    | ClassBackslash
    | ClassControl
    | ClassBracket
    | ClassName(close: char)
    | ClassNameEnd
    | Rejected

  /** How std::regex numbers groups ([re.grammar] of ISO/IEC 14882, on the grammar of ECMAScript): a parenthesis counts
      unless it is escaped, the letter of a control escape, in a character class, or followed by a question mark.
      Inside a class, "[:", "[." and "[=" begin names, which end with the same character and a bracket; a class
      ends at the first bracket outside those. A name that ends otherwise, and a question mark that begins no
      assertion and no group without a number, make the engine reject the regex. */
  datatype Engine = Engine(reading: Reading, groups: int) {
    function Step(c: char): Engine {
      match reading
      case Plain => Outside(c)
      case Opened => if c == '?' then Engine(Extension, groups - 1) else Outside(c)
      case Extension => Engine(if c in "=!:" then Plain else Rejected, groups)
      case AfterBackslash => Engine(if c == 'c' then AfterControl else Plain, groups)
      case AfterControl => Engine(Plain, groups)
      case InClass => Engine(Inside(c), groups)
      case ClassBackslash => Engine(if c == 'c' then ClassControl else InClass, groups)
      case ClassControl => Engine(InClass, groups)
      case ClassBracket => Engine(if c in ":.=" then ClassName(c) else Inside(c), groups)
      case ClassName(close) => Engine(if c == close then ClassNameEnd else reading, groups)
      case ClassNameEnd => Engine(if c == ']' then InClass else Rejected, groups)
      case Rejected => this
    }

    function Outside(c: char): Engine {
      if c == '\\' then Engine(AfterBackslash, groups)
      else if c == '(' then Engine(Opened, groups + 1)
      else if c == '[' then Engine(InClass, groups)
      else Engine(Plain, groups)
    }

    function Inside(c: char): Reading {
      if c == ']' then Plain else if c == '\\' then ClassBackslash else if c == '[' then ClassBracket else InClass
    }

    /** Whether a parenthesis opens a group here. */
    predicate CanOpen() {
      reading.Plain? || reading.Opened?
    }
  }

  /** Reads a text from its end, so that reading one more character is one more step. */
  ghost function Numbering(text: string): Engine {
    if text == "" then Engine(Plain, 0) else Numbering(text[..|text| - 1]).Step(text[|text| - 1])
  }

  lemma NumberingAppend(text: string, c: char)
    ensures Numbering(text + [c]) == Numbering(text).Step(c)
  {
    assert (text + [c])[..|text|] == text;
  }

  // ---------- Where the scanner and the engine differ ----------

  /** One more where the scanner counts a parenthesis that opens no group, and where a question mark stands behind a
      specifier, which has hidden from the scanner that the group has no number. One less where the scanner takes
      back for an assertion what the engine has not counted, and where a group opens that the scanner skips, as it
      takes it for escaped or for part of an unknown extension. */
  ghost function Stray(state: State, engine: Engine, c: char): int {
    match state
    case Normal => if c == '(' && !engine.CanOpen() then 1 else if c == '?' && engine.reading.Opened? then 1 else 0
    case SubMatch => if c == '(' && !engine.CanOpen() then 1 else 0
    case ExtendedSubMatch =>
      if c in "=!:" && !engine.reading.Opened? then -1 else if c == '(' && engine.Step('?').CanOpen() then -1 else 0
    case NamedSubMatch => 0
    case _ => if c == '(' && engine.CanOpen() then -1 else if c == '?' && engine.reading.Opened? then 1 else 0
  }

  /** The strays of a regex, read on from `p`. */
  ghost function Excess(p: Scanner, regex: string): int
    decreases |regex|
  {
    if regex == "" then 0 else Stray(p.state, Numbering(p.text), regex[0]) + Excess(p.Step(regex[0]), regex[1..])
  }

  ghost predicate Copies(state: State, c: char) {
    match state
    case Normal => true
    case Escaped => true
    case SubMatch => c != '?'
    case UnknownExtension => true
    case _ => false
  }

  /** What the scanner copies the engine reads, and the rest of a group's opening is read once the group turns
      out not to be a named one. */
  ghost function EngineStep(state: State, engine: Engine, c: char): Engine {
    if state.ExtendedSubMatch? && c != '<' then engine.Step('?').Step(c)
    else if Copies(state, c) then engine.Step(c)
    else engine
  }

  lemma StepStrays(p: Scanner, engine: Engine, c: char)
    ensures var next := EngineStep(p.state, engine, c);
            || next.reading.Rejected?
            || p.Step(c).count - next.groups == p.count - engine.groups + Stray(p.state, engine, c)
  {
  }

  lemma StepNumbering(p: Scanner, c: char)
    ensures Numbering(p.Step(c).text) == EngineStep(p.state, Numbering(p.text), c)
  {
    if p.state.ExtendedSubMatch? && c != '<' {
      NumberingAppend(p.text, '?');
      NumberingAppend(p.text + "?", c);
    } else if Copies(p.state, c) {
      NumberingAppend(p.text, c);
    }
  }

  lemma {:induction false} RejectedStays(p: Scanner, s: string)
    requires Numbering(p.text).reading.Rejected?
    ensures Numbering(p.Run(s).text).reading.Rejected?
    decreases |s|
  {
    if s != "" {
      StepNumbering(p, s[0]);
      RejectedStays(p.Step(s[0]), s[1..]);
    }
  }

  /** For every regex that the engine does not reject, the scanner's count exceeds the groups the engine finds in the
      text written so far by exactly the strays. */
  lemma {:induction false} CountExceedsByStrays(p: Scanner, s: string)
    ensures var q := p.Run(s);
            || Numbering(q.text).reading.Rejected?
            || q.count - Numbering(q.text).groups == p.count - Numbering(p.text).groups + Excess(p, s)
    decreases |s|
  {
    if s != "" {
      StepStrays(p, Numbering(p.text), s[0]);
      StepNumbering(p, s[0]);
      CountExceedsByStrays(p.Step(s[0]), s[1..]);
      if Numbering(p.Step(s[0]).text).reading.Rejected? {
        RejectedStays(p.Step(s[0]), s[1..]);
      }
    }
  }

  lemma FirstCharCopied(s: string)
    ensures if s == "" then Parse(s).0 == "" else Parse(s).0 != "" && Parse(s).0[0] == s[0]
  {
    if s != "" {
      assert "" + [s[0]] == [s[0]];
      TextGrows(START.Step(s[0]), s[1..]);
    }
  }

  lemma {:induction false} TextGrows(p: Scanner, s: string)
    ensures p.text <= p.Run(s).text
    decreases |s|
  {
    if s != "" {
      TextGrows(p.Step(s[0]), s[1..]);
    }
  }

  /** The parenthesis at this position opens the engine's n-th capturing group. */
  ghost predicate IsGroup(text: string, at: nat, n: int) {
    && at < |text| && Numbering(text[..at + 1]) == Engine(Opened, n)
    && (at + 1 < |text| ==> text[at + 1] != '?')
  }

  /** Where a named group's parenthesis is written, and the number recorded for the name, unless the same name is
      defined again further on. */
  lemma NamedGroupWritten(before: string, name: string, rest: string)
    requires '>' !in name && (START.Run(before).state.Normal? || START.Run(before).state.SubMatch?)
    ensures var (text, names) := Parse(before + ("(?<" + name + ">" + rest));
            var p := START.Run(before);
            && text == p.text + "(" + Parse(rest).0
            && name in names && (name !in Parse(rest).1 ==> names[name] == p.count + 1)
  {
    var p := START.Run(before);
    var opening := "(?<" + name + ">";
    NamePending(START, before);
    RunAppend(START, before, opening + rest);
    RunAppend(p, opening, rest);
    OpensGroup(p, name);
    ContinuesNormally(p.Run(opening), rest);
  }

  lemma GroupWritten(before: string, after: string, n: int)
    ensures IsGroup(before + "(" + after, |before|, n) <==>
            Numbering(before).CanOpen() && Numbering(before).groups + 1 == n && (after == "" || after[0] != '?')
  {
    var text := before + "(" + after;
    Parts(before + "(", after);
    NumberingAppend(before, '(');
    OpensAs(Numbering(before), n);
    assert after != "" ==> text[|before| + 1] == after[0];
  }

  lemma OpensAs(e: Engine, n: int)
    ensures e.Step('(') == Engine(Opened, n) <==> e.CanOpen() && e.groups + 1 == n
  {
  }

  lemma StartExceedsByStrays(before: string)
    ensures var (p, e) := (START.Run(before), Numbering(Parse(before).0));
            e.CanOpen() ==> p.count == e.groups + Excess(START, before)
  {
    CountExceedsByStrays(START, before);
  }

  /** The last definition of a name: the specifier is read as one, and the rest does not define the name again. */
  ghost predicate Defines(regex: string, before: string, name: string, rest: string) {
    && regex == before + ("(?<" + name + ">" + rest)
    && '>' !in name && (START.Run(before).state.Normal? || START.Run(before).state.SubMatch?)
    && name !in Parse(rest).1
  }

  /** The group is one for the engine too, and the scanner has counted up to it as the engine has. */
  ghost predicate InStep(before: string, rest: string) {
    Numbering(Parse(before).0).CanOpen() && Excess(START, before) == 0 && (rest == "" || rest[0] != '?')
  }

  /** The number recorded for a name is that of its group exactly when the group does not stand in a character class
      or behind an escape, the strays before it cancel out, and the specifier is not followed by a question mark;
      it is off by exactly the strays. Nothing is asked of the rest of the regex but that it does not define the
      name again. */
  lemma NameIsOrdinalIff(regex: string, before: string, name: string, rest: string)
    requires Defines(regex, before, name, rest)
    ensures var (text, names) := Parse(regex);
            name in names && (IsGroup(text, |Parse(before).0|, names[name]) <==> InStep(before, rest))
    ensures Numbering(Parse(before).0).CanOpen() ==>
              Parse(regex).1[name] == Numbering(Parse(before).0 + "(").groups + Excess(START, before)
  {
    var p := START.Run(before);
    NamedGroupWritten(before, name, rest);
    StartExceedsByStrays(before);
    GroupWritten(p.text, Parse(rest).0, p.count + 1);
    GroupNumber(p.text);
    FirstCharCopied(rest);
  }

  lemma GroupNumber(text: string)
    ensures Numbering(text).CanOpen() ==> Numbering(text + "(").groups == Numbering(text).groups + 1
  {
    NumberingAppend(text, '(');
  }

  // ---------- All names of a regex ----------

  lemma LastStep(s: string)
    requires s != ""
    ensures START.Run(s) == START.Run(s[..|s| - 1]).Step(s[|s| - 1])
  {
    InitLast(s);
    RunLast(s[..|s| - 1], s[|s| - 1]);
  }

  lemma RunLast(front: string, c: char)
    ensures START.Run(front + [c]) == START.Run(front).Step(c)
  {
    RunAppend(START, front, [c]);
    RunOne(START.Run(front), c);
  }

  lemma PendingExtension(s: string) returns (before: string)
    requires START.Run(s).state.ExtendedSubMatch?
    ensures s == before + "(?" && (START.Run(before).state.Normal? || START.Run(before).state.SubMatch?)
  {
    var front := s[..|s| - 1];
    LastStep(s);
    LastStep(front);
    before := front[..|front| - 1];
    assert front == before + "(" && s == front + "?";
  }

  /** A name being read stands behind the opening of a group. */
  lemma {:induction false} PendingName(s: string) returns (before: string)
    requires START.Run(s).state.NamedSubMatch?
    ensures s == before + "(?<" + START.Run(s).name && '>' !in START.Run(s).name
    ensures START.Run(before).state.Normal? || START.Run(before).state.SubMatch?
    decreases |s|
  {
    var n := |s| - 1;
    var front := s[..n];
    LastStep(s);
    if START.Run(front).state.NamedSubMatch? {
      before := PendingName(front);
    } else {
      NamePending(START, front);
      before := PendingExtension(front);
    }
  }

  /** Where a recorded name is defined last. */
  lemma {:induction false} LastDefinition(regex: string, name: string) returns (before: string, rest: string)
    requires name in Parse(regex).1
    ensures Defines(regex, before, name, rest)
    decreases |regex|
  {
    var n := |regex| - 1;
    var front, c := regex[..n], regex[n];
    var p := START.Run(front);
    LastStep(regex);
    if p.state.NamedSubMatch? && c == '>' && p.name == name {
      before := PendingName(front);
      rest := "";
    } else {
      var more: string;
      before, more := LastDefinition(front, name);
      rest := more + [c];
      DefinedBefore(front, before, name, more, c);
    }
  }

  /** A definition stays the last one unless the next character completes another. */
  lemma DefinedBefore(front: string, before: string, name: string, more: string, c: char)
    requires Defines(front, before, name, more)
    requires var p := START.Run(front); !(p.state.NamedSubMatch? && c == '>' && p.name == name)
    ensures Defines(front + [c], before, name, more + [c])
  {
    RunBehind(before, name, more);
    RunLast(more, c);
    Associates(before, "(?<" + name + ">" + more, [c]);
    Associates("(?<" + name + ">", more, [c]);
  }

  /** Behind the opening of a group the scanner goes on as from the start. */
  lemma RunBehind(before: string, name: string, more: string)
    requires '>' !in name && (START.Run(before).state.Normal? || START.Run(before).state.SubMatch?)
    ensures var p := START.Run(before + ("(?<" + name + ">" + more));
            p.state == START.Run(more).state && p.name == START.Run(more).name
  {
    var opening := "(?<" + name + ">";
    NamePending(START, before);
    OpensGroup(START.Run(before), name);
    RunAppend(START, before, opening + more);
    RunAppend(START.Run(before), opening, more);
    ContinuesNormally(START.Run(before).Run(opening), more);
  }

  /** Exactly the names with a definition are recorded. */
  lemma RecordedIffDefined(regex: string, name: string)
    ensures name in Parse(regex).1 <==> exists before, rest :: Defines(regex, before, name, rest)
  {
    if name in Parse(regex).1 {
      var before, rest := LastDefinition(regex, name);
    }
    forall before, rest | Defines(regex, before, name, rest) {
      NamedGroupWritten(before, name, rest);
    }
  }

  /** The part of a regex between two definitions of a name. */
  lemma DefinedAgain(a: string, name: string, rest: string, b: string, rest': string)
    requires Defines(a + ("(?<" + name + ">" + rest), a, name, rest) && Defines(a + ("(?<" + name + ">" + rest), b, name, rest')
    ensures |b| <= |a|
  {
    if |a| < |b| {
      var opening, k := "(?<" + name + ">", |b| - |a|;
      Overlap(a, opening + rest, b, opening + rest');
      if |opening| <= k {
        var between := rest[..k - |opening|];
        assert (opening + rest)[..k] == opening + between;
        assert rest == between + (opening + rest');
        DefinesFurther(a, name, between, rest');
      } else {
        assert (opening + rest)[..k] == opening[..k] && opening[k] == (opening + rest)[k];
        InsideOpening(a, name, k);
      }
    }
  }

  lemma DefinesFurther(a: string, name: string, between: string, rest: string)
    requires '>' !in name && (START.Run(a).state.Normal? || START.Run(a).state.SubMatch?)
    requires var p := START.Run(a + ("(?<" + name + ">" + between)); p.state.Normal? || p.state.SubMatch?
    ensures name in Parse(between + ("(?<" + name + ">" + rest)).1
  {
    RunBehind(a, name, between);
    NamedGroupWritten(between, name, rest);
  }

  /** Inside the opening of a named group no other can be opened. */
  lemma InsideOpening(a: string, name: string, k: nat)
    requires '>' !in name && (START.Run(a).state.Normal? || START.Run(a).state.SubMatch?)
    requires 0 < k < |"(?<" + name + ">"| && ("(?<" + name + ">")[k] == '('
    ensures var p := START.Run(a + ("(?<" + name + ">")[..k]); !p.state.Normal? && !p.state.SubMatch?
  {
    var opening := "(?<" + name + ">";
    var p, part := START.Run(a), name[..k - 3];
    assert opening[..k] == "(?<" + part;
    assert forall c <- part :: c in name;
    RunAppend(START, a, opening[..k]);
    RunAppend(p, "(?<", part);
    RunOne(p, '(');
    RunAppend(p, "(", "?<");
    assert "(" + "?<" == "(?<";
    NamePending(START, a);
    ReadsName(p.Run("(?<"), part);
  }

  /** A recorded name has one last definition. */
  lemma DefinitionIsUnique(regex: string, name: string, a: string, rest: string, b: string, rest': string)
    requires Defines(regex, a, name, rest) && Defines(regex, b, name, rest')
    ensures a == b && rest == rest'
  {
    DefinedAgain(a, name, rest, b, rest');
    DefinedAgain(b, name, rest', a, rest);
    var opening := "(?<" + name + ">";
    Parts(a, opening + rest);
    Parts(b, opening + rest');
    Parts(opening, rest);
    Parts(opening, rest');
  }

  /** The number recorded for a name is that of the group its last definition opens. */
  ghost predicate NumberIsOrdinal(regex: string, name: string) {
    exists before, rest :: Defines(regex, before, name, rest) && name in Parse(regex).1
      && IsGroup(Parse(regex).0, |Parse(before).0|, Parse(regex).1[name])
  }

  /** All numbers recorded for a regex are right exactly when the scanner is in step with the engine at the last
      definition of every name. */
  lemma NumbersAreOrdinalsIff(regex: string)
    ensures (forall name | name in Parse(regex).1 :: NumberIsOrdinal(regex, name)) <==>
            (forall before, name, rest | Defines(regex, before, name, rest) :: InStep(before, rest))
  {
    forall before, name, rest | Defines(regex, before, name, rest)
      ensures name in Parse(regex).1 && (NumberIsOrdinal(regex, name) <==> InStep(before, rest))
    {
      NameIsOrdinalIff(regex, before, name, rest);
      forall b, r | Defines(regex, b, name, r)
        ensures b == before && r == rest
      {
        DefinitionIsUnique(regex, name, before, rest, b, r);
      }
    }
    forall name | name in Parse(regex).1
      ensures exists before, rest :: Defines(regex, before, name, rest)
    {
      RecordedIffDefined(regex, name);
    }
  }

  // ---------- Classes ----------

  lemma {:induction false} RunsPlainly(p: Scanner, s: string)
    requires p.state.Normal? && forall c <- s :: c != '\\' && c != '('
    ensures p.Run(s) == p.(text := p.text + s)
    decreases |s|
  {
    if s == "" {
      assert p.text + s == p.text;
    } else {
      assert s[0] in s && forall c <- s[1..] :: c in s;
      RunsPlainly(p.Step(s[0]), s[1..]);
      HeadTail(s);
      Associates(p.text, [s[0]], s[1..]);
    }
  }

  /** A class with a parenthesis in it, which is one for the engine and a group for the scanner. */
  ghost predicate IsCountedClass(brackets: string) {
    START.Run(brackets) == Scanner(Normal, brackets, map[], 1, "") && Numbering(brackets) == Engine(Plain, 0)
  }

  lemma ScanParenthesisIn(front: string)
    requires forall c <- front :: c != '\\' && c != '('
    ensures START.Run(front + "(]") == Scanner(Normal, front + "(]", map[], 1, "")
  {
    RunsPlainly(START, front);
    EmptyPrefix(front);
    var p, q := Scanner(Normal, front, map[], 0, ""), Scanner(SubMatch, front + "(", map[], 1, "");
    RunAppend(START, front, "(]");
    assert "(]"[1..] == "]" && "]"[1..] == "";
    assert p.Step('(') == q && front + "(" + [']'] == front + "(]";
  }

  /** Behind such a class a named group gets number 2, and the engine finds it to be the first. */
  lemma ClassMiscounts(brackets: string)
    requires IsCountedClass(brackets)
    ensures Parse(brackets + "(?<n>x)") == (brackets + "(x)", map["n" := 2]) && IsGroup(brackets + "(x)", |brackets|, 1)
  {
    ConcatenationComposes(brackets, "(?<n>x)");
    SevenAtStart();
    ShiftedOne();
    GroupBehind(brackets);
  }

  lemma ShiftedOne()
    ensures map[] + Shifted(map["n" := 1], 1) == map["n" := 2]
  {
  }

  lemma GroupBehind(brackets: string)
    requires Numbering(brackets) == Engine(Plain, 0)
    ensures IsGroup(brackets + "(x)", |brackets|, 1)
  {
    GroupWritten(brackets, "x)", 1);
    Associates(brackets, "(", "x)");
    assert "(" + "x)" == "(x)";
  }

  lemma NumberClass()
    ensures Numbering("[(]") == Engine(Plain, 0)
  {
    AppendThree("", '[', '(', ']');
    NumberingAppend("", '[');
    NumberingAppend("" + ['['], '(');
    NumberingAppend("" + ['['] + ['('], ']');
  }

  lemma AppendThree(s: string, a: char, b: char, c: char)
    ensures s + [a] + [b] + [c] == s + [a, b, c]
  {
  }

  /** A parenthesis in a character class is counted as a group, so the number of a name behind it is one too high:
      an engine finds a single group in the text of this regex, which is the one named n. */
  lemma ParenthesisInClassMiscounts()
    ensures Parse("[(](?<n>x)") == ("[(](x)", map["n" := 2]) && IsGroup("[(](x)", 3, 1)
  {
    ScanParenthesisIn("[");
    NumberClass();
    assert "[" + "(]" == "[(]" && "[(]" + "(?<n>x)" == "[(](?<n>x)" && "[(]" + "(x)" == "[(](x)";
    ClassMiscounts("[(]");
  }

  lemma {:induction false} NumberClassName(text: string, name: string)
    requires Numbering(text) == Engine(ClassName(':'), 0) && ':' !in name
    ensures Numbering(text + name) == Engine(ClassName(':'), 0)
    decreases |name|
  {
    if name == "" {
      assert text + name == text;
    } else {
      assert name[0] in name && forall c <- name[1..] :: c in name;
      NumberingAppend(text, name[0]);
      NumberClassName(text + [name[0]], name[1..]);
      HeadTail(name);
      Associates(text, [name[0]], name[1..]);
    }
  }

  lemma NumberNamedClass(name: string)
    requires ':' !in name
    ensures Numbering("[[:" + name + ":]" + "(]") == Engine(Plain, 0)
  {
    AppendThree("", '[', '[', ':');
    NumberingAppend("", '[');
    NumberingAppend("" + ['['], '[');
    NumberingAppend("" + ['['] + ['['], ':');
    NumberClassName("[[:", name);
    NumberTwo("[[:" + name, ':', ']');
    NumberTwo("[[:" + name + ":]", '(', ']');
  }

  lemma NumberTwo(text: string, a: char, b: char)
    ensures Numbering(text + [a, b]) == Numbering(text).Step(a).Step(b)
  {
    AppendTwo(text, a, b);
    NumberingAppend(text, a);
    NumberingAppend(text + [a], b);
  }

  lemma AppendTwo(s: string, a: char, b: char)
    ensures s + [a] + [b] == s + [a, b]
  {
  }

  /** So it is behind the name of a named class, whatever the name, as its bracket does not end the class. */
  lemma ParenthesisBehindClassNameMiscounts(name: string)
    requires forall c <- name :: c != ':' && c != '\\' && c != '('
    ensures var brackets := "[[:" + name + ":]" + "(]";
            && Parse(brackets + "(?<n>x)") == (brackets + "(x)", map["n" := 2])
            && IsGroup(brackets + "(x)", |brackets|, 1)
  {
    ScanParenthesisIn("[[:" + name + ":]");
    NumberNamedClass(name);
    ClassMiscounts("[[:" + name + ":]" + "(]");
  }
}
