/** What the scanner of named groups does to a regex written piece by piece: it drops the specifiers and nothing else, and
    numbers each named group by its place among the groups that capture. */
module RegexPiecesProofs {
  import opened RegexNames
  import opened RegexNamesProofs
  import opened Sequences

  /** A character for itself or behind a backslash, the opening of a group or of a named one, or of an assertion or a
      group that does not capture. */
  datatype Piece = Single(c: char) | Backslashed(c: char) | Group | NamedGroup(name: string) | Assertion(kind: char)

  ghost function Written(piece: Piece): string {
    match piece
    case Single(c) => [c]
    case Backslashed(c) => ['\\', c]
    case Group => "("
    case NamedGroup(name) => "(?<" + name + ">"
    case Assertion(kind) => ['(', '?', kind]
  }

  ghost function Regex(pieces: seq<Piece>): string {
    if pieces == [] then "" else Written(pieces[0]) + Regex(pieces[1..])
  }

  /** The regex with named groups turned into plain ones. */
  ghost function PlainRegex(pieces: seq<Piece>): string {
    if pieces == [] then ""
    else (if pieces[0].NamedGroup? then "(" else Written(pieces[0])) + PlainRegex(pieces[1..])
  }

  /** Each name with the number of its group, when `count` groups have been opened before; later names win. */
  ghost function Numbers(pieces: seq<Piece>, count: int, names: map<string, int>): map<string, int>
    decreases |pieces|
  {
    if pieces == [] then names
    else
      match pieces[0]
      case Group => Numbers(pieces[1..], count + 1, names)
      case NamedGroup(name) => Numbers(pieces[1..], count + 1, names[name := count + 1])
      case _ => Numbers(pieces[1..], count, names)
  }

  ghost predicate IsPiece(piece: Piece) {
    match piece
    case Single(c) => c != '\\' && c != '('
    case Backslashed(_) => true
    case Group => true
    case NamedGroup(name) => '>' !in name
    case Assertion(kind) => kind == '=' || kind == '!' || kind == ':'
  }

  /** A question mark directly behind a parenthesis is part of that piece. */
  ghost predicate ArePieces(pieces: seq<Piece>) {
    && (forall piece <- pieces :: IsPiece(piece))
    && forall i | 0 < i < |pieces| && pieces[i - 1].Group? :: pieces[i] != Single('?')
  }

  /** The scanner between two pieces. */
  ghost predicate Between(p: Scanner, pieces: seq<Piece>) {
    && p.name == "" && (p.state.Normal? || p.state.SubMatch?)
    && (p.state.SubMatch? && pieces != [] ==> pieces[0] != Single('?'))
  }

  ghost function AfterPiece(p: Scanner, piece: Piece): Scanner {
    match piece
    case Single(c) => Scanner(Normal, p.text + [c], p.names, p.count, "")
    case Backslashed(c) => Scanner(Normal, p.text + ['\\', c], p.names, p.count, "")
    case Group => Scanner(SubMatch, p.text + "(", p.names, p.count + 1, "")
    case NamedGroup(name) => Scanner(Normal, p.text + "(", p.names[name := p.count + 1], p.count + 1, "")
    case Assertion(kind) => Scanner(Normal, p.text + ['(', '?', kind], p.names, p.count, "")
  }

  lemma RunBackslashed(p: Scanner, c: char)
    requires p.state.Normal? || p.state.SubMatch?
    ensures p.Run(['\\', c]) == p.(text := p.text + ['\\', c], state := Normal)
  {
    RunOne(p, '\\');
    RunAppend(p, ['\\'], [c]);
    RunOne(p.Step('\\'), c);
    AppendTwo(p.text, '\\', c);
    assert ['\\'] + [c] == ['\\', c];
  }

  lemma RunAssertion(p: Scanner, kind: char)
    requires (p.state.Normal? || p.state.SubMatch?) && (kind == '=' || kind == '!' || kind == ':')
    ensures p.Run(['(', '?', kind]) == p.(text := p.text + ['(', '?', kind], state := Normal)
  {
    var open := p.Step('(');
    RunOne(p, '(');
    RunAppend(p, ['('], ['?']);
    RunOne(open, '?');
    RunAppend(p, ['('] + ['?'], [kind]);
    RunOne(open.Step('?'), kind);
    assert ['('] + ['?'] + [kind] == ['(', '?', kind];
    assert p.text + ['('] + "?" + [kind] == p.text + ['(', '?', kind];
  }

  lemma RunPiece(p: Scanner, pieces: seq<Piece>)
    requires pieces != [] && Between(p, pieces) && IsPiece(pieces[0])
    ensures p.Run(Written(pieces[0])) == AfterPiece(p, pieces[0])
  {
    match pieces[0]
    case Single(c) => RunOne(p, c);
    case Backslashed(c) => RunBackslashed(p, c);
    case Group => RunOne(p, '(');
    case NamedGroup(name) => OpensGroup(p, name);
    case Assertion(kind) => RunAssertion(p, kind);
  }

  lemma {:induction false} RunPieces(p: Scanner, pieces: seq<Piece>)
    requires ArePieces(pieces) && Between(p, pieces)
    ensures var q := p.Run(Regex(pieces));
            q.text == p.text + PlainRegex(pieces) && q.names == Numbers(pieces, p.count, p.names)
    decreases |pieces|
  {
    if pieces == [] {
      assert p.text + "" == p.text;
    } else {
      var piece, rest := pieces[0], pieces[1..];
      RunFirstPiece(p, pieces);
      RunPieces(AfterPiece(p, piece), rest);
      AfterPieceText(p, piece);
      Associates(p.text, if piece.NamedGroup? then "(" else Written(piece), PlainRegex(rest));
    }
  }

  lemma RunFirstPiece(p: Scanner, pieces: seq<Piece>)
    requires ArePieces(pieces) && Between(p, pieces) && pieces != []
    ensures p.Run(Regex(pieces)) == AfterPiece(p, pieces[0]).Run(Regex(pieces[1..]))
    ensures ArePieces(pieces[1..]) && Between(AfterPiece(p, pieces[0]), pieces[1..])
  {
    RunPiece(p, pieces);
    RunAppend(p, Written(pieces[0]), Regex(pieces[1..]));
    RestArePieces(pieces);
  }

  lemma AfterPieceText(p: Scanner, piece: Piece)
    ensures AfterPiece(p, piece).text == p.text + if piece.NamedGroup? then "(" else Written(piece)
  {
  }

  lemma RestArePieces(pieces: seq<Piece>)
    requires ArePieces(pieces) && pieces != []
    ensures ArePieces(pieces[1..]) && (pieces[0].Group? && |pieces| > 1 ==> pieces[1] != Single('?'))
  {
    assert forall i | 0 <= i < |pieces[1..]| :: pieces[1..][i] == pieces[i + 1];
  }

  /** The text of a regex keeps every piece, named groups as plain ones, and every name is recorded with the ordinal of
      its group among all groups opened. */
  lemma PiecesAreRead(pieces: seq<Piece>)
    requires ArePieces(pieces)
    ensures Parse(Regex(pieces)) == (PlainRegex(pieces), Numbers(pieces, 0, map[]))
  {
    RunPieces(START, pieces);
    EmptyPrefix(PlainRegex(pieces));
  }

  // ---------- Which regexes are written in pieces ----------

  /** The scanner has stopped between two pieces, and has met no extension it does not know. */
  ghost predicate KnowsAll(p: Scanner, regex: string)
    decreases |regex|
  {
    if regex == "" then p.state.Normal? || p.state.SubMatch?
    else (p.state.ExtendedSubMatch? ==> regex[0] in "<=!:") && KnowsAll(p.Step(regex[0]), regex[1..])
  }

  ghost predicate AreWritten(s: string, pieces: seq<Piece>) {
    ArePieces(pieces) && Regex(pieces) == s
  }

  lemma PieceInFront(piece: Piece, s: string, rest: seq<Piece>)
    requires IsPiece(piece) && AreWritten(s, rest) && (piece.Group? && s != "" ==> s[0] != '?')
    ensures AreWritten(Written(piece) + s, [piece] + rest)
  {
    var pieces := [piece] + rest;
    assert pieces[1..] == rest;
    forall i | 0 < i < |pieces| && pieces[i - 1].Group?
      ensures pieces[i] != Single('?')
    {
      if i > 1 {
        assert rest[i - 2] == pieces[i - 1] && rest[i - 1] == pieces[i];
      }
    }
  }

  lemma {:induction false} NamePieces(p: Scanner, s: string) returns (name: string, rest: string)
    requires p.state.NamedSubMatch? && '>' !in p.name && KnowsAll(p, s)
    ensures p.name + s == name + ">" + rest && '>' !in name && |rest| < |s|
    ensures exists q: Scanner :: q.state.Normal? && q.name == "" && KnowsAll(q, rest)
    decreases |s|
  {
    HeadTail(s);
    if s[0] == '>' {
      name, rest := p.name, s[1..];
      assert KnowsAll(p.Step('>'), rest) && p.Step('>').state.Normal?;
      Associates(p.name, ">", rest);
    } else {
      name, rest := NamePieces(p.Step(s[0]), s[1..]);
      Associates(p.name, [s[0]], s[1..]);
    }
  }

  /** Any regex that the scanner reads to its end without an unknown extension, and without stopping inside a piece, is
      written in pieces, so the theorem above is about all of these. */
  lemma {:induction false} WrittenInPieces(p: Scanner, s: string) returns (pieces: seq<Piece>)
    requires p.state.Normal? && p.name == "" && KnowsAll(p, s)
    ensures AreWritten(s, pieces)
    decreases |s|
  {
    if s == "" {
      pieces := [];
    } else {
      HeadTail(s);
      var q, t := p.Step(s[0]), s[1..];
      if s[0] == '\\' {
        HeadTail(t);
        var rest := WrittenInPieces(q.Step(t[0]), t[1..]);
        pieces := [Backslashed(t[0])] + rest;
        PieceInFront(Backslashed(t[0]), t[1..], rest);
        assert ['\\', t[0]] + t[1..] == s;
      } else if s[0] == '(' {
        pieces := GroupInPieces(p, q, s);
      } else {
        var rest := WrittenInPieces(q, t);
        pieces := [Single(s[0])] + rest;
        PieceInFront(Single(s[0]), t, rest);
      }
    }
  }

  lemma {:induction false} GroupInPieces(p: Scanner, q: Scanner, s: string) returns (pieces: seq<Piece>)
    requires s != "" && s[0] == '(' && q.state.SubMatch? && q.name == "" && KnowsAll(q, s[1..])
    ensures AreWritten(s, pieces)
    decreases |s|, 0
  {
    HeadTail(s);
    var t := s[1..];
    if t == "" || t[0] != '?' {
      SubMatchIsNormal(q, t);
      var rest := WrittenInPieces(q.(state := Normal), t);
      pieces := [Group] + rest;
      PieceInFront(Group, t, rest);
    } else {
      HeadTail(t);
      var e, u := q.Step('?'), t[1..];
      HeadTail(u);
      if u[0] == '<' {
        var name, more := NamePieces(e.Step('<'), u[1..]);
        var n: Scanner :| n.state.Normal? && n.name == "" && KnowsAll(n, more);
        var rest := WrittenInPieces(n, more);
        pieces := [NamedGroup(name)] + rest;
        PieceInFront(NamedGroup(name), more, rest);
        NamedAssociates(name, more);
        assert s == "(?<" + u[1..];
        EmptyPrefix(u[1..]);
      } else {
        var rest := WrittenInPieces(e.Step(u[0]), u[1..]);
        pieces := [Assertion(u[0])] + rest;
        PieceInFront(Assertion(u[0]), u[1..], rest);
        assert ['(', '?', u[0]] + u[1..] == s;
      }
    }
  }

  lemma NamedAssociates(name: string, rest: string)
    ensures "(?<" + (name + ">" + rest) == ("(?<" + name + ">") + rest
  {
  }

  /** With no question mark to come, a parenthesis just read makes no difference. */
  lemma SubMatchIsNormal(q: Scanner, s: string)
    requires q.state.SubMatch? && (s != "" ==> s[0] != '?') && KnowsAll(q, s)
    ensures KnowsAll(q.(state := Normal), s)
  {
    if s != "" {
      assert q.Step(s[0]) == q.(state := Normal).Step(s[0]);
    }
  }
}
