/** Query strings of parameters (encode_elements and decode_elements of api_utils.cpp, query_from_value and
    value_from_query of json_utils.cpp). Texts are bytes, held as characters below 256. */
module QueryCodec {
  import opened Results
  import opened Json
  import opened Sequences

  datatype UriError = NotTwoHexDigits

  // ---------- Percent-encoding ----------

  predicate IsAlnum(c: char) {
    '0' <= c <= '9' || 'A' <= c <= 'Z' || 'a' <= c <= 'z'
  }

  const SAFE := "-._~!$'()*,/:@?"

  predicate IsQueryValueUnsafe(c: char) {
    !IsAlnum(c) && c !in SAFE
  }

  const HEX := "0123456789ABCDEF"

  function EncodeChar(c: char, unsafe: char -> bool): string {
    if unsafe(c) then ['%', HEX[c as int / 16 % 16], HEX[c as int % 16]] else [c]
  }

  ghost function Encoded(raw: string, unsafe: char -> bool): string {
    if raw == "" then "" else EncodeChar(raw[0], unsafe) + Encoded(raw[1..], unsafe)
  }

  /** `unsafe` decides which characters are written as triplets. */
  method EncodeText(raw: string, unsafe: char -> bool) returns (encoded: string)
    ensures encoded == Encoded(raw, unsafe)
  {
    encoded := "";
    for i := 0 to |raw|
      invariant encoded + Encoded(raw[i..], unsafe) == Encoded(raw, unsafe)
    {
      assert raw[i..][0] == raw[i] && raw[i..][1..] == raw[i + 1..];
      ghost var before := encoded;
      var ch := raw[i];
      if unsafe(ch) {
        encoded := encoded + ['%'];
        encoded := encoded + [HEX[ch as int / 16 % 16]];
        encoded := encoded + [HEX[ch as int % 16]];
      } else {
        encoded := encoded + [ch];
      }
      assert encoded == before + EncodeChar(ch, unsafe);
      Associates(before, EncodeChar(ch, unsafe), Encoded(raw[i + 1..], unsafe));
    }
    assert raw[|raw|..] == "";
  }

  function HexValue(c: char): Option<int> {
    if '0' <= c <= '9' then Some(c as int - '0' as int)
    else if 'A' <= c <= 'F' then Some(c as int - 'A' as int + 10)
    else if 'a' <= c <= 'f' then Some(c as int - 'a' as int + 10)
    else None
  }

  /** Percent-decoding as section 2.1 of RFC 3986 has it: a percent sign stands in front of two hexadecimal
      digits, of either case, for the octet they denote. */
  function Decode(s: string): Result<string, UriError> {
    if s == "" then Ok("")
    else if s[0] != '%' then
      var rest :- Decode(s[1..]);
      Ok([s[0]] + rest)
    else if |s| < 3 || HexValue(s[1]) == None || HexValue(s[2]) == None then Err(NotTwoHexDigits)
    else
      var rest :- Decode(s[3..]);
      Ok([(HexValue(s[1]).value * 16 + HexValue(s[2]).value) as char] + rest)
  }

  // ---------- The string elements of the parameters ----------

  ghost function EncodeValue(v: Value): Value {
    if v.String? then String(Encoded(v.s, IsQueryValueUnsafe)) else v
  }

  ghost function WithEncodedElements(fields: Fields): Fields {
    if fields == [] then []
    else [Field(fields[0].key, EncodeValue(fields[0].value))] + WithEncodedElements(fields[1..])
  }

  function DecodeValue(v: Value): Result<Value, UriError> {
    if v.String? then
      var text :- Decode(v.s);
      Ok(String(text))
    else Ok(v)
  }

  ghost function WithDecodedElements(fields: Fields): Result<Fields, UriError> {
    if fields == [] then Ok([])
    else
      var value :- DecodeValue(fields[0].value);
      var rest :- WithDecodedElements(fields[1..]);
      Ok([Field(fields[0].key, value)] + rest)
  }

  ghost function Behind(done: Fields, rest: Result<Fields, UriError>): Result<Fields, UriError> {
    if rest.Ok? then Ok(done + rest.value) else rest
  }

  lemma {:induction false} DecodedInFront(front: Fields, fields: Fields)
    requires WithDecodedElements(front).Ok?
    ensures WithDecodedElements(front + fields) == Behind(WithDecodedElements(front).value, WithDecodedElements(fields))
  {
    if front == [] {
      EmptyPrefix(fields);
      if WithDecodedElements(fields).Ok? {
        EmptyPrefix(WithDecodedElements(fields).value);
      }
    } else {
      assert (front + fields)[0] == front[0] && (front + fields)[1..] == front[1..] + fields;
      DecodedInFront(front[1..], fields);
      if WithDecodedElements(fields).Ok? {
        Associates([Field(front[0].key, DecodeValue(front[0].value).value)], WithDecodedElements(front[1..]).value,
                   WithDecodedElements(fields).value);
      }
    }
  }

  /** The elements in front of this one are decoded, and the others are as they were. */
  ghost predicate DecodedUpTo(before: Fields, after: Fields, i: nat) {
    && i <= |before| == |after|
    && WithDecodedElements(before[..i]) == Ok(after[..i]) && after[i..] == before[i..]
  }

  lemma DecodedNext(before: Fields, after: Fields, i: nat)
    requires DecodedUpTo(before, after, i) && i < |before|
    ensures before[i] == after[i]
    ensures match DecodeValue(before[i].value)
            case Ok(v) => DecodedUpTo(before, after[i := Field(before[i].key, v)], i + 1)
            case Err(e) => WithDecodedElements(before) == Err(e)
  {
    var front, element := before[..i], before[i];
    assert element == before[i..][0] == after[i..][0];
    DecodedInFront(front, before[i..]);
    assert before == front + before[i..];
    if DecodeValue(element.value).Ok? {
      var decoded := Field(element.key, DecodeValue(element.value).value);
      DecodedBehind(front, element);
      assert before[..i + 1] == front + [element];
      assert before[i + 1..] == before[i..][1..];
      Replaced(after, i, decoded);
    }
  }

  lemma DecodedBehind(front: Fields, element: Field)
    requires WithDecodedElements(front).Ok? && DecodeValue(element.value).Ok?
    ensures WithDecodedElements(front + [element]) ==
            Ok(WithDecodedElements(front).value + [Field(element.key, DecodeValue(element.value).value)])
  {
    var rest := [element][1..];
    var decoded := Field(element.key, DecodeValue(element.value).value);
    assert rest == [] && WithDecodedElements(rest) == Ok([]);
    assert WithDecodedElements([element]) == Ok([decoded] + []);
    assert [decoded] + [] == [decoded];
    DecodedInFront(front, [element]);
  }

  lemma EncodedFrom(fields: Fields, i: nat)
    requires i < |fields|
    ensures WithEncodedElements(fields[i..]) ==
            [Field(fields[i].key, EncodeValue(fields[i].value))] + WithEncodedElements(fields[i + 1..])
  {
    assert fields[i..][0] == fields[i] && fields[i..][1..] == fields[i + 1..];
  }

  /** The fields of a parameters object, rewritten in place. */
  class Parameters {
    var fields: Fields

    constructor (fields: Fields)
      ensures this.fields == fields
    {
      this.fields := fields;
    }

    method EncodeElements()
      modifies this
      ensures fields == WithEncodedElements(old(fields))
    {
      var i := 0;
      while i < |fields|
        invariant 0 <= i <= |fields| == |old(fields)|
        invariant fields[i..] == old(fields)[i..]
        invariant fields[..i] + WithEncodedElements(fields[i..]) == WithEncodedElements(old(fields))
      {
        ghost var before := fields;
        var element := fields[i];
        EncodedFrom(before, i);
        if element.value.String? {
          var en := EncodeText(element.value.s, IsQueryValueUnsafe);
          fields := fields[i := Field(element.key, String(en))];
        }
        assert fields[i + 1..] == before[i + 1..];
        assert fields[..i + 1] == before[..i] + [Field(element.key, EncodeValue(element.value))];
        Associates(before[..i], [Field(element.key, EncodeValue(element.value))], WithEncodedElements(before[i + 1..]));
        i := i + 1;
      }
      assert fields[..i] == fields && fields[i..] == [];
    }

    /** The first element that cannot be decoded ends the loop; the exception leaves it and those behind it as
        they are, and those in front of it decoded. */
    method DecodeElements() returns (result: Result<(), UriError>)
      modifies this
      ensures match WithDecodedElements(old(fields))
              case Ok(decoded) => result.Ok? && fields == decoded
              case Err(e) =>
                && result.Err? && result.error == e
                && exists i | 0 <= i < |fields| ::
                     DecodedUpTo(old(fields), fields, i) && DecodeValue(fields[i].value) == Err(e)
    {
      ghost var before := fields;
      var i := 0;
      assert before[..0] == [] && before[0..] == before;
      while i < |fields|
        invariant i <= |fields| == |before| && DecodedUpTo(before, fields, i)
      {
        DecodedNext(before, fields, i);
        var element := fields[i];
        if element.value.String? {
          var de := Decode(element.value.s);
          if de.Err? {
            return Err(de.error);
          }
          fields := fields[i := Field(element.key, String(de.value))];
        } else {
          assert fields[i := Field(element.key, element.value)] == fields;
        }
        i := i + 1;
      }
      assert before[..i] == before && fields[..i] == fields;
      result := Ok(());
    }
  }

  // ---------- Printing the query ----------

  /** How names, and values that are not strings, are written: URI-encoding for queries, and serialization. */
  datatype Writer = Writer(unsafe: char -> bool, serialize: Value -> string)

  ghost function ValueText(w: Writer, v: Value): string {
    if v.String? then v.s else Encoded(w.serialize(v), w.unsafe)
  }

  ghost function Term(w: Writer, f: Field): string {
    Encoded(f.key, w.unsafe) + "=" + ValueText(w, f.value)
  }

  ghost function MoreTerms(w: Writer, fields: Fields): string {
    if fields == [] then "" else "&" + (Term(w, fields[0]) + MoreTerms(w, fields[1..]))
  }

  ghost function Query(w: Writer, fields: Fields): string {
    if fields == [] then "" else Term(w, fields[0]) + MoreTerms(w, fields[1..])
  }

  method WriteTerm(w: Writer, param: Field) returns (term: string)
    ensures term == Term(w, param)
  {
    var name := EncodeText(param.key, w.unsafe);
    if param.value.String? {
      term := name + "=" + param.value.s;
    } else {
      var text := EncodeText(w.serialize(param.value), w.unsafe);
      term := name + "=" + text;
    }
  }

  lemma PrintAfter(query: string, term: string, rest: string)
    ensures query + ("&" + (term + rest)) == (query + "&" + term) + rest
  {
  }

  lemma TermsFrom(w: Writer, params: Fields, i: nat)
    requires i < |params|
    ensures MoreTerms(w, params[i..]) == "&" + (Term(w, params[i]) + MoreTerms(w, params[i + 1..]))
    ensures Query(w, params[i..]) == Term(w, params[i]) + MoreTerms(w, params[i + 1..])
  {
    assert params[i..][0] == params[i] && params[i..][1..] == params[i + 1..];
  }

  method QueryFromValue(w: Writer, params: Fields) returns (query: string)
    ensures query == Query(w, params)
  {
    query := "";
    var first := true;
    assert params[0..] == params;
    for i := 0 to |params|
      invariant first <==> i == 0
      invariant i == 0 ==> query == ""
      invariant i > 0 ==> query + MoreTerms(w, params[i..]) == Query(w, params)
    {
      TermsFrom(w, params, i);
      var term := WriteTerm(w, params[i]);
      ghost var rest := MoreTerms(w, params[i + 1..]);
      if first {
        first := false;
        EmptyPrefix(term);
      } else {
        PrintAfter(query, term, rest);
        query := query + "&";
      }
      query := query + term;
    }
    assert params[|params|..] == [];
  }

  // ---------- Reading the query ----------

  predicate EndsTerm(c: char) {
    c == '&' || c == ';'
  }

  predicate EndsName(c: char) {
    c == '=' || c == '&' || c == ';'
  }

  /** The part of a text in front of the first character of this kind. */
  ghost function Before(s: string, stop: char -> bool): (part: string)
    ensures part <= s
  {
    if s == "" || stop(s[0]) then "" else [s[0]] + Before(s[1..], stop)
  }

  predicate IsEquals(c: char) {
    c == '='
  }

  ghost function NameOf(term: string): string {
    Before(term, IsEquals)
  }

  ghost function ValueOf(term: string): string {
    var name := NameOf(term);
    if |name| < |term| then term[|name| + 1..] else ""
  }

  /** A term with neither a name nor a value is left out. */
  function ReadField(fields: Fields, name: string, value: string): Result<Fields, UriError> {
    var field :- Decode(name);
    Ok(if field != "" || value != "" then Put(fields, field, String(value)) else fields)
  }

  /** A field gets the text behind the first equals sign of its term; a term without one gives it an empty text. */
  ghost function ReadTerms(query: string, fields: Fields): Result<Fields, UriError>
    decreases |query|
  {
    var term := Before(query, EndsTerm);
    var read := ReadTerm(fields, term);
    if |term| == |query| || read.Err? then read else ReadTerms(query[|term| + 1..], read.value)
  }

  ghost function ReadTerm(fields: Fields, term: string): Result<Fields, UriError> {
    ReadField(fields, NameOf(term), ValueOf(term))
  }

  ghost function ReadMore(read: Result<Fields, UriError>, query: string): Result<Fields, UriError> {
    if read.Err? then read else ReadTerms(query, read.value)
  }

  lemma {:induction false} BeforeBehind(part: string, rest: string, stop: char -> bool)
    requires forall i | 0 <= i < |part| :: !stop(part[i])
    requires rest != "" ==> stop(rest[0])
    ensures Before(part + rest, stop) == part
  {
    if part == "" {
      assert "" + rest == rest;
    } else {
      BeforeBehind(part[1..], rest, stop);
      assert part == [part[0]] + part[1..] && part + rest == [part[0]] + (part[1..] + rest);
    }
  }

  /** There is no such character between the two positions, the second of which is the end or at one. */
  ghost predicate NextIs(s: string, stop: char -> bool, from: nat, next: nat)
    requires from <= next <= |s|
  {
    (forall k | from <= k < next :: !stop(s[k])) && (next < |s| ==> stop(s[next]))
  }

  lemma BeforeNext(s: string, stop: char -> bool, from: nat, next: nat)
    requires from <= next <= |s| && NextIs(s, stop, from, next)
    ensures Before(s[from..], stop) == s[from..next]
  {
    assert s[from..] == s[from..next] + s[next..];
    BeforeBehind(s[from..next], s[next..], stop);
  }

  ghost predicate Finds(s: string, stop: char -> bool, from: Option<nat>, found: Option<nat>)
    requires from.Some? ==> from.value <= |s|
  {
    && (found.Some? ==> from.Some? && from.value <= found.value < |s|)
    && (from.Some? ==> NextIs(s, stop, from.value, PositionIn(s, found)))
  }

  /** The first such character from a position on; from npos there is nothing to be found. */
  method FindFirstOf(s: string, stop: char -> bool, from: Option<nat>) returns (found: Option<nat>)
    requires from.Some? ==> from.value <= |s|
    ensures Finds(s, stop, from, found)
  {
    if from == None {
      return None;
    }
    var i := from.value;
    while i < |s|
      invariant from.value <= i <= |s|
      invariant forall k | from.value <= k < i :: !stop(s[k])
    {
      if stop(s[i]) {
        return Some(i);
      }
      i := i + 1;
    }
    return None;
  }

  function PositionIn(s: string, found: Option<nat>): nat {
    if found.Some? then found.value else |s|
  }

  function Substring(s: string, first: nat, last: Option<nat>): string
    requires first <= PositionIn(s, last) <= |s|
  {
    s[first..PositionIn(s, last)]
  }

  ghost function ReadFrom(query: string, first: Option<nat>, fields: Fields): Result<Fields, UriError>
    requires first.Some? ==> first.value <= |query|
  {
    if first.Some? then ReadTerms(query[first.value..], fields) else Ok(fields)
  }

  ghost predicate IsNextTerm(query: string, first: nat, name: string, value: string, next: Option<nat>)
    requires first <= |query|
  {
    var term := Before(query[first..], EndsTerm);
    && name == NameOf(term) && value == ValueOf(term)
    && next == if first + |term| < |query| then Some(first + |term| + 1) else None
  }

  lemma ReadNextTerm(query: string, first: nat, fields: Fields, name: string, value: string, next: Option<nat>)
    requires first <= |query| && IsNextTerm(query, first, name, value, next)
    ensures next.Some? ==> first < next.value <= |query|
    ensures var read := ReadField(fields, name, value);
            ReadTerms(query[first..], fields) == if read.Err? then read else ReadFrom(query, next, read.value)
  {
    var rest := query[first..];
    var end := |Before(rest, EndsTerm)|;
    if next.Some? {
      Later(query, first, end + 1);
      ReadUpTo(rest, query[next.value..], fields);
    } else {
      ReadLastTerm(rest, fields);
    }
  }

  lemma ReadFirstTerm(query: string, fields: Fields)
    requires |Before(query, EndsTerm)| < |query|
    ensures var term := Before(query, EndsTerm);
            ReadTerms(query, fields) == ReadMore(ReadTerm(fields, term), query[|term| + 1..])
  {
  }

  lemma ReadUpTo(query: string, later: string, fields: Fields)
    requires var end := |Before(query, EndsTerm)|; end < |query| && query[end + 1..] == later
    ensures ReadTerms(query, fields) == ReadMore(ReadTerm(fields, Before(query, EndsTerm)), later)
  {
    ReadFirstTerm(query, fields);
  }

  lemma ReadLastTerm(query: string, fields: Fields)
    requires |Before(query, EndsTerm)| == |query|
    ensures ReadTerms(query, fields) == ReadTerm(fields, Before(query, EndsTerm))
  {
  }

  /** The end of a name and the end of its term, which is the same unless an equals sign is there. */
  ghost predicate Delimits(query: string, first: nat, nameEnd: nat, end: nat) {
    && first <= nameEnd <= end <= |query| && NextIs(query, EndsName, first, nameEnd)
    && if nameEnd < |query| && query[nameEnd] == '=' then nameEnd < end && NextIs(query, EndsTerm, nameEnd + 1, end)
       else end == nameEnd
  }

  lemma NameAndValueOf(name: string, rest: string)
    requires (forall i | 0 <= i < |name| :: !IsEquals(name[i])) && (rest != "" ==> rest[0] == '=')
    ensures NameOf(name + rest) == name && ValueOf(name + rest) == if rest == "" then "" else rest[1..]
  {
    BeforeBehind(name, rest, IsEquals);
    assert rest != "" ==> (name + rest)[|name| + 1..] == rest[1..];
  }

  /** A term and its two sides, from where they end. */
  lemma TermAt(query: string, first: nat, nameEnd: nat, end: nat)
    requires Delimits(query, first, nameEnd, end)
    ensures var term := query[first..end];
            && Before(query[first..], EndsTerm) == term
            && NameOf(term) == query[first..nameEnd]
            && ValueOf(term) == if nameEnd < end then query[nameEnd + 1..end] else ""
  {
    BeforeNext(query, EndsTerm, first, end);
    Cut(query, first, nameEnd, end);
    NameAndValueOf(query[first..nameEnd], query[nameEnd..end]);
  }

  lemma Cut(s: string, first: nat, middle: nat, end: nat)
    requires first <= middle <= end <= |s|
    ensures s[first..end] == s[first..middle] + s[middle..end]
    ensures middle < end ==> s[middle..end][1..] == s[middle + 1..end]
  {
  }

  lemma NextTermAt(query: string, first: nat, nameEnd: nat, end: nat, name: string, value: string, next: Option<nat>)
    requires Delimits(query, first, nameEnd, end)
    requires name == query[first..nameEnd]
    requires value == if nameEnd < end then query[nameEnd + 1..end] else ""
    requires next == if end < |query| then Some(end + 1) else None
    ensures IsNextTerm(query, first, name, value, next)
  {
    TermAt(query, first, nameEnd, end);
  }

  /** The term from this position on: the text of its name, its value, and where the next one is. Positions are
      optional where the original has npos. */
  method NextTerm(query: string, first: nat) returns (name: string, value: string, next: Option<nat>)
    requires first <= |query|
    ensures IsNextTerm(query, first, name, value, next)
  {
    var fieldLast := FindFirstOf(query, EndsName, Some(first));
    var valueFirst := if fieldLast.Some? && query[fieldLast.value] == '=' then Some(fieldLast.value + 1) else fieldLast;
    var valueLast := FindFirstOf(query, EndsTerm, valueFirst);
    name := Substring(query, first, fieldLast);
    value := if valueFirst == None then "" else Substring(query, valueFirst.value, valueLast);
    next := if valueLast.Some? then Some(valueLast.value + 1) else None;
    NextTermAt(query, first, PositionIn(query, fieldLast), PositionIn(query, valueLast), name, value, next);
  }

  method ValueFromQuery(query: string) returns (result: Result<Fields, UriError>)
    ensures result == ReadTerms(query, [])
  {
    var fields: Fields := [];
    var fieldFirst: Option<nat> := Some(0);
    assert query[0..] == query;
    while fieldFirst.Some?
      invariant fieldFirst.Some? ==> fieldFirst.value <= |query|
      invariant ReadTerms(query, []) == ReadFrom(query, fieldFirst, fields)
      decreases if fieldFirst.Some? then |query| - fieldFirst.value + 1 else 0
    {
      var name, value, next := NextTerm(query, fieldFirst.value);
      ReadNextTerm(query, fieldFirst.value, fields, name, value, next);
      var read := ReadField(fields, name, value);
      if read.Err? {
        return read;
      }
      fields, fieldFirst := read.value, next;
    }
    result := Ok(fields);
  }
}
