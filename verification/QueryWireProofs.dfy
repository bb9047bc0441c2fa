/** What a query string looks like and how it is read, in the characters of RFC 3986 (sections 2.1 to 2.3 and 3.4) and of
    queries themselves, without the codec's own sets. */
module QueryWireProofs {
  import opened Results
  import opened Json
  import opened QueryCodec
  import opened QueryCodecProofs
  import opened Sequences

  // ---------- Characters ----------

  /** Section 2.3 of RFC 3986. */
  ghost predicate IsUnreserved(c: char) {
    || 0x30 <= c as int <= 0x39
    || 0x41 <= c as int <= 0x5A
    || 0x61 <= c as int <= 0x7A
    || c == '-' || c == '.' || c == '_' || c == '~'
  }

  /** Section 2.2 of RFC 3986. */
  ghost predicate IsSubDelimiter(c: char) {
    c in "!$&'()*+,;="
  }

  /** A value keeps its unreserved characters, the sub-delimiters that mean nothing in a query, and what paths and
      queries may hold besides. */
  lemma KeptInValues(c: char)
    ensures !IsQueryValueUnsafe(c) <==>
            IsUnreserved(c) || (IsSubDelimiter(c) && c != '&' && c != ';' && c != '=' && c != '+') || c in ":@/?"
  {
    AlnumCodes(c);
  }

  lemma AlnumCodes(c: char)
    ensures IsAlnum(c) <==> 0x30 <= c as int <= 0x39 || 0x41 <= c as int <= 0x5A || 0x61 <= c as int <= 0x7A
  {
  }

  // ---------- Triplets ----------

  ghost function UpperDigit(n: int): char
    requires 0 <= n < 16
  {
    if n < 10 then (0x30 + n) as char else (0x41 + n - 10) as char
  }

  ghost function LowerDigit(n: int): char
    requires 0 <= n < 16
  {
    if n < 10 then (0x30 + n) as char else (0x61 + n - 10) as char
  }

  lemma HexIsUpper(n: int)
    requires 0 <= n < 16
    ensures HEX[n] == UpperDigit(n)
  {
  }

  /** An octet that is encoded is written as a percent sign and its two digits, the higher first, in upper case. */
  lemma EncodedAsTriplet(c: char, unsafe: char -> bool)
    requires unsafe(c) && c as int < 256
    ensures Encoded([c], unsafe) == ['%', UpperDigit(c as int / 16), UpperDigit(c as int % 16)]
  {
    EncodedOne(c, unsafe);
    HexIsUpper(c as int / 16);
    HexIsUpper(c as int % 16);
    assert c as int / 16 % 16 == c as int / 16;
  }

  /** Digits of either case are read. */
  lemma DigitsOfEitherCase(c: char)
    ensures forall n | 0 <= n < 16 :: HexValue(c) == Some(n) <==> c == UpperDigit(n) || c == LowerDigit(n)
    ensures HexValue(c).Some? ==> 0 <= HexValue(c).value < 16
  {
  }

  /** A triplet is read as the octet its digits denote. */
  lemma TripletRead(high: int, low: int, upper: bool, rest: string)
    requires 0 <= high < 16 && 0 <= low < 16 && Decode(rest).Ok?
    ensures var a, b := if upper then UpperDigit(high) else LowerDigit(high), if upper then UpperDigit(low) else LowerDigit(low);
            Decode(['%', a, b] + rest) == Ok([(16 * high + low) as char] + Decode(rest).value)
  {
    var a, b := if upper then UpperDigit(high) else LowerDigit(high), if upper then UpperDigit(low) else LowerDigit(low);
    DigitsOfEitherCase(a);
    DigitsOfEitherCase(b);
    DecodeTriplet(a, b, rest);
  }

  // ---------- Queries ----------

  /** Texts with an ampersand between them. */
  ghost function Joined(terms: seq<string>): string {
    if terms == [] then "" else if |terms| == 1 then terms[0] else terms[0] + "&" + Joined(terms[1..])
  }

  /** The name, an equals sign, and the text of the value: a string as it is, anything else serialized and encoded. */
  ghost function Terms(w: Writer, params: Fields): seq<string> {
    seq(|params|, i requires 0 <= i < |params| =>
      Encoded(params[i].key, w.unsafe) + "=" +
      if params[i].value.String? then params[i].value.s else Encoded(w.serialize(params[i].value), w.unsafe))
  }

  lemma {:induction false} QueryIsJoined(w: Writer, params: Fields)
    ensures Query(w, params) == Joined(Terms(w, params))
    decreases |params|
  {
    if params != [] {
      QueryIsJoined(w, params[1..]);
      assert Terms(w, params)[1..] == Terms(w, params[1..]);
      var term := Term(w, params[0]);
      assert Terms(w, params)[0] == term;
      if |params| == 1 {
        assert params[1..] == [] && term + "" == term;
      } else {
        QueryParts(w, params[1..]);
        Associates(term, "&", Query(w, params[1..]));
      }
    }
  }

  /** A term up to an ampersand or a semicolon stores the text behind its first equals sign under its decoded name. */
  lemma TermRead(name: string, value: string, separator: char, more: string, fields: Fields, decoded: string)
    requires (forall c <- name :: c != '=' && c != '&' && c != ';') && (forall c <- value :: c != '&' && c != ';')
    requires separator == '&' || separator == ';'
    requires Decode(name) == Ok(decoded) && decoded != ""
    ensures ReadTerms(name + "=" + value, fields) == Ok(Put(fields, decoded, String(value)))
    ensures ReadTerms((name + "=" + value) + ([separator] + more), fields) == ReadTerms(more, Put(fields, decoded, String(value)))
  {
    NoEnds(name, value);
    ReadSides(name, value, decoded, "", fields);
    ReadSides(name, value, decoded, [separator] + more, fields);
    assert (name + "=" + value) + "" == name + "=" + value;
    assert ([separator] + more)[1..] == more;
  }

  lemma NoEnds(name: string, value: string)
    requires (forall c <- name :: c != '=' && c != '&' && c != ';') && (forall c <- value :: c != '&' && c != ';')
    ensures (forall c <- name :: !EndsName(c)) && (forall c <- name + "=" + value :: !EndsTerm(c))
  {
    forall c | c in name + "=" + value
      ensures !EndsTerm(c)
    {
      assert c in name || c == '=' || c in value;
    }
  }

  /** A term without an equals sign stores an empty text. */
  lemma NameAloneRead(name: string, separator: char, more: string, fields: Fields, decoded: string)
    requires forall c <- name :: c != '=' && c != '&' && c != ';'
    requires separator == '&' || separator == ';'
    requires Decode(name) == Ok(decoded) && decoded != ""
    ensures ReadTerms(name + ([separator] + more), fields) == ReadTerms(more, Put(fields, decoded, String("")))
  {
    NameAlone(name);
    ReadOne(name, [separator] + more, fields);
    assert ([separator] + more)[1..] == more;
  }
}
