/** Printing parameters as a query and reading them back. */
module QueryCodecProofs {
  import opened Results
  import opened Json
  import opened QueryCodec
  import opened Sequences

  ghost predicate IsBytes(s: string) {
    forall i | 0 <= i < |s| :: s[i] < 256 as char
  }

  // ---------- Percent-encoding ----------

  lemma HexRoundTrip(n: int)
    requires 0 <= n < 16
    ensures HexValue(HEX[n]) == Some(n)
  {
  }

  lemma DecodeTriplet(a: char, b: char, rest: string)
    requires HexValue(a).Some? && HexValue(b).Some?
    ensures var decoded := Decode(['%', a, b] + rest);
            var octet := (HexValue(a).value * 16 + HexValue(b).value) as char;
            decoded == if Decode(rest).Ok? then Ok([octet] + Decode(rest).value) else Decode(rest)
  {
    assert (['%', a, b] + rest)[3..] == rest;
  }

  lemma DecodePlain(c: char, rest: string)
    requires c != '%'
    ensures Decode([c] + rest) == if Decode(rest).Ok? then Ok([c] + Decode(rest).value) else Decode(rest)
  {
    assert ([c] + rest)[1..] == rest;
  }

  lemma DecodeEncodedChar(c: char, unsafe: char -> bool, rest: string)
    requires unsafe('%') && c < 256 as char
    ensures Decode(EncodeChar(c, unsafe) + rest) == if Decode(rest).Ok? then Ok([c] + Decode(rest).value) else Decode(rest)
  {
    if unsafe(c) {
      var high, low := c as int / 16 % 16, c as int % 16;
      HexRoundTrip(high);
      HexRoundTrip(low);
      assert high * 16 + low == c as int;
      DecodeTriplet(HEX[high], HEX[low], rest);
    } else {
      DecodePlain(c, rest);
    }
  }

  lemma {:induction false} DecodeEncoded(s: string, unsafe: char -> bool)
    requires unsafe('%') && IsBytes(s)
    ensures Decode(Encoded(s, unsafe)) == Ok(s)
  {
    if s != "" {
      DecodeEncoded(s[1..], unsafe);
      DecodeEncodedChar(s[0], unsafe, Encoded(s[1..], unsafe));
      assert [s[0]] + s[1..] == s;
    }
  }

  /** Decoding undoes encoding exactly when the percent sign itself is encoded, whatever else is. */
  lemma DecodingUndoesEncodingIff(unsafe: char -> bool)
    ensures (forall s | IsBytes(s) :: Decode(Encoded(s, unsafe)) == Ok(s)) <==> unsafe('%')
  {
    if unsafe('%') {
      forall s | IsBytes(s) {
        DecodeEncoded(s, unsafe);
      }
    } else {
      assert Encoded("%", unsafe) == "%";
      assert IsBytes("%");
      assert Decode("%") != Ok("%");
    }
  }

  lemma EncodedCharAlphabet(c: char, unsafe: char -> bool, d: char)
    requires d in EncodeChar(c, unsafe)
    ensures d == '%' || d in HEX || (d == c && !unsafe(c))
  {
  }

  lemma {:induction false} EncodedAlphabet(s: string, unsafe: char -> bool)
    ensures forall d <- Encoded(s, unsafe) :: d == '%' || d in HEX || (d in s && !unsafe(d))
  {
    if s != "" {
      EncodedAlphabet(s[1..], unsafe);
      forall d | d in EncodeChar(s[0], unsafe) {
        EncodedCharAlphabet(s[0], unsafe, d);
      }
    }
  }

  lemma HexHasNoDelimiters(d: char)
    requires d in HEX || d == '%'
    ensures !EndsName(d)
  {
  }

  ghost predicate Clean(s: string, unsafe: char -> bool, stop: char -> bool) {
    forall c <- s :: stop(c) ==> unsafe(c)
  }

  /** What is encoded holds no delimiter that is itself encoded. */
  lemma {:induction false} EncodedHoldsNone(s: string, unsafe: char -> bool, stop: char -> bool)
    requires Clean(s, unsafe, stop) && forall c | stop(c) :: EndsName(c)
    ensures forall d <- Encoded(s, unsafe) :: !stop(d)
  {
    EncodedAlphabet(s, unsafe);
    forall d | d in Encoded(s, unsafe)
      ensures !stop(d)
    {
      if d == '%' || d in HEX {
        HexHasNoDelimiters(d);
      }
    }
  }

  lemma EncodedValueChar(d: char)
    requires d in HEX || d == '%' || !IsQueryValueUnsafe(d)
    ensures !EndsName(d) && d != '+' && (IsAlnum(d) || d in SAFE || d == '%')
  {
  }

  /** An encoded value holds none of the delimiters of a query, and no plus sign. */
  lemma {:induction false} EncodedValueAlphabet(s: string)
    ensures var encoded := Encoded(s, IsQueryValueUnsafe);
            forall d <- encoded :: !EndsName(d) && d != '+' && (IsAlnum(d) || d in SAFE || d == '%')
  {
    EncodedAlphabet(s, IsQueryValueUnsafe);
    forall d | d in Encoded(s, IsQueryValueUnsafe) {
      EncodedValueChar(d);
    }
  }

  // ---------- Terms ----------

  lemma ReadOne(term: string, more: string, fields: Fields)
    requires forall c <- term :: !EndsTerm(c)
    requires more != "" ==> EndsTerm(more[0])
    ensures var read := ReadField(fields, NameOf(term), ValueOf(term));
            ReadTerms(term + more, fields) == if read.Err? || more == "" then read else ReadTerms(more[1..], read.value)
  {
    BeforeBehind(term, more, EndsTerm);
    Parts(term, more);
    if more != "" {
      Later(term + more, |term|, 1);
      ReadUpTo(term + more, more[1..], fields);
    } else {
      ReadLastTerm(term + more, fields);
    }
  }

  lemma SplitAtEquals(name: string, value: string)
    requires forall c <- name :: !IsEquals(c)
    ensures NameOf(name + "=" + value) == name && ValueOf(name + "=" + value) == value
  {
    assert name + "=" + value == name + ("=" + value);
    BeforeBehind(name, "=" + value, IsEquals);
  }

  lemma NameAlone(name: string)
    requires forall c <- name :: !IsEquals(c)
    ensures NameOf(name) == name && ValueOf(name) == ""
  {
    BeforeBehind(name, "", IsEquals);
    assert name + "" == name;
  }

  ghost predicate CleanValue(w: Writer, v: Value) {
    forall c <- ValueText(w, v) :: !EndsTerm(c)
  }

  ghost predicate CleanField(w: Writer, f: Field) {
    IsBytes(f.key) && Clean(f.key, w.unsafe, EndsName) && CleanValue(w, f.value)
  }

  ghost function Store(fields: Fields, key: string, text: string): Fields {
    if key != "" || text != "" then Put(fields, key, String(text)) else fields
  }

  lemma TermHoldsNoEnd(w: Writer, f: Field)
    requires CleanField(w, f)
    ensures forall c <- Term(w, f) :: !EndsTerm(c)
  {
    EncodedHoldsNone(f.key, w.unsafe, EndsName);
    forall c | c in Term(w, f)
      ensures !EndsTerm(c)
    {
      assert c in Encoded(f.key, w.unsafe) || c == '=' || c in ValueText(w, f.value);
      assert EndsTerm(c) ==> EndsName(c);
    }
  }

  /** The term of a field reads as that field. */
  lemma ReadTermOf(w: Writer, f: Field, more: string, fields: Fields)
    requires w.unsafe('%') && CleanField(w, f)
    requires more != "" ==> EndsTerm(more[0])
    ensures var read := Store(fields, f.key, ValueText(w, f.value));
            ReadTerms(Term(w, f) + more, fields) == if more == "" then Ok(read) else ReadTerms(more[1..], read)
  {
    EncodedHoldsNone(f.key, w.unsafe, EndsName);
    DecodeEncoded(f.key, w.unsafe);
    TermHoldsNoEnd(w, f);
    ReadSides(Encoded(f.key, w.unsafe), ValueText(w, f.value), f.key, more, fields);
  }

  lemma ReadSides(name: string, value: string, key: string, more: string, fields: Fields)
    requires (forall c <- name :: !EndsName(c)) && Decode(name) == Ok(key)
    requires forall c <- name + "=" + value :: !EndsTerm(c)
    requires more != "" ==> EndsTerm(more[0])
    ensures var read := Store(fields, key, value);
            ReadTerms((name + "=" + value) + more, fields) == if more == "" then Ok(read) else ReadTerms(more[1..], read)
  {
    assert forall c :: IsEquals(c) ==> EndsName(c);
    SplitAtEquals(name, value);
    ReadOne(name + "=" + value, more, fields);
  }

  ghost function StoreAll(w: Writer, params: Fields, fields: Fields): Fields
    decreases |params|
  {
    if params == [] then fields
    else StoreAll(w, params[1..], Store(fields, params[0].key, ValueText(w, params[0].value)))
  }

  lemma MoreIsQuery(w: Writer, params: Fields)
    requires params != []
    ensures MoreTerms(w, params) != "" && MoreTerms(w, params)[0] == '&' && MoreTerms(w, params)[1..] == Query(w, params)
  {
  }

  /** Reading a query stores the fields that were printed, one after the other. */
  lemma {:induction false} ReadQuery(w: Writer, params: Fields, fields: Fields)
    requires w.unsafe('%') && forall f <- params :: CleanField(w, f)
    ensures ReadTerms(Query(w, params), fields) == Ok(StoreAll(w, params, fields))
    decreases |params|
  {
    if params == [] {
      NameAlone("");
      ReadOne("", "", fields);
      assert "" + "" == "";
    } else {
      ReadTermOf(w, params[0], MoreTerms(w, params[1..]), fields);
      if params[1..] != [] {
        MoreIsQuery(w, params[1..]);
        ReadQuery(w, params[1..], Store(fields, params[0].key, ValueText(w, params[0].value)));
      }
    }
  }

  // ---------- The whole way there and back ----------

  /** What is left of a field: its text, unless its name is empty too. */
  ghost function Left(f: Field, text: string): Fields {
    if f.key != "" || text != "" then [Field(f.key, String(text))] else []
  }

  ghost function Texts(w: Writer, params: Fields): Fields {
    if params == [] then []
    else Left(params[0], ValueText(w, params[0].value)) + Texts(w, params[1..])
  }

  ghost predicate Apart(fields: Fields, params: Fields) {
    forall f <- fields, g <- params :: f.key != g.key
  }

  lemma StoreNew(fields: Fields, params: Fields, text: string)
    requires params != [] && UniqueKeys(params) && Apart(fields, params)
    ensures Store(fields, params[0].key, text) == fields + Left(params[0], text)
    ensures Apart(fields + Left(params[0], text), params[1..])
  {
    var p := params[0];
    assert p in params;
    PutNew(fields, p.key, String(text));
    forall f, g | f in fields + Left(p, text) && g in params[1..]
      ensures f.key != g.key
    {
      var j :| 0 <= j < |params[1..]| && params[1..][j] == g;
      assert g == params[j + 1];
    }
  }

  lemma {:induction false} DistinctAreAppended(w: Writer, params: Fields, fields: Fields)
    requires UniqueKeys(params) && Apart(fields, params)
    ensures StoreAll(w, params, fields) == fields + Texts(w, params)
    decreases |params|
  {
    if params != [] {
      var text := ValueText(w, params[0].value);
      StoreNew(fields, params, text);
      DistinctAreAppended(w, params[1..], fields + Left(params[0], text));
      Associates(fields, Left(params[0], text), Texts(w, params[1..]));
    }
  }

  ghost function RoundTrip(w: Writer, params: Fields): Result<Fields, UriError> {
    var read :- ReadTerms(Query(w, WithEncodedElements(params)), []);
    WithDecodedElements(read)
  }

  ghost function PlainText(w: Writer, v: Value): string {
    if v.String? then v.s else w.serialize(v)
  }

  ghost function PlainTexts(w: Writer, params: Fields): Fields {
    if params == [] then []
    else Left(params[0], PlainText(w, params[0].value)) + PlainTexts(w, params[1..])
  }

  /** Names and texts are bytes; delimiters in names, and separators in serialized values, are encoded. */
  ghost predicate Printable(w: Writer, f: Field) {
    && IsBytes(f.key) && IsBytes(PlainText(w, f.value))
    && Clean(f.key, w.unsafe, EndsName)
    && (!f.value.String? ==> Clean(w.serialize(f.value), w.unsafe, EndsTerm))
  }

  lemma EncodedElementIsClean(w: Writer, f: Field)
    requires Printable(w, f)
    ensures CleanField(w, Field(f.key, EncodeValue(f.value)))
  {
    if f.value.String? {
      EncodedValueAlphabet(f.value.s);
      assert forall c :: EndsTerm(c) ==> EndsName(c);
    } else {
      EncodedHoldsNone(w.serialize(f.value), w.unsafe, EndsTerm);
    }
  }

  lemma {:induction false} EncodedElements(w: Writer, params: Fields)
    requires forall f <- params :: Printable(w, f)
    ensures var encoded := WithEncodedElements(params);
            && |encoded| == |params|
            && (forall i | 0 <= i < |params| :: encoded[i].key == params[i].key)
            && forall f <- encoded :: CleanField(w, f)
  {
    if params != [] {
      EncodedElements(w, params[1..]);
      EncodedElementIsClean(w, params[0]);
      var rest := WithEncodedElements(params[1..]);
      forall i | 0 <= i < |params|
        ensures WithEncodedElements(params)[i].key == params[i].key
      {
        if i > 0 {
          assert rest[i - 1].key == params[1..][i - 1].key;
        }
      }
    }
  }

  lemma DecodeElement(w: Writer, f: Field)
    requires w.unsafe('%') && IsBytes(PlainText(w, f.value))
    ensures var text := ValueText(w, EncodeValue(f.value));
            Decode(text) == Ok(PlainText(w, f.value)) && (text == "" <==> PlainText(w, f.value) == "")
  {
    if f.value.String? {
      DecodeEncoded(f.value.s, IsQueryValueUnsafe);
    } else {
      DecodeEncoded(w.serialize(f.value), w.unsafe);
    }
  }

  lemma {:induction false} DecodedElements(w: Writer, params: Fields)
    requires w.unsafe('%') && forall f <- params :: IsBytes(PlainText(w, f.value))
    ensures WithDecodedElements(Texts(w, WithEncodedElements(params))) == Ok(PlainTexts(w, params))
  {
    if params != [] {
      DecodedElements(w, params[1..]);
      DecodeElement(w, params[0]);
      var encoded := Field(params[0].key, EncodeValue(params[0].value));
      var text, plain := ValueText(w, encoded.value), PlainText(w, params[0].value);
      var rest, later := WithEncodedElements(params[1..]), PlainTexts(w, params[1..]);
      assert ([encoded] + rest)[1..] == rest;
      DecodedFirst(params[0], encoded, text, plain, Texts(w, rest), later);
    }
  }

  lemma DecodedFirst(param: Field, encoded: Field, text: string, plain: string, rest: Fields, later: Fields)
    requires encoded.key == param.key && Decode(text) == Ok(plain) && (text == "" <==> plain == "")
    requires WithDecodedElements(rest) == Ok(later)
    ensures WithDecodedElements(Left(encoded, text) + rest) == Ok(Left(param, plain) + later)
  {
    if encoded.key != "" || text != "" {
      var first := Field(encoded.key, String(text));
      assert ([first] + rest)[1..] == rest;
    } else {
      EmptyPrefix(rest);
      EmptyPrefix(later);
    }
  }

  /** Printed and read back, parameters keep their order, their names and the texts of their values; only a
      field with no name and no text is lost. */
  lemma QueryRoundTrip(w: Writer, params: Fields)
    requires w.unsafe('%') && UniqueKeys(params)
    requires forall f <- params :: Printable(w, f)
    ensures RoundTrip(w, params) == Ok(PlainTexts(w, params))
  {
    var encoded := WithEncodedElements(params);
    EncodedElements(w, params);
    ReadQuery(w, encoded, []);
    DistinctAreAppended(w, encoded, []);
    assert [] + Texts(w, encoded) == Texts(w, encoded);
    DecodedElements(w, params);
  }

  // ---------- Exactly when the parameters come back ----------

  ghost predicate CleanKeys(fields: Fields, unsafe: char -> bool) {
    forall f <- fields :: Clean(f.key, unsafe, EndsName)
  }

  ghost predicate CleanWhenDecoded(name: string, unsafe: char -> bool) {
    Decode(name).Ok? ==> Clean(Decode(name).value, unsafe, EndsName)
  }

  /** The names in the rest of a query, as they are written; `name` is what has been seen of the first, unless its
      value has begun. */
  ghost function NamesIn(s: string, inName: bool, name: string): seq<string>
    decreases |s|
  {
    if s == "" then if inName then [name] else []
    else if EndsTerm(s[0]) then (if inName then [name] else []) + NamesIn(s[1..], true, "")
    else if s[0] == '=' && inName then [name] + NamesIn(s[1..], false, "")
    else NamesIn(s[1..], inName, if inName then name + [s[0]] else "")
  }

  /** All of them decode to clean ones. */
  ghost predicate Tame(s: string, unsafe: char -> bool, inName: bool, name: string) {
    forall n <- NamesIn(s, inName, name) :: CleanWhenDecoded(n, unsafe)
  }

  ghost predicate TameFromNext(s: string, unsafe: char -> bool) {
    var term := Before(s, EndsTerm);
    |term| < |s| ==> Tame(s[|term| + 1..], unsafe, true, "")
  }

  lemma NextBehindChar(s: string, unsafe: char -> bool)
    requires s != "" && !EndsTerm(s[0])
    ensures TameFromNext(s, unsafe) <==> TameFromNext(s[1..], unsafe)
    ensures NameOf(Before(s, EndsTerm)) == if s[0] == '=' then "" else [s[0]] + NameOf(Before(s[1..], EndsTerm))
  {
    var inner := Before(s[1..], EndsTerm);
    assert Before(s, EndsTerm) == [s[0]] + inner;
    assert |inner| < |s[1..]| ==> s[1..][|inner| + 1..] == s[|inner| + 2..];
  }

  lemma {:induction false} TameBehindValue(s: string, unsafe: char -> bool)
    requires Tame(s, unsafe, false, "")
    ensures TameFromNext(s, unsafe)
  {
    if s != "" && !EndsTerm(s[0]) {
      TameBehindValue(s[1..], unsafe);
      NextBehindChar(s, unsafe);
    }
  }

  lemma {:induction false} TameBehindTerm(s: string, unsafe: char -> bool, name: string)
    requires Tame(s, unsafe, true, name)
    ensures CleanWhenDecoded(name + NameOf(Before(s, EndsTerm)), unsafe)
    ensures TameFromNext(s, unsafe)
    decreases |s|
  {
    if s == "" || EndsTerm(s[0]) {
      assert name + NameOf(Before(s, EndsTerm)) == name;
    } else {
      NextBehindChar(s, unsafe);
      if s[0] == '=' {
        TameBehindValue(s[1..], unsafe);
        assert name + "" == name;
      } else {
        TameBehindTerm(s[1..], unsafe, name + [s[0]]);
        var more := NameOf(Before(s[1..], EndsTerm));
        assert (name + [s[0]]) + more == name + ([s[0]] + more);
      }
    }
  }

  lemma ReadFieldKeepsCleanKeys(fields: Fields, name: string, value: string, unsafe: char -> bool)
    requires CleanKeys(fields, unsafe) && CleanWhenDecoded(name, unsafe)
    ensures ReadField(fields, name, value).Ok? ==> CleanKeys(ReadField(fields, name, value).value, unsafe)
  {
    if Decode(name).Ok? {
      PutKeys(fields, Decode(name).value, String(value));
    }
  }

  lemma {:induction false} TameReadsClean(query: string, unsafe: char -> bool, fields: Fields)
    requires Tame(query, unsafe, true, "") && CleanKeys(fields, unsafe)
    ensures ReadTerms(query, fields).Ok? ==> CleanKeys(ReadTerms(query, fields).value, unsafe)
    decreases |query|
  {
    var term := Before(query, EndsTerm);
    TameBehindTerm(query, unsafe, "");
    assert "" + NameOf(term) == NameOf(term);
    ReadFieldKeepsCleanKeys(fields, NameOf(term), ValueOf(term), unsafe);
    var read := ReadField(fields, NameOf(term), ValueOf(term));
    if read.Ok? && |term| < |query| {
      TameReadsClean(query[|term| + 1..], unsafe, read.value);
    }
  }

  lemma {:induction false} TameInValue(text: string, rest: string, unsafe: char -> bool)
    requires (forall c <- text :: !EndsTerm(c)) && Tame(rest, unsafe, false, "")
    ensures Tame(text + rest, unsafe, false, "")
  {
    if text == "" {
      assert text + rest == rest;
    } else {
      TameInValue(text[1..], rest, unsafe);
      assert (text + rest)[1..] == text[1..] + rest && (text + rest)[0] == text[0];
    }
  }

  lemma {:induction false} TameInName(text: string, rest: string, unsafe: char -> bool, name: string)
    requires (forall c <- text :: !EndsName(c)) && Tame(rest, unsafe, true, name + text)
    ensures Tame(text + rest, unsafe, true, name)
  {
    if text == "" {
      assert text + rest == rest && name + text == name;
    } else {
      assert (name + [text[0]]) + text[1..] == name + text;
      TameInName(text[1..], rest, unsafe, name + [text[0]]);
      assert (text + rest)[1..] == text[1..] + rest && (text + rest)[0] == text[0];
      assert !EndsName(text[0]);
    }
  }

  lemma {:induction false} EncodedAppend(s: string, t: string, unsafe: char -> bool)
    ensures Encoded(s + t, unsafe) == Encoded(s, unsafe) + Encoded(t, unsafe)
  {
    if s == "" {
      EmptyPrefix(t);
      EmptyPrefix(Encoded(t, unsafe));
    } else {
      assert (s + t)[0] == s[0] && (s + t)[1..] == s[1..] + t;
      EncodedAppend(s[1..], t, unsafe);
      Associates(EncodeChar(s[0], unsafe), Encoded(s[1..], unsafe), Encoded(t, unsafe));
    }
  }

  lemma EncodedOne(c: char, unsafe: char -> bool)
    ensures Encoded([c], unsafe) == EncodeChar(c, unsafe)
  {
    assert Encoded([c][1..], unsafe) == "";
  }

  lemma {:induction false} EncodedCharHoldsNone(c: char, unsafe: char -> bool)
    requires unsafe(c) || !EndsName(c)
    ensures forall d <- EncodeChar(c, unsafe) :: !EndsName(d)
  {
    forall d | d in EncodeChar(c, unsafe)
      ensures !EndsName(d)
    {
      EncodedCharAlphabet(c, unsafe, d);
      if d == '%' || d in HEX {
        HexHasNoDelimiters(d);
      }
    }
  }

  /** The rest of an encoded name, with what has been read of it, or of the value it has turned into. */
  lemma {:induction false} EncodedNameIsTame(before: string, name: string, rest: string, unsafe: char -> bool, inName: bool)
    requires unsafe('%') && IsBytes(before) && IsBytes(name) && Clean(before, unsafe, EndsName)
    requires Tame(rest, unsafe, false, "") && rest != "" && rest[0] == '='
    requires !inName ==> before == ""
    ensures Tame(Encoded(name, unsafe) + rest, unsafe, inName, Encoded(before, unsafe))
    decreases |name|
  {
    DecodeEncoded(before, unsafe);
    if name == "" {
      assert Encoded(name, unsafe) + rest == rest;
    } else {
      var c, later := name[0], name[1..];
      var tail := Encoded(later, unsafe) + rest;
      Associates(EncodeChar(c, unsafe), Encoded(later, unsafe), rest);
      if unsafe(c) || !EndsName(c) {
        EncodedCharHoldsNone(c, unsafe);
        if inName {
          EncodedAppend(before, [c], unsafe);
          EncodedOne(c, unsafe);
          EncodedNameIsTame(before + [c], later, rest, unsafe, true);
          TameInName(EncodeChar(c, unsafe), tail, unsafe, Encoded(before, unsafe));
        } else {
          EncodedNameIsTame("", later, rest, unsafe, false);
          assert forall d :: EndsTerm(d) ==> EndsName(d);
          TameInValue(EncodeChar(c, unsafe), tail, unsafe);
        }
      } else {
        assert ([c] + tail)[1..] == tail;
        EncodedNameIsTame("", later, rest, unsafe, c != '=');
      }
    }
  }

  lemma TameBehindSeparator(s: string, unsafe: char -> bool)
    requires Tame(s, unsafe, true, "")
    ensures Tame("&" + s, unsafe, false, "")
  {
    assert ("&" + s)[1..] == s;
  }

  lemma QueryParts(w: Writer, params: Fields)
    requires params != []
    ensures var value := ValueText(w, params[0].value);
            Query(w, params) == Encoded(params[0].key, w.unsafe) + (("=" + value) + MoreTerms(w, params[1..]))
    ensures MoreTerms(w, params) == "&" + Query(w, params)
  {
    AroundEquals(Encoded(params[0].key, w.unsafe), ValueText(w, params[0].value), MoreTerms(w, params[1..]));
  }

  lemma AroundEquals(name: string, value: string, more: string)
    ensures (name + "=" + value) + more == name + (("=" + value) + more)
  {
  }

  lemma {:induction false} QueryIsTame(w: Writer, params: Fields)
    requires w.unsafe('%') && forall f <- params :: IsBytes(f.key) && CleanValue(w, f.value)
    ensures Tame(Query(w, params), w.unsafe, true, "")
    decreases |params|, 0
  {
    if params == [] {
      assert Query(w, params) == "" && Decode("") == Ok("");
    } else {
      MoreIsTame(w, params[1..]);
      var text, more := "=" + ValueText(w, params[0].value), MoreTerms(w, params[1..]);
      TameInValue(text, more, w.unsafe);
      QueryParts(w, params);
      EncodedNameIsTame("", params[0].key, text + more, w.unsafe, true);
    }
  }

  lemma {:induction false} MoreIsTame(w: Writer, params: Fields)
    requires w.unsafe('%') && forall f <- params :: IsBytes(f.key) && CleanValue(w, f.value)
    ensures Tame(MoreTerms(w, params), w.unsafe, false, "")
    decreases |params|, 1
  {
    if params != [] {
      QueryIsTame(w, params);
      QueryParts(w, params);
      TameBehindSeparator(Query(w, params), w.unsafe);
    }
  }

  lemma {:induction false} DecodedKeys(fields: Fields)
    ensures WithDecodedElements(fields).Ok? ==>
              var decoded := WithDecodedElements(fields).value;
              |decoded| == |fields| && forall i | 0 <= i < |fields| :: decoded[i].key == fields[i].key
  {
    if fields != [] {
      DecodedKeys(fields[1..]);
    }
  }

  /** Whatever comes back has clean names. */
  lemma RoundTripHasCleanKeys(w: Writer, params: Fields)
    requires w.unsafe('%') && forall f <- params :: IsBytes(f.key) && f.value.String?
    ensures RoundTrip(w, params).Ok? ==> CleanKeys(RoundTrip(w, params).value, w.unsafe)
  {
    var encoded := WithEncodedElements(params);
    EncodedStrings(w, params);
    QueryIsTame(w, encoded);
    TameReadsClean(Query(w, encoded), w.unsafe, []);
    var read := ReadTerms(Query(w, encoded), []);
    if read.Ok? {
      DecodedKeys(read.value);
    }
  }

  lemma {:induction false} EncodedStrings(w: Writer, params: Fields)
    requires forall f <- params :: IsBytes(f.key) && f.value.String?
    ensures forall f <- WithEncodedElements(params) :: IsBytes(f.key) && CleanValue(w, f.value)
  {
    if params != [] {
      EncodedStrings(w, params[1..]);
      EncodedValueAlphabet(params[0].value.s);
      assert forall c :: EndsTerm(c) ==> EndsName(c);
    }
  }

  ghost predicate NotBlank(f: Field) {
    f.key != "" || f.value != String("")
  }

  lemma {:induction false} PlainTextsOfStrings(w: Writer, params: Fields)
    requires forall f <- params :: f.value.String?
    ensures |PlainTexts(w, params)| <= |params|
    ensures (forall f <- params :: NotBlank(f)) ==> PlainTexts(w, params) == params
    ensures |PlainTexts(w, params)| == |params| ==> forall f <- params :: NotBlank(f)
  {
    if params != [] {
      PlainTextsOfStrings(w, params[1..]);
      assert params == [params[0]] + params[1..];
      assert params[0] == Field(params[0].key, String(params[0].value.s));
      assert NotBlank(params[0]) <==> Left(params[0], params[0].value.s) != [];
    }
  }

  /** String parameters with distinct names come back as they were exactly when the delimiters in their names are
      encoded, and no field is blank. */
  lemma RoundTripIff(w: Writer, params: Fields)
    requires w.unsafe('%') && UniqueKeys(params)
    requires forall f <- params :: IsBytes(f.key) && f.value.String? && IsBytes(f.value.s)
    ensures RoundTrip(w, params) == Ok(params) <==> CleanKeys(params, w.unsafe) && forall f <- params :: NotBlank(f)
  {
    if CleanKeys(params, w.unsafe) {
      QueryRoundTrip(w, params);
      PlainTextsOfStrings(w, params);
    } else {
      RoundTripHasCleanKeys(w, params);
    }
  }

  // ---------- What becomes of a name with a delimiter in it ----------

  lemma EncodedAround(first: string, separator: char, second: string, unsafe: char -> bool)
    requires !unsafe(separator)
    ensures Encoded(first + [separator] + second, unsafe) == Encoded(first, unsafe) + [separator] + Encoded(second, unsafe)
  {
    EncodedAppend(first + [separator], second, unsafe);
    EncodedAppend(first, [separator], unsafe);
    EncodedOne(separator, unsafe);
  }

  /** A term without an equals sign stores an empty text, and reading goes on behind its separator. */
  lemma ReadNameAlone(name: string, separator: char, more: string, unsafe: char -> bool, fields: Fields)
    requires unsafe('%') && IsBytes(name) && Clean(name, unsafe, EndsName) && name != "" && EndsTerm(separator)
    ensures ReadTerms(Encoded(name, unsafe) + ([separator] + more), fields) == ReadTerms(more, Put(fields, name, String("")))
  {
    var term := Encoded(name, unsafe);
    EncodedHoldsNone(name, unsafe, EndsName);
    DecodeEncoded(name, unsafe);
    forall c | c in term
      ensures !EndsTerm(c) && !IsEquals(c)
    {
      assert !EndsName(c);
    }
    NameAlone(term);
    ReadOne(term, [separator] + more, fields);
    assert ([separator] + more)[1..] == more;
  }

  lemma DecodedPair(a: string, b: string, text: string)
    requires IsBytes(text)
    ensures WithDecodedElements([Field(a, String("")), Field(b, String(Encoded(text, IsQueryValueUnsafe)))]) ==
            Ok([Field(a, String("")), Field(b, String(text))])
  {
    DecodeEncoded(text, IsQueryValueUnsafe);
    var first, second := Field(a, String("")), Field(b, String(Encoded(text, IsQueryValueUnsafe)));
    DecodedBehind([], first);
    EmptyPrefix([first]);
    DecodedBehind([first], second);
    Pair(first, second);
    Pair(first, Field(b, String(text)));
  }

  lemma Pair<T>(a: T, b: T)
    ensures [a] + [b] == [a, b]
  {
  }

  /** One parameter whose name holds a separator that is left as it is comes back as two: the first half of the
      name with an empty text, and the second half with the text. */
  lemma SeparatorInNameSplits(w: Writer, first: string, separator: char, second: string, text: string)
    requires w.unsafe('%') && EndsTerm(separator) && !w.unsafe(separator)
    requires IsBytes(first) && Clean(first, w.unsafe, EndsName) && first != ""
    requires IsBytes(second) && Clean(second, w.unsafe, EndsName) && second != "" && second != first
    requires IsBytes(text)
    ensures RoundTrip(w, [Field(first + [separator] + second, String(text))]) ==
            Ok([Field(first, String("")), Field(second, String(text))])
  {
    var param, half := Field(first + [separator] + second, String(text)), Field(second, String(text));
    var encoded := Field(second, EncodeValue(half.value));
    EncodedAround(first, separator, second, w.unsafe);
    assert [param][1..] == [];
    EncodedElementIsClean(w, half);
    var query := Query(w, WithEncodedElements([param]));
    SplitQuery(w, first, separator, second, text);
    assert query == Encoded(first, w.unsafe) + ([separator] + (Term(w, encoded) + ""));
    ReadNameAlone(first, separator, Term(w, encoded) + "", w.unsafe, []);
    ReadTermOf(w, encoded, "", [Field(first, String(""))]);
    PutNew([Field(first, String(""))], second, encoded.value);
    DecodedPair(first, second, text);
  }

  lemma SplitQuery(w: Writer, first: string, separator: char, second: string, text: string)
    requires !w.unsafe(separator)
    ensures Query(w, WithEncodedElements([Field(first + [separator] + second, String(text))])) ==
            Encoded(first, w.unsafe) + ([separator] + (Term(w, Field(second, EncodeValue(String(text)))) + ""))
  {
    EncodedAround(first, separator, second, w.unsafe);
    var param := Field(first + [separator] + second, String(text));
    assert [param][1..] == [];
    var encoded := Field(param.key, EncodeValue(param.value));
    assert WithEncodedElements([param]) == [encoded] + [];
    assert [encoded] + [] == [encoded] && [encoded][1..] == [];
    assert Query(w, [encoded]) == Term(w, encoded) + "";
    Regroup(Encoded(first, w.unsafe), separator, Encoded(second, w.unsafe), ValueText(w, encoded.value));
  }

  lemma Regroup(a: string, c: char, b: string, value: string)
    ensures ((a + [c] + b) + "=" + value) + "" == a + ([c] + ((b + "=" + value) + ""))
  {
  }

  /** With the delimiters left alone as `uri::encode_uri` leaves them, "a&b" is such a name. */
  lemma AmpersandInNameSplits(w: Writer)
    requires w.unsafe('%') && !w.unsafe('&') && !w.unsafe(';') && !w.unsafe('=')
    ensures RoundTrip(w, [Field("a&b", String("x"))]) == Ok([Field("a", String("")), Field("b", String("x"))])
  {
    SeparatorInNameSplits(w, "a", '&', "b", "x");
    assert "a" + ['&'] + "b" == "a&b";
  }
}
