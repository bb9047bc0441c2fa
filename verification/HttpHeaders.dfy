/** Lists of values in a header field (has_header_value and add_header_value of http_utils.cpp). */
module HttpHeaders {

  /** What separates the values of a list. */
  const COMMA: string := ", "

  type Headers = map<string, string>

  predicate OccursAt(pattern: string, s: string, i: int) {
    0 <= i <= |s| - |pattern| && pattern <= s[i..]
  }

  ghost predicate Occurs(pattern: string, s: string) {
    exists i :: OccursAt(pattern, s, i)
  }

  /** The original searches the text of the header, with separators added at both ends. */
  ghost predicate HasHeaderValue(headers: Headers, name: string, value: string) {
    name in headers && headers[name] != "" &&
    Occurs(COMMA + value + COMMA, COMMA + headers[name] + COMMA)
  }

  // ---------- The values of a list ----------

  predicate StartsWithComma(s: string) {
    |s| >= 2 && s[0] == ',' && s[1] == ' '
  }

  /** The parts of a text between its separators; there is always at least one. */
  ghost function Values(s: string): (parts: seq<string>)
    ensures parts != [] && parts[0] <= s
  {
    if s == "" then [""]
    else if StartsWithComma(s) then [""] + Values(s[2..])
    else
      var rest := Values(s[1..]);
      [[s[0]] + rest[0]] + rest[1..]
  }

  /** The values a header lists. */
  ghost function Listed(headers: Headers, name: string): seq<string> {
    if name in headers && headers[name] != "" then Values(headers[name]) else []
  }

  /** Parts with a separator after each. */
  ghost function Terminated(parts: seq<string>): string {
    if parts == [] then "" else parts[0] + COMMA + Terminated(parts[1..])
  }

  ghost predicate HasNoComma(s: string) {
    forall i | 0 <= i <= |s| - 2 :: !(s[i] == ',' && s[i + 1] == ' ')
  }

  lemma PrependTerminated(c: char, a: string, b: string)
    ensures ([c] + a) + COMMA + b == [c] + (a + COMMA + b)
  {
  }

  lemma ValuesAfterComma(s: string)
    requires StartsWithComma(s)
    ensures Values(s) == [""] + Values(s[2..])
  {
  }

  lemma ValuesAfterChar(c: char, s: string)
    requires !StartsWithComma([c] + s)
    ensures Values([c] + s) == [[c] + Values(s)[0]] + Values(s)[1..]
  {
    assert ([c] + s)[1..] == s;
  }

  ghost predicate ArePartsOf(parts: seq<string>, s: string) {
    Terminated(parts) == s + COMMA && forall i | 0 <= i < |parts| :: HasNoComma(parts[i])
  }

  lemma PartsBehindChar(c: char, parts: seq<string>, s: string)
    requires ArePartsOf(parts, s) && parts != [] && parts[0] <= s && !StartsWithComma([c] + s)
    ensures ArePartsOf([[c] + parts[0]] + parts[1..], [c] + s)
  {
    var grown := [[c] + parts[0]] + parts[1..];
    assert grown[1..] == parts[1..];
    PrependTerminated(c, parts[0], Terminated(parts[1..]));
    assert ([c] + s) + COMMA == [c] + (s + COMMA);
  }

  lemma {:induction false} ValuesAreParts(s: string)
    ensures ArePartsOf(Values(s), s)
  {
    if s == "" {
      assert Terminated([""]) == "" + COMMA + Terminated([]);
    } else if StartsWithComma(s) {
      ValuesAreParts(s[2..]);
      ValuesAfterComma(s);
      assert s == COMMA + s[2..];
    } else {
      ValuesAreParts(s[1..]);
      assert s == [s[0]] + s[1..];
      ValuesAfterChar(s[0], s[1..]);
      PartsBehindChar(s[0], Values(s[1..]), s[1..]);
    }
  }

  /** Texts with a comma and a space between them. */
  ghost function Joined(parts: seq<string>): string {
    if parts == [] then "" else if |parts| == 1 then parts[0] else parts[0] + ", " + Joined(parts[1..])
  }

  /** The text of a header is its values, joined in this way. */
  lemma {:induction false} HeaderIsJoined(s: string)
    ensures s == Joined(Values(s))
  {
    if s != "" {
      if StartsWithComma(s) {
        HeaderIsJoined(s[2..]);
        ValuesAfterComma(s);
        assert Values(s)[1..] == Values(s[2..]);
        assert s == "" + ", " + s[2..];
      } else {
        HeaderIsJoined(s[1..]);
        var rest := Values(s[1..]);
        assert Values(s)[1..] == rest[1..];
        JoinedBehindChar(s[0], rest);
        assert s == [s[0]] + s[1..];
      }
    }
  }

  lemma JoinedBehindChar(c: char, parts: seq<string>)
    requires parts != []
    ensures Joined([[c] + parts[0]] + parts[1..]) == [c] + Joined(parts)
  {
    assert ([[c] + parts[0]] + parts[1..])[1..] == parts[1..];
    if |parts| > 1 {
      assert ([c] + parts[0]) + ", " + Joined(parts[1..]) == [c] + (parts[0] + ", " + Joined(parts[1..]));
    }
  }

  /** A text without separators is its only part. */
  lemma {:induction false} OnePart(s: string)
    requires HasNoComma(s)
    ensures Values(s) == [s]
  {
    if s != "" {
      assert !StartsWithComma(s);
      assert forall i | 0 <= i < |s[1..]| :: s[1..][i] == s[i + 1];
      OnePart(s[1..]);
      assert [s[0]] + s[1..] == s;
    }
  }

  lemma CommaInFront(s: string, t: string)
    requires StartsWithComma(s)
    ensures StartsWithComma(s + COMMA + t) && (s + COMMA + t)[2..] == s[2..] + COMMA + t
  {
  }

  lemma {:induction false} ValuesAppend(s: string, t: string)
    ensures Values(s + COMMA + t) == Values(s) + Values(t)
  {
    if s == "" {
      assert (s + COMMA + t)[2..] == t;
      ValuesAfterComma(s + COMMA + t);
    } else if StartsWithComma(s) {
      CommaInFront(s, t);
      ValuesAfterComma(s + COMMA + t);
      ValuesAppend(s[2..], t);
    } else {
      ValuesAppend(s[1..], t);
      ValuesAppendAfterChar(s[0], s[1..], t);
      assert s == [s[0]] + s[1..];
    }
  }

  lemma GrowFirst(c: char, parts: seq<string>, more: seq<string>)
    requires parts != []
    ensures [[c] + (parts + more)[0]] + (parts + more)[1..] == [[c] + parts[0]] + parts[1..] + more
  {
    assert (parts + more)[1..] == parts[1..] + more;
  }

  lemma ValuesAppendAfterChar(c: char, s: string, t: string)
    requires Values(s + COMMA + t) == Values(s) + Values(t)
    requires !StartsWithComma([c] + s)
    ensures Values(([c] + s) + COMMA + t) == Values([c] + s) + Values(t)
  {
    PrependTerminated(c, s, t);
    ValuesAfterChar(c, s);
    ValuesAfterChar(c, s + COMMA + t);
    GrowFirst(c, Values(s), Values(t));
  }

  // ---------- Searching the text ----------

  lemma NotShorter(a: string, s: string, b: string, t: string)
    requires HasNoComma(b)
    requires a + COMMA + s <= b + COMMA + t
    ensures |a| >= |b|
  {
    var whole := b + COMMA + t;
    var part := a + COMMA + s;
    assert forall i | 0 <= i < |part| :: part[i] == whole[i];
    assert part[|a|] == ',' && part[|a| + 1] == ' ';
    assert whole[|b|] == ',';
    assert forall i | 0 <= i < |b| :: whole[i] == b[i];
  }

  /** The first separator of a text decides its first part. */
  lemma SameFirstPart(a: string, s: string, b: string, t: string)
    requires HasNoComma(a) && HasNoComma(b)
    requires a + COMMA + s <= b + COMMA + t
    ensures a == b && s <= t
  {
    var whole := b + COMMA + t;
    var part := a + COMMA + s;
    NotShorter(a, s, b, t);
    assert forall i | 0 <= i < |part| :: part[i] == whole[i];
    assert forall i | 0 <= i < |a| :: part[i] == a[i];
    assert whole[|b|] == ',' && whole[|b| + 1] == ' ';
    assert |b| == |a|;
    assert a == part[..|a|] == whole[..|b|] == b;
    assert s == part[|a| + 2..] && t == whole[|a| + 2..];
  }

  lemma {:induction false} TerminatedPrefix(vs: seq<string>, hs: seq<string>)
    requires (forall v <- vs :: HasNoComma(v)) && (forall h <- hs :: HasNoComma(h))
    ensures Terminated(vs) <= Terminated(hs) <==> vs <= hs
  {
    if vs != [] && hs != [] {
      TerminatedPrefix(vs[1..], hs[1..]);
      if Terminated(vs) <= Terminated(hs) {
        SameFirstPart(vs[0], Terminated(vs[1..]), hs[0], Terminated(hs[1..]));
        assert vs == [vs[0]] + vs[1..] && hs == [hs[0]] + hs[1..];
      } else if vs <= hs {
        assert vs[0] == hs[0] && vs[1..] <= hs[1..];
        PrefixAfter(vs[0] + COMMA, Terminated(vs[1..]), Terminated(hs[1..]));
      }
    }
  }

  lemma PrefixAfter(a: string, s: string, t: string)
    requires s <= t
    ensures a + s <= a + t
  {
    assert a + t == a + s + t[|s|..];
  }

  lemma OccursStarts(p: string, s: string, i: int)
    ensures OccursAt(COMMA + p, s, i) ==> 0 <= i <= |s| - 2 && s[i] == ',' && s[i + 1] == ' '
  {
    if OccursAt(COMMA + p, s, i) {
      assert (COMMA + p)[0] == s[i..][0] && (COMMA + p)[1] == s[i..][1];
    }
  }

  lemma NotInside(p: string, h: string, t: string, i: int)
    requires HasNoComma(h) && 0 < i < |h| + 2
    ensures !OccursAt(COMMA + p, COMMA + (h + COMMA + t), i)
  {
    var whole := COMMA + (h + COMMA + t);
    OccursStarts(p, whole, i);
    assert forall k | 0 <= k < |h| :: whole[k + 2] == h[k];
    assert whole[1] == ' ' && whole[|h| + 2] == ',';
  }

  lemma InFront(p: string, h: string, t: string)
    ensures OccursAt(COMMA + p, COMMA + (h + COMMA + t), 0) <==> p <= h + COMMA + t
  {
    var rest := h + COMMA + t;
    assert (COMMA + rest)[0..] == COMMA + rest;
    assert (COMMA + p)[2..] == p && (COMMA + rest)[2..] == rest;
    if p <= rest {
      PrefixAfter(COMMA, p, rest);
    }
  }

  /** A separator found in a terminated text is the one in front, or is behind the first part. */
  lemma OccursInFrontOrBehind(p: string, h: string, t: string, i: int)
    requires HasNoComma(h)
    ensures OccursAt(COMMA + p, COMMA + (h + COMMA + t), i) <==>
            (i == 0 && p <= h + COMMA + t) || (i >= |h| + 2 && OccursAt(COMMA + p, COMMA + t, i - |h| - 2))
  {
    if i == 0 {
      InFront(p, h, t);
    } else if i >= |h| + 2 {
      var whole := COMMA + (h + COMMA + t);
      assert whole == (COMMA + h) + (COMMA + t);
      assert i <= |whole| ==> whole[i..] == (COMMA + t)[i - |h| - 2..];
    } else if i > 0 {
      NotInside(p, h, t, i);
    }
  }

  /** Whether some parts stand one after another among others. */
  ghost predicate HasRun(hs: seq<string>, vs: seq<string>) {
    exists j | 0 <= j <= |hs| :: vs <= hs[j..]
  }

  lemma HasRunHere(hs: seq<string>, vs: seq<string>)
    requires vs != []
    ensures !HasRun([], vs)
    ensures hs != [] ==> (HasRun(hs, vs) <==> vs <= hs || HasRun(hs[1..], vs))
  {
    if hs != [] {
      assert hs[0..] == hs;
      if j :| 0 <= j <= |hs| && vs <= hs[j..] {
        if j > 0 {
          assert hs[1..][j - 1..] == hs[j..];
        }
      }
      if j :| 0 <= j <= |hs[1..]| && vs <= hs[1..][j..] {
        assert hs[j + 1..] == hs[1..][j..];
      }
    }
  }

  lemma OccursHere(p: string, h: string, t: string)
    requires HasNoComma(h)
    ensures Occurs(COMMA + p, COMMA + (h + COMMA + t)) <==> p <= h + COMMA + t || Occurs(COMMA + p, COMMA + t)
  {
    var whole := COMMA + (h + COMMA + t);
    if i :| OccursAt(COMMA + p, whole, i) {
      OccursInFrontOrBehind(p, h, t, i);
    }
    if p <= h + COMMA + t {
      OccursInFrontOrBehind(p, h, t, 0);
      assert OccursAt(COMMA + p, whole, 0);
    }
    if i :| OccursAt(COMMA + p, COMMA + t, i) {
      OccursInFrontOrBehind(p, h, t, i + |h| + 2);
      assert OccursAt(COMMA + p, whole, i + |h| + 2);
    }
  }

  lemma {:induction false} OccursInTerminated(vs: seq<string>, hs: seq<string>)
    requires (forall v <- vs :: HasNoComma(v)) && (forall h <- hs :: HasNoComma(h)) && vs != []
    ensures Occurs(COMMA + Terminated(vs), COMMA + Terminated(hs)) <==> HasRun(hs, vs)
  {
    HasRunHere(hs, vs);
    if hs == [] {
      assert |Terminated(vs)| >= 2;
    } else {
      OccursInTerminated(vs, hs[1..]);
      TerminatedPrefix(vs, hs);
      OccursHere(Terminated(vs), hs[0], Terminated(hs[1..]));
    }
  }

  /** Exactly what the search finds, for every header and every value: the parts of the value, one after
      another among the parts of the header. */
  lemma SearchFindsRuns(headers: Headers, name: string, value: string)
    ensures HasHeaderValue(headers, name, value) <==> HasRun(Listed(headers, name), Values(value))
  {
    if name in headers && headers[name] != "" {
      TextFindsRuns(headers[name], value);
    } else {
      HasRunHere([], Values(value));
    }
  }

  lemma TextFindsRuns(header: string, value: string)
    ensures Occurs(COMMA + value + COMMA, COMMA + header + COMMA) <==> HasRun(Values(header), Values(value))
  {
    ValuesAreParts(value);
    ValuesAreParts(header);
    OccursInTerminated(Values(value), Values(header));
    assert COMMA + value + COMMA == COMMA + (value + COMMA);
    assert COMMA + header + COMMA == COMMA + (header + COMMA);
  }

  /** For a value that holds no separator the search is membership of the list. */
  lemma SearchIsMembership(headers: Headers, name: string, value: string)
    requires HasNoComma(value)
    ensures HasHeaderValue(headers, name, value) <==> value in Listed(headers, name)
  {
    SearchFindsRuns(headers, name, value);
    OnePart(value);
    RunOfOne(Listed(headers, name), value);
  }

  lemma RunOfOne(hs: seq<string>, value: string)
    ensures HasRun(hs, [value]) <==> value in hs
  {
    if j :| 0 <= j <= |hs| && [value] <= hs[j..] {
      assert hs[j] == hs[j..][0] == value;
    }
    if value in hs {
      var j :| 0 <= j < |hs| && hs[j] == value;
      assert [value] <= hs[j..];
    }
  }

  /** A value that holds a separator is never listed, and the search still finds it, in a header that is just that. */
  lemma SearchFindsUnlisted(name: string, value: string)
    requires !HasNoComma(value)
    ensures var headers := map[name := value];
            HasHeaderValue(headers, name, value) && value !in Listed(headers, name)
  {
    var headers := map[name := value];
    ValuesAreParts(value);
    HasRunHere(Values(value), Values(value));
    SearchFindsRuns(headers, name, value);
    assert forall part <- Values(value) :: HasNoComma(part);
  }

  /** The search is membership of the list, for all headers, exactly for the values that hold no separator. */
  lemma SearchIsMembershipIff(value: string)
    ensures HasNoComma(value) <==>
            forall headers: Headers, name ::
              HasHeaderValue(headers, name, value) <==> value in Listed(headers, name)
  {
    if HasNoComma(value) {
      forall headers: Headers, name {
        SearchIsMembership(headers, name, value);
      }
    } else {
      SearchFindsUnlisted("Allow", value);
    }
  }

  // ---------- Adding a value ----------

  function Add(headers: Headers, name: string, value: string): Headers {
    if name in headers && headers[name] != "" then headers[name := headers[name] + COMMA + value]
    else headers[name := value]
  }

  ghost function AddValue(headers: Headers, name: string, value: string): Headers {
    if HasHeaderValue(headers, name, value) then headers else Add(headers, name, value)
  }

  /** A list without its repetitions, in the order of first occurrence. */
  ghost function AddDistinct(listed: seq<string>, value: string): seq<string> {
    if value in listed then listed else listed + [value]
  }

  lemma AddValueLists(headers: Headers, name: string, value: string)
    requires HasNoComma(value) && value != ""
    ensures Listed(AddValue(headers, name, value), name) == AddDistinct(Listed(headers, name), value)
    ensures forall other | other != name ::
              Listed(AddValue(headers, name, value), other) == Listed(headers, other)
  {
    SearchIsMembership(headers, name, value);
    OnePart(value);
    if name in headers && headers[name] != "" {
      ValuesAppend(headers[name], value);
    }
  }

  /** The headers of a message, which the original changes in place. */
  class HttpHeaders {
    var fields: Headers

    constructor ()
      ensures fields == map[]
    {
      fields := map[];
    }

    method Search(name: string, value: string) returns (found: bool)
      ensures found == HasHeaderValue(fields, name, value)
    {
      if name !in fields || fields[name] == "" {
        return false;
      }
      var searchable := COMMA + fields[name] + COMMA;
      var pattern := COMMA + value + COMMA;
      found := false;
      for i := 0 to |searchable| + 1
        invariant !found
        invariant forall k | 0 <= k < i :: !OccursAt(pattern, searchable, k)
      {
        if OccursAt(pattern, searchable, i) {
          return true;
        }
      }
    }

    method AddHeaderValue(name: string, value: string) returns (added: bool)
      modifies this
      ensures added == !HasHeaderValue(old(fields), name, value)
      ensures fields == AddValue(old(fields), name, value)
    {
      var found := Search(name, value);
      if found {
        return false;
      }
      fields := Add(fields, name, value);
      added := true;
    }
  }
}
