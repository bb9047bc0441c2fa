/** Facts about sequences that several proofs use. */
module Sequences {

  lemma Associates<T>(a: seq<T>, b: seq<T>, c: seq<T>)
    ensures (a + b) + c == a + (b + c)
  {
  }

  lemma HeadTail<T>(s: seq<T>)
    requires s != []
    ensures s == [s[0]] + s[1..]
  {
  }

  lemma InitLast<T>(s: seq<T>)
    requires s != []
    ensures s == s[..|s| - 1] + [s[|s| - 1]]
  {
  }

  lemma EmptyPrefix<T>(s: seq<T>)
    ensures [] + s == s
  {
  }

  lemma Replaced<T>(s: seq<T>, i: nat, x: T)
    requires i < |s|
    ensures var r := s[i := x]; r[..i + 1] == s[..i] + [x] && r[i + 1..] == s[i..][1..] && r == s[..i] + ([x] + s[i..][1..])
  {
  }

  lemma Removed<T>(s: seq<T>, i: nat)
    requires i < |s|
    ensures var r := s[..i] + s[i + 1..]; r[..i] == s[..i] && r[i..] == s[i..][1..]
  {
  }

  lemma Parts<T>(a: seq<T>, b: seq<T>)
    ensures (a + b)[..|a|] == a && (a + b)[|a|..] == b
  {
  }

  lemma Later<T>(s: seq<T>, i: nat, j: nat)
    requires i + j <= |s|
    ensures s[i..][j..] == s[i + j..]
  {
  }

  /** Two ways of cutting the same sequence in two. */
  lemma Overlap<T>(a: seq<T>, x: seq<T>, b: seq<T>, y: seq<T>)
    requires a + x == b + y && |a| <= |b|
    ensures var k := |b| - |a|; k <= |x| && b == a + x[..k] && x == x[..k] + y
  {
    var k := |b| - |a|;
    Parts(a, x);
    Parts(b, y);
    assert b == (a + x)[..|b|] && y == (a + x)[|b|..];
  }
}
