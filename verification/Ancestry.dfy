/** The parents given to example sources and flows (insert_parents of node_implementation.cpp): an index with
    trailing one bits gets parents with one fewer. */
module Ancestry {

  // ---------- Bits ----------

  predicate Bit(i: nat, b: nat) {
    if b == 0 then i % 2 == 1 else Bit(i / 2, b - 1)
  }

  function Clear(i: nat, b: nat): nat {
    if b == 0 then i - i % 2 else 2 * Clear(i / 2, b - 1) + i % 2
  }

  lemma {:induction false} BitOfClear(i: nat, b: nat, k: nat)
    ensures Bit(Clear(i, b), k) <==> Bit(i, k) && k != b
  {
    if b == 0 {
      assert (i - i % 2) / 2 == i / 2;
    } else {
      assert Clear(i, b) / 2 == Clear(i / 2, b - 1) && Clear(i, b) % 2 == i % 2;
      if k > 0 {
        BitOfClear(i / 2, b - 1, k - 1);
      }
    }
  }

  ghost predicate BitsWithin(p: nat, q: nat) {
    forall k: nat :: Bit(p, k) ==> Bit(q, k)
  }

  lemma HalvesWithin(p: nat, q: nat)
    requires BitsWithin(p, q)
    ensures BitsWithin(p / 2, q / 2) && p % 2 <= q % 2
  {
    forall k: nat | Bit(p / 2, k)
      ensures Bit(q / 2, k)
    {
      assert Bit(p, k + 1) ==> Bit(q, k + 1);
    }
    assert Bit(p, 0) ==> Bit(q, 0);
  }

  lemma {:induction false} BitsWithinOrder(p: nat, q: nat)
    requires BitsWithin(p, q)
    ensures p <= q
    decreases p + q
  {
    if p + q > 0 {
      HalvesWithin(p, q);
      BitsWithinOrder(p / 2, q / 2);
    }
  }

  /** A number with one bit fewer, and no other, is smaller. */
  lemma BitMissing(p: nat, q: nat, k: nat)
    requires BitsWithin(p, q) && Bit(q, k) && !Bit(p, k)
    ensures p < q
  {
    BitsWithinOrder(p, q);
  }

  /** The bits decide the number. */
  lemma SameBits(p: nat, q: nat)
    requires forall k: nat :: Bit(p, k) <==> Bit(q, k)
    ensures p == q
  {
    BitsWithinOrder(p, q);
    BitsWithinOrder(q, p);
  }

  /** How many one bits there are in a row from this bit on. */
  function Ones(i: nat, b: nat): nat
    decreases b, i
  {
    if b > 0 then Ones(i / 2, b - 1)
    else if i % 2 == 1 then 1 + Ones(i / 2, 0)
    else 0
  }

  lemma {:induction false} OnesFrom(i: nat, b: nat)
    ensures Ones(i, b) == if Bit(i, b) then 1 + Ones(i, b + 1) else 0
    decreases b
  {
    if b > 0 {
      OnesFrom(i / 2, b - 1);
    }
  }

  lemma {:induction false} OnesAreBits(i: nat, b: nat)
    ensures forall k | b <= k < b + Ones(i, b) :: Bit(i, k)
    ensures !Bit(i, b + Ones(i, b))
    decreases Ones(i, b)
  {
    OnesFrom(i, b);
    if Bit(i, b) {
      OnesAreBits(i, b + 1);
    }
  }

  /** The number of ones in a row is decided by the bits. */
  lemma {:induction false} OnesByBits(i: nat, b: nat, n: nat)
    requires (forall k | b <= k < b + n :: Bit(i, k)) && !Bit(i, b + n)
    ensures Ones(i, b) == n
    decreases n
  {
    OnesFrom(i, b);
    if n > 0 {
      OnesByBits(i, b + 1, n - 1);
    }
  }

  ghost function TrailingOnes(i: nat): nat {
    Ones(i, 0)
  }

  // ---------- Bits as numbers ----------

  ghost function Power(b: nat): nat {
    if b == 0 then 1 else 2 * Power(b - 1)
  }

  lemma PowerNext(b: nat)
    ensures Power(b + 1) == 2 * Power(b)
  {
  }

  /** A bit is the binary digit at its place. */
  lemma {:induction false} BitIsDigit(i: nat, b: nat)
    ensures Power(b) > 0 && (Bit(i, b) <==> i / Power(b) % 2 == 1)
  {
    if b > 0 {
      BitIsDigit(i / 2, b - 1);
      HalvedQuotient(i, Power(b - 1));
    }
  }

  lemma HalvedQuotient(i: nat, p: nat)
    requires p > 0
    ensures i / (2 * p) == i / 2 / p
  {
    var q, r := i / 2 / p, i / 2 % p;
    assert i / 2 == q * p + r && i == 2 * (i / 2) + i % 2;
    QuotientIs(i, 2 * p, q, 2 * r + i % 2);
  }

  lemma QuotientIs(i: nat, d: nat, q: nat, r: nat)
    requires d > 0 && r < d && i == q * d + r
    ensures i / d == q
  {
    assert i == i / d * d + i % d;
    OneQuotient(d, q, r, i / d, i % d);
  }

  lemma OneQuotient(d: nat, q: nat, r: nat, q': nat, r': nat)
    requires r < d && r' < d && q * d + r == q' * d + r'
    ensures q == q'
  {
    if q < q' {
      ProductGrows(q, q', d);
      assert false;
    } else if q' < q {
      ProductGrows(q', q, d);
      assert false;
    }
  }

  lemma ProductGrows(a: nat, b: nat, d: nat)
    requires a < b
    ensures a * d + d <= b * d
  {
    assert b * d == (b - a - 1) * d + (a + 1) * d;
  }

  /** Clearing a bit that is set takes its place value away. */
  lemma {:induction false} ClearSubtracts(i: nat, b: nat)
    ensures Clear(i, b) == i - if Bit(i, b) then Power(b) else 0
  {
    if b > 0 {
      ClearSubtracts(i / 2, b - 1);
    }
  }

  // ---------- Parents ----------

  /** Besides one for the last trailing one bit, there is a parent for each bit of the next run of ones. */
  ghost function ParentCount(index: nat): nat {
    var t := TrailingOnes(index);
    if t == 0 then 0 else 1 + Ones(index, t + 1)
  }

  ghost function Parent(index: nat, k: nat): nat
    requires TrailingOnes(index) > 0
  {
    var t := TrailingOnes(index);
    Clear(if k == 0 then Clear(index, t - 1) else Parent(index, k - 1), t + k)
  }

  ghost function Parents(index: nat): seq<nat> {
    seq(ParentCount(index), k requires 0 <= k < ParentCount(index) => Parent(index, k))
  }

  ghost function Ids(makeId: nat -> string, indices: seq<nat>): seq<string> {
    seq(|indices|, k requires 0 <= k < |indices| => makeId(indices[k]))
  }

  /** How many parents there are, in bits alone: with t ones at the end, t not 0, and n ones behind the next bit,
      one more than n; and none with a zero at the end. */
  lemma ParentsByBits(index: nat, t: nat, n: nat)
    requires (forall j | 0 <= j < t :: Bit(index, j)) && !Bit(index, t)
    requires (forall j | t < j <= t + n :: Bit(index, j)) && !Bit(index, t + n + 1)
    ensures |Parents(index)| == if t == 0 then 0 else n + 1
  {
    OnesByBits(index, 0, t);
    OnesByBits(index, t + 1, n);
  }

  /** A parent lacks the last of the trailing ones, and the first bits of the next run. */
  lemma {:induction false} ParentBits(index: nat, k: nat, j: nat)
    requires TrailingOnes(index) > 0
    ensures var t := TrailingOnes(index);
            Bit(Parent(index, k), j) <==> Bit(index, j) && j != t - 1 && !(t <= j <= t + k)
  {
    var t := TrailingOnes(index);
    if k == 0 {
      BitOfClear(index, t - 1, j);
      BitOfClear(Clear(index, t - 1), t, j);
    } else {
      ParentBits(index, k - 1, j);
      BitOfClear(Parent(index, k - 1), t + k, j);
    }
  }

  lemma FirstParent(index: nat)
    requires TrailingOnes(index) > 0
    ensures Parent(index, 0) == index - Power(TrailingOnes(index) - 1)
  {
    var t := TrailingOnes(index);
    OnesAreBits(index, 0);
    ClearSubtracts(index, t - 1);
    BitOfClear(index, t - 1, t);
    ClearSubtracts(Clear(index, t - 1), t);
  }

  lemma NextParent(index: nat, k: nat)
    requires 0 < k < ParentCount(index)
    ensures Parent(index, k) == Parent(index, k - 1) - Power(TrailingOnes(index) + k)
  {
    var t := TrailingOnes(index);
    OnesAreBits(index, t + 1);
    ParentBits(index, k - 1, t + k);
    ClearSubtracts(Parent(index, k - 1), t + k);
  }

  /** The parents as numbers: the first lacks the last of the trailing ones, and each further one the next bit of the
      run behind them. */
  lemma {:induction false} ParentIsDifference(index: nat, k: nat)
    requires k < ParentCount(index)
    ensures var t := TrailingOnes(index);
            Parent(index, k) == index - Power(t - 1) - (Power(t + k + 1) - Power(t + 1))
  {
    if k == 0 {
      FirstParent(index);
    } else {
      ParentIsDifference(index, k - 1);
      NextParent(index, k);
      PowerNext(TrailingOnes(index) + k);
    }
  }

  lemma ParentsUpTo(index: nat, n: nat)
    requires n < ParentCount(index)
    ensures Parents(index)[..n + 1] == Parents(index)[..n] + [Parent(index, n)]
  {
  }

  class Resource {
    var parents: seq<string>

    method InsertParents(makeId: nat -> string, index: nat)
      modifies this
      ensures parents == old(parents) + Ids(makeId, Parents(index))
    {
      ghost var t := TrailingOnes(index);
      var b := 0;
      OnesAreBits(index, 0);
      while Bit(index, b)
        invariant b <= t
        decreases t - b
      {
        b := b + 1;
      }
      if b == 0 {
        assert Parents(index) == [];
        return;
      }
      OnesAreBits(index, t + 1);
      var i := Clear(index, b - 1);
      i := Clear(i, b);
      parents := parents + [makeId(i)];
      b := b + 1;
      ghost var n := 1;
      ParentBits(index, 0, b);
      while Bit(i, b)
        invariant 1 <= n <= ParentCount(index) && b == t + n && i == Parent(index, n - 1)
        invariant Bit(i, b) <==> Bit(index, b)
        invariant parents == old(parents) + Ids(makeId, Parents(index)[..n])
        decreases ParentCount(index) - n
      {
        i := Clear(i, b);
        parents := parents + [makeId(i)];
        b := b + 1;
        ParentsUpTo(index, n);
        n := n + 1;
        ParentBits(index, n - 1, b);
      }
      assert Parents(index)[..n] == Parents(index);
    }
  }

  // ---------- Ancestry ----------

  lemma ParentsDecrease(index: nat, k: nat, l: nat)
    requires k < l < ParentCount(index)
    ensures Parent(index, l) < Parent(index, k)
  {
    var t := TrailingOnes(index);
    OnesAreBits(index, t + 1);
    forall j: nat
      ensures Bit(Parent(index, l), j) ==> Bit(Parent(index, k), j)
    {
      ParentBits(index, k, j);
      ParentBits(index, l, j);
    }
    ParentBits(index, k, t + l);
    ParentBits(index, l, t + l);
    BitMissing(Parent(index, l), Parent(index, k), t + l);
  }

  /** Every parent has exactly one trailing one bit fewer. */
  lemma ParentHasOneFewer(index: nat, k: nat)
    requires k < ParentCount(index)
    ensures TrailingOnes(Parent(index, k)) == TrailingOnes(index) - 1
    ensures Parent(index, k) < index
  {
    var t := TrailingOnes(index);
    OnesAreBits(index, 0);
    forall j: nat
      ensures Bit(Parent(index, k), j) <==> Bit(index, j) && j != t - 1 && !(t <= j <= t + k)
    {
      ParentBits(index, k, j);
    }
    OnesByBits(Parent(index, k), 0, t - 1);
    BitMissing(Parent(index, k), index, t - 1);
  }

  /** A line of descent, from an index on to one of its parents and so on. */
  ghost predicate Line(line: seq<nat>) {
    line != [] && forall i | 0 <= i < |line| - 1 :: line[i + 1] in Parents(line[i])
  }

  /** Along every line indices get smaller, so no index is its own ancestor, and the trailing ones count down. */
  lemma {:induction false} LineCountsDown(line: seq<nat>)
    requires Line(line)
    ensures forall i | 0 < i < |line| :: line[i] < line[0]
    ensures TrailingOnes(line[|line| - 1]) == TrailingOnes(line[0]) - (|line| - 1)
  {
    if |line| > 1 {
      var rest := line[1..];
      assert line[1] in Parents(line[0]);
      var k :| 0 <= k < ParentCount(line[0]) && line[1] == Parents(line[0])[k];
      ParentHasOneFewer(line[0], k);
      assert forall i | 0 <= i < |rest| :: rest[i] == line[i + 1];
      assert Line(rest);
      LineCountsDown(rest);
      assert rest[|rest| - 1] == line[|line| - 1];
    }
  }

  /** An index has parents exactly when it has trailing ones, so every line that cannot be continued is as long
      as there are trailing ones at its start. */
  lemma DepthIsTrailingOnes(line: seq<nat>)
    requires Line(line)
    ensures Parents(line[|line| - 1]) == [] <==> |line| - 1 == TrailingOnes(line[0])
    ensures |line| - 1 <= TrailingOnes(line[0])
  {
    LineCountsDown(line);
  }
}
