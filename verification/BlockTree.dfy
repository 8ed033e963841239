/**
 Pointer tables of equal fan-out, nested up to three deep: the digits of an index, taken
 the way read_indirect takes them, lead to the element of the flattened tree at that index.
 */
module BlockTree {
  import opened Arith

  /** The pointers held by the table in each block. */
  type Tables = nat -> seq<nat>

  ghost predicate Fan(p: Tables, a: nat) {
    a > 0 && forall b :: |p(b)| == a
  }

  /** x * y by repeated addition: proofs about tables then need no products of variables. */
  function Times(x: nat, y: nat): (r: nat)
    ensures y > 0 ==> r >= x
  {
    if y == 0 then 0 else x + Times(x, y - 1)
  }

  lemma {:induction false} TimesIs(x: nat, y: nat)
    ensures Times(x, y) == x * y
  {
    if y > 0 {
      TimesIs(x, y - 1);
      assert x * y == x * (y - 1) + x;
    }
  }

  /** How many leaves a table of depth d has: a to the power d + 1. */
  function Span(a: nat, d: nat): (r: nat)
    ensures r >= a
  {
    if d == 0 then a else Times(a, Span(a, d - 1))
  }

  /** The leaves below a table of depth d with pointers cur, in order. */
  ghost function Leaves(p: Tables, d: nat, cur: seq<nat>): seq<nat>
    decreases d, 1, 0
  {
    if d == 0 then cur else LeavesUpto(p, d, cur, |cur|)
  }

  ghost function LeavesUpto(p: Tables, d: nat, cur: seq<nat>, n: nat): seq<nat>
    requires d > 0 && n <= |cur|
    decreases d, 0, n
  {
    if n == 0 then [] else LeavesUpto(p, d, cur, n - 1) + Leaves(p, d - 1, p(cur[n - 1]))
  }

  /** The position read_indirect uses in the table at each depth. */
  function CurIdx(a: nat, idx: nat, depth: nat): nat
    requires a > 0
  {
    if depth == 0 then idx % a
    else if depth == 1 then (idx / a) % a
    else (idx / Span(a, 1)) % Span(a, 1)
  }

  /** The leaf that read_indirect arrives at. */
  ghost function Walk(p: Tables, a: nat, idx: nat, cur: seq<nat>, depth: nat): nat
    requires Fan(p, a) && |cur| == a && depth <= 2 && (depth == 2 ==> idx < Span(a, 2))
    decreases depth
  {
    CurIdxBound(a, idx, depth);
    var k := CurIdx(a, idx, depth);
    if depth == 0 then cur[k] else Walk(p, a, idx, p(cur[k]), depth - 1)
  }

  // ---- Index arithmetic ----

  lemma DivBelow(i: nat, a: nat, m: nat)
    requires m > 0 && i < a * m
    ensures i / m < a
  {
    var q := i / m;
    assert i == q * m + i % m;
    if a < q {
      MulLess(a, q, m);
    }
  }

  lemma DigitBelow(idx: nat, a: nat, sq: nat)
    requires 0 < a <= sq && idx < a * sq
    ensures (idx / sq) % sq == idx / sq < a
  {
    DivBelow(idx, a, sq);
    DivModUnique(idx / sq, sq, 0, idx / sq);
  }

  lemma TopDigit(a: nat, idx: nat)
    requires a > 0 && idx < Span(a, 2)
    ensures CurIdx(a, idx, 2) == idx / Span(a, 1) < a
  {
    TimesIs(a, Span(a, 1));
    DigitBelow(idx, a, Span(a, 1));
  }

  lemma CurIdxBound(a: nat, idx: nat, depth: nat)
    requires a > 0 && depth <= 2 && (depth == 2 ==> idx < Span(a, 2))
    ensures CurIdx(a, idx, depth) < a
  {
    if depth == 2 {
      TopDigit(a, idx);
    }
  }

  lemma Regroup(hi: nat, mid: nat, lo: nat, a: nat)
    ensures (hi * a + mid) * a + lo == hi * (a * a) + (mid * a + lo)
  {
  }

  /** Of a two-digit remainder, the digits are those of the number. */
  lemma DigitsOf(i: nat, a: nat)
    requires a > 0
    ensures a * a > 0 && i % (a * a) == ((i / a) % a) * a + i % a
  {
    var lo, q := i % a, i / a;
    var mid, hi := q % a, q / a;
    assert i == q * a + lo;
    assert q == hi * a + mid;
    Regroup(hi, mid, lo, a);
    MulLess(mid, a, a);
    assert mid * a >= 0;
    DivModUnique(i, a * a, hi, mid * a + lo);
  }

  // ---- The flattened tree ----

  lemma {:induction false} LeavesLength(p: Tables, a: nat, d: nat, cur: seq<nat>)
    requires Fan(p, a) && |cur| == a
    ensures |Leaves(p, d, cur)| == Span(a, d)
    decreases d, 1, 0
  {
    if d > 0 {
      LeavesUptoLength(p, a, d, cur, a);
      TimesIs(a, Span(a, d - 1));
    }
  }

  lemma {:induction false} LeavesUptoLength(p: Tables, a: nat, d: nat, cur: seq<nat>, n: nat)
    requires Fan(p, a) && d > 0 && |cur| == a && n <= a
    ensures |LeavesUpto(p, d, cur, n)| == n * Span(a, d - 1)
    decreases d, 0, n
  {
    if n > 0 {
      var m := Span(a, d - 1);
      LeavesUptoLength(p, a, d, cur, n - 1);
      LeavesLength(p, a, d - 1, p(cur[n - 1]));
      assert n * m == (n - 1) * m + m;
    }
  }

  /** Leaf number k * m + j is leaf j below pointer k, each pointer having m leaves. */
  lemma {:induction false} LeavesUptoAt(p: Tables, a: nat, d: nat, cur: seq<nat>, n: nat, k: nat, j: nat)
    requires Fan(p, a) && d > 0 && |cur| == a && k < n <= a && j < Span(a, d - 1)
    ensures j < |Leaves(p, d - 1, p(cur[k]))|
    ensures var i := k * Span(a, d - 1) + j;
      && 0 <= i < |LeavesUpto(p, d, cur, n)|
      && LeavesUpto(p, d, cur, n)[i] == Leaves(p, d - 1, p(cur[k]))[j]
    decreases n
  {
    var m := Span(a, d - 1);
    LeavesUptoLength(p, a, d, cur, n - 1);
    LeavesLength(p, a, d - 1, p(cur[k]));
    MulNonNegative(k, m);
    if k < n - 1 {
      MulLess(k, n - 1, m);
      LeavesUptoAt(p, a, d, cur, n - 1, k, j);
    }
  }

  lemma SpanIs(a: nat)
    ensures Span(a, 0) == a && Span(a, 1) == a * a && Span(a, 2) == a * a * a
  {
    TimesIs(a, a);
    TimesIs(a, a * a);
    assert Span(a, 1) == Times(a, Span(a, 0));
    assert a * (a * a) == a * a * a;
  }

  lemma Depth1(p: Tables, a: nat, idx: nat, cur: seq<nat>)
    requires Fan(p, a) && |cur| == a
    ensures 0 <= idx % (a * a) < |Leaves(p, 1, cur)|
    ensures Walk(p, a, idx, cur, 1) == Leaves(p, 1, cur)[idx % (a * a)]
  {
    DigitsOf(idx, a);
    SpanIs(a);
    LeavesUptoAt(p, a, 1, cur, a, (idx / a) % a, idx % a);
  }

  lemma Depth2(p: Tables, a: nat, idx: nat, cur: seq<nat>)
    requires Fan(p, a) && |cur| == a && idx < Span(a, 2)
    ensures idx < |Leaves(p, 2, cur)|
    ensures Walk(p, a, idx, cur, 2) == Leaves(p, 2, cur)[idx]
  {
    var sq := a * a;
    MulNonNegative(a, a);
    SpanIs(a);
    TopDigit(a, idx);
    var k := idx / sq;
    DivIdentity(idx, sq);
    LeavesUptoAt(p, a, 2, cur, a, k, idx % sq);
    Depth1(p, a, idx, p(cur[k]));
  }

  /** At every depth the walk ends at the leaf with the given number. */
  lemma WalkFindsLeaf(p: Tables, a: nat, idx: nat, cur: seq<nat>, depth: nat)
    requires Fan(p, a) && |cur| == a && depth <= 2 && idx < Span(a, depth)
    ensures |Leaves(p, depth, cur)| == Span(a, depth)
    ensures Walk(p, a, idx, cur, depth) == Leaves(p, depth, cur)[idx]
  {
    SpanIs(a);
    LeavesLength(p, a, depth, cur);
    if depth == 0 {
      DivModUnique(idx, a, 0, idx);
    } else if depth == 1 {
      DivModUnique(idx, a * a, 0, idx);
      Depth1(p, a, idx, cur);
    } else {
      Depth2(p, a, idx, cur);
    }
  }
}
