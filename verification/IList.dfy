/** The intrusive, circular, doubly linked list: pointer fields rewritten in place. */
module IList {
  import opened Common

  class Node<K> {
    var prev: Node<K>
    var next: Node<K>
    const key: K

    /** v_ilist_init: a node on its own is an empty list. */
    constructor (key: K)
      ensures this.key == key && Ring([this])
    {
      this.key := key;
      prev, next := this, this;
      new;
      assert LinkAt([this], 0);
    }
  }

  /** The index after i, going round. */
  function Succ(n: nat, i: nat): nat {
    if i + 1 < n then i + 1 else 0
  }

  /** The index before i, going round. */
  function Pred(n: nat, i: nat): int {
    if i == 0 then n - 1 else i - 1
  }

  /** prev and next are mutually inverse between c[i] and the node after it. */
  ghost predicate LinkAt<K>(c: seq<Node<K>>, i: nat)
    reads c
  {
    i < |c| && c[i].next == c[Succ(|c|, i)] && c[Succ(|c|, i)].prev == c[i]
  }

  /** c lists the nodes of one circle, each once, in the order of the next pointers. */
  ghost predicate Ring<K>(c: seq<Node<K>>)
    reads c
  {
    && c != [] && Distinct(c)
    && forall i: nat {:trigger LinkAt(c, i)} :: i < |c| ==> LinkAt(c, i)
  }

  /** The pointers fix the order: from a given node, only one sequence is the circle. */
  lemma RingUnique<K>(c: seq<Node<K>>, d: seq<Node<K>>)
    requires Ring(c) && Ring(d) && c[0] == d[0]
    ensures c == d
  {
    SamePrefix(c, d, |c| - 1);
    SamePrefix(d, c, |d| - 1);
    assert LinkAt(c, |c| - 1) && LinkAt(d, |d| - 1);
  }

  lemma {:induction false} SamePrefix<K>(c: seq<Node<K>>, d: seq<Node<K>>, n: nat)
    requires Ring(c) && Ring(d) && c[0] == d[0] && n < |c|
    ensures forall k :: 0 <= k <= n && k < |d| ==> c[k] == d[k]
  {
    if n > 0 {
      SamePrefix(c, d, n - 1);
      if n < |d| {
        assert LinkAt(c, n - 1) && LinkAt(d, n - 1);
      }
    }
  }

  /** Insertion right behind position i. */
  ghost function Inserted<K>(c: seq<Node<K>>, i: nat, node: Node<K>): seq<Node<K>>
    requires i < |c|
  {
    c[..i + 1] + [node] + c[i + 1..]
  }

  lemma InsertedAt<K>(c: seq<Node<K>>, i: nat, node: Node<K>)
    requires i < |c| && Distinct(c) && node !in c
    ensures var r := Inserted(c, i, node);
      && |r| == |c| + 1 && Distinct(r) && r[i + 1] == node
      && (forall j :: 0 <= j <= i ==> r[j] == c[j])
      && (forall j :: i + 1 < j < |r| ==> r[j] == c[j - 1])
  {
  }

  /** V__ILIST_LINK between c[i] and its successor; a node alone may be linked behind itself. */
  method Link<K>(node: Node<K>, prev: Node<K>, next: Node<K>, ghost c: seq<Node<K>>, ghost i: nat)
    requires Ring(c) && i < |c| && prev == c[i] && next == c[Succ(|c|, i)] && (node !in c || c == [node])
    modifies prev`next, next`prev, node
    ensures Ring(if c == [node] then c else Inserted(c, i, node))
  {
    prev.next := node;
    node.prev := prev;
    next.prev := node;
    node.next := next;
    if c == [node] {
      assert LinkAt(c, 0);
    } else {
      InsertedAt(c, i, node);
      ghost var r := Inserted(c, i, node);
      assert LinkAt(r, i) && LinkAt(r, i + 1);
      forall j: nat | j < |r| && j != i && j != i + 1
        ensures LinkAt(r, j)
      {
        var k := if j < i then j else j - 1;
        assert old(LinkAt(c, k));
        assert c[k] != prev && c[Succ(|c|, k)] != next;
      }
    }
  }

  /** v_ilist_append: behind prev. */
  method Append<K>(node: Node<K>, prev: Node<K>, ghost c: seq<Node<K>>, ghost i: nat)
    requires Ring(c) && i < |c| && prev == c[i] && (node !in c || c == [node])
    modifies c, node
    ensures Ring(if c == [node] then c else Inserted(c, i, node))
  {
    assert LinkAt(c, i);
    var next := prev.next;
    Link(node, prev, next, c, i);
  }

  /** v_ilist_prepend: in front of c[i]; in front of the head c[0] is the end of the list. */
  method Prepend<K>(node: Node<K>, next: Node<K>, ghost c: seq<Node<K>>, ghost i: nat)
    requires Ring(c) && i < |c| && next == c[i] && node !in c
    modifies c, node
    ensures Ring(Inserted(c, Pred(|c|, i), node))
  {
    assert LinkAt(c, Pred(|c|, i));
    var prev := next.prev;
    Link(node, prev, next, c, Pred(|c|, i));
  }

  ghost function Removed<K>(c: seq<Node<K>>, i: nat): seq<Node<K>>
    requires i < |c|
  {
    c[..i] + c[i + 1..]
  }

  lemma RemovedAt<K>(c: seq<Node<K>>, i: nat)
    requires i < |c| && Distinct(c)
    ensures var r := Removed(c, i);
      && |r| == |c| - 1 && Distinct(r) && c[i] !in r
      && (forall j :: 0 <= j < i ==> r[j] == c[j])
      && (forall j :: i <= j < |r| ==> r[j] == c[j + 1])
  {
  }

  /** v_ilist_remove: the rest closes up, and the node is a list of its own. */
  method Remove<K>(node: Node?<K>, ghost c: seq<Node<K>>, ghost i: nat)
    requires Ring(c) && i < |c| && (node == null || node == c[i])
    modifies c
    ensures node == null ==> Ring(c)
    ensures node != null ==> Ring([node]) && (|c| > 1 ==> Ring(Removed(c, i)))
  {
    if node == null {
      return;
    }
    ghost var p := Pred(|c|, i);
    assert LinkAt(c, p) && LinkAt(c, i);
    var prev, next := node.prev, node.next;
    prev.next := next;
    next.prev := prev;
    node.prev, node.next := node, node;
    assert LinkAt([node], 0);
    ghost var r := Removed(c, i);
    RemovedAt(c, i);
    forall j: nat | j < |r|
      ensures LinkAt(r, j)
    {
      var k := if j < i then j else j + 1;
      assert old(LinkAt(c, k));
    }
  }

  /** v_ilist_replace: new_ takes the place of old_, whose own fields are left as they were. */
  method Replace<K>(old_: Node<K>, new_: Node<K>, ghost c: seq<Node<K>>, ghost i: nat)
    requires Ring(c) && i < |c| && old_ == c[i] && (new_ == old_ || new_ !in c)
    modifies c, new_
    ensures Ring(c[i := new_])
    ensures |c| > 1 ==> old_.next == old(old_.next) && old_.prev == old(old_.prev)
  {
    ghost var p := Pred(|c|, i);
    assert LinkAt(c, p) && LinkAt(c, i);
    new_.next := old_.next;
    new_.next.prev := new_;
    new_.prev := old_.prev;
    new_.prev.next := new_;
    ghost var r := c[i := new_];
    forall j: nat | j < |r|
      ensures LinkAt(r, j)
    {
      assert old(LinkAt(c, j));
    }
  }

  /** A circle may be listed from its last node. */
  lemma Rotated<K>(s: seq<Node<K>>, x: Node<K>)
    requires Ring(s + [x])
    ensures Ring([x] + s)
  {
    var c, r := s + [x], [x] + s;
    assert forall i :: 0 <= i < |s| ==> c[i] == s[i];
    assert c[|s|] == x;
    forall j: nat | j < |r|
      ensures LinkAt(r, j)
    {
      assert LinkAt(c, Pred(|c|, j));
    }
  }

  ghost function Swapped<K>(c: seq<Node<K>>, i: nat, j: nat): seq<Node<K>>
    requires i < |c| && j < |c|
  {
    c[i := c[j]][j := c[i]]
  }

  /** The circle without b, once b has taken the place of a; a node alone is its own list throughout. */
  ghost function Taken<K>(c: seq<Node<K>>, i: nat, j: nat): seq<Node<K>>
    requires i < |c| && j < |c|
  {
    if |c| == 1 then c else Base(c, i, j)
  }

  /** The first half of v_ilist_swap: b is taken out and put in the place of a. */
  method TakeOver<K>(a: Node<K>, b: Node<K>, ghost c: seq<Node<K>>, ghost i: nat, ghost j: nat)
    requires Ring(c) && i < |c| && j < |c| && a == c[i] && b == c[j]
    modifies c
    ensures Ring(Taken(c, i, j))
  {
    Remove(b, c, j);
    if |c| > 1 {
      BaseAt(c, i, j);
    }
    ghost var ring := if i == j then [a] else Removed(c, j);
    Replace(a, b, ring, if i == j then 0 else if i < j then i else i - 1);
    assert i == j ==> ring[0 := b] == ring;
    assert |c| == 1 ==> c == [a];
  }

  /** The second half: a goes where b was, behind spot or whatever took its place. */
  method PutBehind<K>(a: Node<K>, b: Node<K>, spot: Node<K>, ghost c: seq<Node<K>>, ghost i: nat, ghost j: nat)
    requires i < |c| && j < |c| && Distinct(c) && Ring(Taken(c, i, j))
    requires a == c[i] && b == c[j] && spot == c[Pred(|c|, j)]
    modifies c
    ensures Ring(Swapped(c, i, j))
  {
    var prev := if spot == a then b else spot;
    ghost var at := if |c| == 1 then 0 else if j == 0 then |c| - 2 else j - 1;
    if |c| == 1 {
      assert c == [a] == Swapped(c, i, j);
    } else {
      BaseAt(c, i, j);
    }
    Append(a, prev, Taken(c, i, j), at);
    if |c| > 1 {
      SwapDone(c, i, j, at);
    }
  }

  /** v_ilist_swap: the two nodes change places, adjacent in either order or not, or the same. */
  method Swap<K>(a: Node<K>, b: Node<K>, ghost c: seq<Node<K>>, ghost i: nat, ghost j: nat)
    requires Ring(c) && i < |c| && j < |c| && a == c[i] && b == c[j]
    modifies c
    ensures Ring(Swapped(c, i, j))
  {
    assert LinkAt(c, Pred(|c|, j));
    var spot := b.prev;
    TakeOver(a, b, c, i, j);
    PutBehind(a, b, spot, c, i, j);
  }

  lemma SwapDone<K>(c: seq<Node<K>>, i: nat, j: nat, at: nat)
    requires |c| > 1 && i < |c| && j < |c| && at == if j == 0 then |c| - 2 else j - 1
    requires Ring(Inserted(Base(c, i, j), at, c[i]))
    ensures Ring(Swapped(c, i, j))
  {
    if j == 0 {
      SwapFront(c, i);
      Rotated(Base(c, i, j), c[i]);
    } else {
      SwapBehind(c, i, j);
    }
  }

  /** Where the other nodes lie once b is out, and once b has replaced a. */
  lemma BaseIndex<K>(c: seq<Node<K>>, i: nat, j: nat, t: nat)
    requires Distinct(c) && i < |c| && j < |c| && t < |c| - 1
    ensures var u := if t < j then t else t + 1;
      && |Base(c, i, j)| == |Removed(c, j)| == |c| - 1
      && Removed(c, j)[t] == c[u]
      && Base(c, i, j)[t] == if i != j && u == i then c[j] else c[u]
  {
    RemovedAt(c, j);
  }

  lemma BaseAt<K>(c: seq<Node<K>>, i: nat, j: nat)
    requires Distinct(c) && |c| > 1 && i < |c| && j < |c|
    ensures var rest, base := Removed(c, j), Base(c, i, j);
      && |base| == |rest| == |c| - 1 && c[j] !in rest && c[i] !in base
      && (forall x :: x in rest || x in base ==> x in c)
      && (i != j ==> rest[if i < j then i else i - 1] == c[i])
      && base[if j == 0 then |c| - 2 else j - 1] ==
         if i != j && c[Pred(|c|, j)] == c[i] then c[j] else c[Pred(|c|, j)]
  {
    var rest, base := Removed(c, j), Base(c, i, j);
    BaseIndex(c, i, j, 0);
    forall x | x in rest
      ensures x in c && x != c[j]
    {
      var t :| 0 <= t < |rest| && rest[t] == x;
      BaseIndex(c, i, j, t);
    }
    forall x | x in base
      ensures x in c && x != c[i]
    {
      var t :| 0 <= t < |base| && base[t] == x;
      BaseIndex(c, i, j, t);
    }
    if i != j {
      BaseIndex(c, i, j, if i < j then i else i - 1);
    }
    BaseIndex(c, i, j, if j == 0 then |c| - 2 else j - 1);
  }

  ghost function Base<K>(c: seq<Node<K>>, i: nat, j: nat): seq<Node<K>>
    requires i < |c| && j < |c|
  {
    if i == j then Removed(c, j) else Removed(c, j)[(if i < j then i else i - 1) := c[j]]
  }

  lemma UpdateFront<T>(c: seq<T>, i: nat, x: T, y: T)
    requires i < |c|
    ensures c[i := x][0 := y] == [y] + if i == 0 then c[1..] else c[1..][i - 1 := x]
  {
    if i > 0 {
      assert c[i := x][0 := y][1..] == c[1..][i - 1 := x];
    }
  }

  lemma SwapFront<K>(c: seq<Node<K>>, i: nat)
    requires |c| > 1 && i < |c|
    ensures Inserted(Base(c, i, 0), |c| - 2, c[i]) == Base(c, i, 0) + [c[i]]
    ensures [c[i]] + Base(c, i, 0) == Swapped(c, i, 0)
  {
    assert Removed(c, 0) == c[1..];
    var b := Base(c, i, 0);
    assert b[..|b|] == b && b[|b|..] == [];
    UpdateFront(c, i, c[0], c[i]);
  }

  lemma SwapBehind<K>(c: seq<Node<K>>, i: nat, j: nat)
    requires i < |c| && 0 < j < |c|
    ensures Inserted(Base(c, i, j), j - 1, c[i]) == Swapped(c, i, j)
  {
    var b := Base(c, i, j);
    assert b[..j] == Swapped(c, i, j)[..j];
    assert b[j..] == Swapped(c, i, j)[j + 1..];
    assert Swapped(c, i, j)[j] == c[i];
  }

  /** What v_ilist_insert needs of its comparator: -1, 0 or 1, and a total preorder. */
  ghost predicate Consistent<K(!new)>(compare: (K, K) -> int) {
    && (forall x, y :: -1 <= compare(x, y) <= 1 && compare(x, y) == -compare(y, x))
    && (forall x, y, z :: compare(x, y) <= 0 && compare(y, z) <= 0 ==> compare(x, z) <= 0)
  }

  /** The elements, behind the head c[0], never decrease. */
  ghost predicate Sorted<K>(c: seq<Node<K>>, compare: (K, K) -> int) {
    forall i, j :: 0 < i < j < |c| ==> compare(c[i].key, c[j].key) <= 0
  }

  lemma InsertedSorted<K(!new)>(c: seq<Node<K>>, compare: (K, K) -> int, k: nat, node: Node<K>)
    requires Consistent(compare) && Sorted(c, compare)
    requires Distinct(c) && node !in c && k < |c|
    requires k > 0 ==> compare(node.key, c[k].key) == 1
    requires k + 1 < |c| ==> compare(node.key, c[k + 1].key) <= 0
    ensures Sorted(Inserted(c, k, node), compare)
    ensures forall i :: 0 < i < |c| ==> (compare(node.key, c[i].key) == 1 <==> i <= k)
  {
    InsertedAt(c, k, node);
    forall i | 0 < i < |c|
      ensures compare(node.key, c[i].key) == 1 <==> i <= k
    {
      if i <= k {
        assert compare(c[k].key, node.key) == -1;
        assert compare(c[i].key, c[k].key) <= 0 || i == k;
      } else {
        assert compare(c[k + 1].key, c[i].key) <= 0 || i == k + 1;
      }
    }
  }

  /** The scan of v_ilist_insert: past every smaller element. */
  method Scan<K>(node: Node<K>, list: Node<K>, compare: (K, K) -> int, ghost c: seq<Node<K>>)
    returns (pos: Node<K>, res: int, ghost k: nat)
    requires Ring(c) && list == c[0]
    requires forall i :: 0 < i < |c| ==> -1 <= compare(node.key, c[i].key) <= 1
    ensures k < |c| && pos == c[Succ(|c|, k)]
    ensures forall i :: 0 < i <= k ==> compare(node.key, c[i].key) == 1
    ensures k + 1 < |c| ==> compare(node.key, c[k + 1].key) <= 0
    ensures res == if |c| > 1 && k + 1 == |c| then 1 else 0
  {
    res, k := 0, 0;
    var resPrev := 1;
    assert LinkAt(c, 0);
    pos := list.next;
    while pos != list
      invariant k < |c| && pos == c[Succ(|c|, k)]
      invariant resPrev == 1 && res == if k == 0 then 0 else 1
      invariant forall i :: 0 < i <= k ==> compare(node.key, c[i].key) == 1
      decreases |c| - k
    {
      assert pos == c[k + 1];
      res := compare(node.key, pos.key);
      if res == 0 || resPrev != res {
        res := if resPrev == res then 1 else 0;
        break;
      }
      resPrev := res;
      k := k + 1;
      assert LinkAt(c, k);
      pos := pos.next;
    }
  }

  /**
   * v_ilist_insert: in front of the first element that is not smaller; at is the neighbour it
   * returns. The branch that adds to the beginning is dead: the scan never ends with -1.
   */
  method Insert<K(!new)>(node: Node<K>, list: Node<K>, compare: (K, K) -> int, ghost c: seq<Node<K>>)
    returns (at: Node?<K>, ghost k: nat)
    requires Ring(c) && list == c[0] && node !in c
    requires Consistent(compare) && Sorted(c, compare)
    modifies c, node
    ensures k < |c| && Ring(Inserted(c, k, node)) && Sorted(Inserted(c, k, node), compare)
    ensures forall i :: 0 < i < |c| ==> (compare(node.key, c[i].key) == 1 <==> i <= k)
    ensures at == if |c| == 1 then null else if k + 1 < |c| then c[k + 1] else c[k]
  {
    var pos, res;
    pos, res, k := Scan(node, list, compare, c);
    InsertedSorted(c, compare, k, node);
    if res == 0 {
      Prepend(node, pos, c, Succ(|c|, k));
      at := if pos == list then null else pos;
    } else {
      assert LinkAt(c, |c| - 1);
      Append(node, list.prev, c, |c| - 1);
      InsertedAt(c, k, node);
      assert LinkAt(Inserted(c, k, node), k);
      at := node.prev;
    }
  }
}
