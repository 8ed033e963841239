/**
 Which cylinders stay resident: without purges, a cylinder is cached exactly when fewer
 than 16 other cylinders have been requested since it was last requested.
 */
module FloppyLru {
  import opened Common
  import opened FloppyCache
  import opened Machine

  /** The cylinder numbers in list order; -1 for entries that hold none. */
  function Nums(es: seq<Entry>): (ns: seq<int>)
    ensures |ns| == |es| && forall i :: 0 <= i < |es| ==> ns[i] == es[i].num
  {
    seq(|es|, i requires 0 <= i < |es| => es[i].num)
  }

  function TouchNums(ns: seq<int>, c: int): seq<int>
    requires ns != []
  {
    if c in ns then Without(ns, c) + [c] else ns[1..] + [c]
  }

  /** The numbers after the requests h on a new cache. */
  function Replay(h: seq<nat>): (ns: seq<int>)
    ensures |ns| == CYLINDER_CACHE_CYLS
  {
    if h == [] then Nums(FreshCache()) else TouchNums(Replay(h[..|h| - 1]), h[|h| - 1])
  }

  // ---- Lists of numbers ----

  lemma {:induction false} WithoutAt(s: seq<int>, x: int, i: nat)
    requires i < |s| && s[i] == x && forall j :: 0 <= j < i ==> s[j] != x
    ensures Without(s, x) == s[..i] + s[i + 1..]
  {
    if i > 0 {
      WithoutAt(s[1..], x, i - 1);
      assert s[1..][..i - 1] == s[1..i] && s[1..][i..] == s[i + 1..];
      assert [s[0]] + s[1..i] == s[..i];
    }
  }

  lemma {:induction false} WithoutLater(s: seq<int>, t: seq<int>, x: int)
    requires x !in s
    ensures Without(s + t, x) == s + Without(t, x)
  {
    if s == [] {
      assert s + t == t;
    } else {
      assert (s + t)[1..] == s[1..] + t;
      WithoutLater(s[1..], t, x);
      assert s + Without(t, x) == [s[0]] + (s[1..] + Without(t, x));
    }
  }

  lemma {:induction false} WithoutEarlier(s: seq<int>, t: seq<int>, x: int)
    requires x in s
    ensures Without(s + t, x) == Without(s, x) + t
  {
    assert (s + t)[1..] == s[1..] + t;
    if s[0] != x {
      WithoutEarlier(s[1..], t, x);
      assert Without(s, x) + t == [s[0]] + (Without(s[1..], x) + t);
    }
  }

  lemma NumsToEnd(es: seq<Entry>, i: nat)
    requires i < |es|
    ensures Nums(ToEnd(es, i)) == Nums(es)[..i] + Nums(es)[i + 1..] + [es[i].num]
  {
    assert Nums(es[..i]) == Nums(es)[..i];
    assert Nums(es[i + 1..]) == Nums(es)[i + 1..];
    NumsConcat(es[..i], es[i + 1..]);
    NumsConcat(es[..i] + es[i + 1..], [es[i]]);
    assert Nums([es[i]]) == [es[i].num];
  }

  lemma NumsConcat(a: seq<Entry>, b: seq<Entry>)
    ensures Nums(a + b) == Nums(a) + Nums(b)
  {
  }

  /** The entry found is the only one with the number, and none is found only if there is none. */
  lemma FindIs(d: Disk, es: seq<Entry>, c: nat)
    requires DiskOk(d) && CacheOk(d, es)
    ensures var i := Find(es, c);
      && (i >= 0 <==> c as int in Nums(es))
      && (i >= 0 ==> Nums(es)[i] == c && forall j :: 0 <= j < i ==> Nums(es)[j] != c)
  {
    assert forall j :: 0 <= j < |es| ==> EntryOk(d, es[j]);
  }

  /** What a read of cylinder c does to the numbers. */
  lemma TouchIsTouchNums(d: Disk, es: seq<Entry>, c: nat, data: seq<Byte>)
    requires DiskOk(d) && CacheOk(d, es)
    ensures Nums(Touch(es, c, data)) == TouchNums(Nums(es), c)
  {
    FindIs(d, es, c);
    var i := Find(es, c);
    if i >= 0 {
      WithoutAt(Nums(es), c, i);
      NumsToEnd(es, i);
    } else {
      NumsConcat(es[1..], [Entry(c, Held(data))]);
      assert Nums(es[1..]) == Nums(es)[1..];
    }
  }

  /** So a drive's list follows the requests made of it. */
  lemma CacheFollowsRequests(d: Disk, es: seq<Entry>, h: seq<nat>, c: nat, data: seq<Byte>)
    requires DiskOk(d) && (es == [] || CacheOk(d, es)) && Nums(Opened(es)) == Replay(h)
    ensures Nums(Touch(Opened(es), c, data)) == Replay(h + [c])
  {
    assert CacheOk(d, Opened(es));
    TouchIsTouchNums(d, Opened(es), c, data);
    assert (h + [c])[..|h|] == h;
  }

  // ---- Order of last use ----

  /** The distinct cylinders of h, the most recently requested last. */
  ghost function LastUse(h: seq<nat>): seq<int> {
    if h == [] then [] else Without(LastUse(h[..|h| - 1]), h[|h| - 1]) + [h[|h| - 1]]
  }

  /** Position of the last request of x in h, or -1. */
  ghost function LastIndex(h: seq<nat>, x: int): (i: int)
    ensures -1 <= i < |h| && (i >= 0 ==> h[i] == x) && forall j :: i < j < |h| ==> h[j] != x
  {
    if h == [] then -1 else if h[|h| - 1] == x then |h| - 1 else LastIndex(h[..|h| - 1], x)
  }

  /** The cylinders requested after the last request of x. */
  ghost function After(h: seq<nat>, x: int): set<int> {
    set j | LastIndex(h, x) < j < |h| :: h[j] as int
  }

  lemma {:induction false} LastUseElems(h: seq<nat>)
    ensures Distinct(LastUse(h)) && forall x: int :: x in LastUse(h) <==> x >= 0 && x in h
  {
    if h != [] {
      var h0, c: int := h[..|h| - 1], h[|h| - 1];
      LastUseElems(h0);
      WithoutElems(LastUse(h0), c);
      assert h == h0 + [h[|h| - 1]];
      assert forall x: int :: x >= 0 ==> (x in h <==> x in h0 || x == c);
    }
  }

  lemma AfterStep(h: seq<nat>, c: nat, x: int)
    requires x != c
    ensures After(h + [c], x) == After(h, x) + {c as int}
  {
    var g := h + [c];
    assert g[..|h|] == h;
    assert LastIndex(g, x) == LastIndex(h, x);
    assert c as int in After(g, x) by { assert g[|h|] == c; }
    forall y | y in After(h, x)
      ensures y in After(g, x)
    {
      var j :| LastIndex(h, x) < j < |h| && h[j] as int == y;
      assert g[j] == h[j];
    }
  }

  /** In the order of last use, what comes behind x is what was requested after x. */
  lemma {:induction false} BehindIsAfter(h: seq<nat>, p: nat)
    requires p < |LastUse(h)|
    ensures Elems(LastUse(h)[p + 1..]) == After(h, LastUse(h)[p])
  {
    var h0, c := h[..|h| - 1], h[|h| - 1];
    var l0, l := LastUse(h0), LastUse(h);
    assert h == h0 + [c];
    var x := l[p];
    LastUseElems(h0);
    WithoutElems(l0, c);
    if p == |l| - 1 {
      assert After(h, x) == {};
    } else {
      assert x == Without(l0, c)[p] && x != c;
      var q := BehindWithout(l0, c, p);
      BehindIsAfter(h0, q);
      AfterStep(h0, c, x);
      assert l[p + 1..] == Without(l0, c)[p + 1..] + [c as int];
    }
  }

  lemma ElemsConcat(s: seq<int>, t: seq<int>)
    ensures Elems(s + t) == Elems(s) + Elems(t)
  {
  }

  /** Cutting out position i leaves everything else that was from k on. */
  lemma CutOut(s: seq<int>, i: nat, k: nat)
    requires k <= i < |s|
    ensures Elems((s[..i] + s[i + 1..])[k..]) + {s[i]} == Elems(s[k..]) + {s[i]}
  {
    var before, behind := s[k..i], s[i + 1..];
    assert (s[..i] + behind)[k..] == before + behind;
    assert s[k..] == before + [s[i]] + behind;
    ElemsConcat(before, behind);
    ElemsConcat(before, [s[i]]);
    ElemsConcat(before + [s[i]], behind);
    assert Elems([s[i]]) == {s[i]};
  }

  /** Removing c elsewhere changes what is behind position p by c at most. */
  lemma BehindWithout(s: seq<int>, c: int, p: nat) returns (q: nat)
    requires Distinct(s) && p < |Without(s, c)| && Without(s, c)[p] != c
    ensures q < |s| && s[q] == Without(s, c)[p]
    ensures Elems(Without(s, c)[p + 1..]) + {c} == Elems(s[q + 1..]) + {c}
  {
    q := p;
    if c in s {
      var i :| 0 <= i < |s| && s[i] == c;
      WithoutAt(s, c, i);
      if p < i {
        CutOut(s, i, p + 1);
      } else {
        q := p + 1;
        assert (s[..i] + s[i + 1..])[p + 1..] == s[q + 1..];
      }
    }
  }

  // ---- The cache is the tail of that order ----

  /** The last 16 elements, with -1 in front where there are fewer. */
  ghost function Tail(l: seq<int>): (r: seq<int>)
    ensures |r| == CYLINDER_CACHE_CYLS
  {
    if |l| >= CYLINDER_CACHE_CYLS then l[|l| - CYLINDER_CACHE_CYLS..]
    else Pad(CYLINDER_CACHE_CYLS - |l|) + l
  }

  /** The last elements of a longer list. */
  lemma LastOf(s: seq<int>, t: seq<int>, c: int)
    requires |t| + 1 >= CYLINDER_CACHE_CYLS
    ensures Tail(s + t + [c]) == t[|t| + 1 - CYLINDER_CACHE_CYLS..] + [c]
  {
  }

  lemma TailTouchFull(l: seq<int>, c: int)
    requires Distinct(l) && |l| >= CYLINDER_CACHE_CYLS
    ensures TouchNums(Tail(l), c) == Tail(Without(l, c) + [c])
  {
    var n := |l| - CYLINDER_CACHE_CYLS;
    var old_, tail := l[..n], l[n..];
    assert l == old_ + tail && Tail(l) == tail;
    if c in old_ {
      WithoutEarlier(old_, tail, c);
      Apart(old_, tail, c);
      LastOf(Without(old_, c), tail, c);
    } else {
      WithoutLater(old_, tail, c);
      LastOf(old_, Without(tail, c), c);
    }
  }

  lemma Apart(s: seq<int>, t: seq<int>, c: int)
    requires Distinct(s + t) && c in s
    ensures c !in t
  {
    var i :| 0 <= i < |s| && s[i] == c;
    assert (s + t)[i] == c;
    assert forall j :: 0 <= j < |t| ==> t[j] == (s + t)[|s| + j];
  }

  ghost function Pad(n: nat): (s: seq<int>)
    ensures |s| == n && forall i :: 0 <= i < n ==> s[i] == -1
  {
    seq(n, _ => -1)
  }

  lemma PaddedHit(pad: seq<int>, l: seq<int>, c: int)
    requires c !in pad && c in l
    ensures c in pad + l && Without(pad + l, c) + [c] == pad + (Without(l, c) + [c])
  {
    WithoutLater(pad, l, c);
    assert pad + Without(l, c) + [c] == pad + (Without(l, c) + [c]);
  }

  lemma ShortHit(l: seq<int>, c: int)
    requires c >= 0 && |l| < CYLINDER_CACHE_CYLS && c in l
    ensures TouchNums(Tail(l), c) == Tail(Without(l, c) + [c])
  {
    PaddedHit(Pad(CYLINDER_CACHE_CYLS - |l|), l, c);
  }

  lemma PadShift(n: nat, l: seq<int>, c: int)
    requires n > 0
    ensures (Pad(n) + l)[1..] + [c] == Pad(n - 1) + (l + [c])
  {
    assert (Pad(n) + l)[1..] == Pad(n - 1) + l;
    assert Pad(n - 1) + l + [c] == Pad(n - 1) + (l + [c]);
  }

  lemma ShortMiss(l: seq<int>, c: int)
    requires c >= 0 && |l| < CYLINDER_CACHE_CYLS && c !in l
    ensures TouchNums(Tail(l), c) == Tail(l + [c])
  {
    var n := CYLINDER_CACHE_CYLS - |l|;
    assert c !in Pad(n) + l;
    PadShift(n, l, c);
    if n == 1 {
      assert Pad(0) + (l + [c]) == l + [c];
    }
  }

  lemma TailTouch(l: seq<int>, c: int)
    requires Distinct(l) && c >= 0
    ensures TouchNums(Tail(l), c) == Tail(Without(l, c) + [c])
  {
    if |l| >= CYLINDER_CACHE_CYLS {
      TailTouchFull(l, c);
    } else if c in l {
      ShortHit(l, c);
    } else {
      ShortMiss(l, c);
    }
  }

  lemma {:induction false} ReplayIsTail(h: seq<nat>)
    ensures Replay(h) == Tail(LastUse(h))
  {
    if h != [] {
      var h0, c := h[..|h| - 1], h[|h| - 1];
      ReplayIsTail(h0);
      LastUseElems(h0);
      TailTouch(LastUse(h0), c);
    }
  }

  /** x is among the numbers after the requests h exactly when it has been requested, and fewer
      than 16 different cylinders have been requested since. */
  lemma ReplayHasIff(h: seq<nat>, x: nat)
    ensures (x as int) in Replay(h) <==> x in h && |After(h, x)| < CYLINDER_CACHE_CYLS
  {
    var l := LastUse(h);
    ReplayIsTail(h);
    LastUseElems(h);
    if (x as int) in l {
      var p :| 0 <= p < |l| && l[p] == x;
      BehindIsAfter(h, p);
      assert Distinct(l[p + 1..]);
      DistinctCardinality(l[p + 1..]);
      TailHas(l, p);
    }
  }

  lemma TailHas(l: seq<int>, p: nat)
    requires Distinct(l) && p < |l| && l[p] >= 0
    ensures l[p] in Tail(l) <==> |l| - p - 1 < CYLINDER_CACHE_CYLS
  {
    var n := CYLINDER_CACHE_CYLS;
    if |l| >= n {
      if p >= |l| - n {
        assert Tail(l)[p - (|l| - n)] == l[p];
      }
    } else {
      assert Tail(l)[n - |l| + p] == l[p];
    }
  }

  // ---- Runs over any number of drives ----

  datatype Request = Request(drv: nat, cyl: nat)

  ghost predicate InRange(disks: seq<Disk>, reqs: seq<Request>) {
    && (forall n :: 0 <= n < |disks| ==> DiskOk(disks[n]))
    && forall k :: 0 <= k < |reqs| ==> reqs[k].drv < |disks| && reqs[k].cyl < disks[reqs[k].drv].format.cyls
  }

  /** The lists of all drives after the requests, none purged: each request does what CylCacheRead promises. */
  ghost function CachesAfter(disks: seq<Disk>, reqs: seq<Request>): (caches: seq<seq<Entry>>)
    requires InRange(disks, reqs)
    ensures |caches| == |disks|
  {
    if reqs == [] then seq(|disks|, _ => [])
    else
      var prev, r := CachesAfter(disks, reqs[..|reqs| - 1]), reqs[|reqs| - 1];
      prev[r.drv := Touch(Opened(prev[r.drv]), r.cyl, Cylinder(disks[r.drv], r.cyl))]
  }

  /** What was requested of one drive. */
  ghost function Of(reqs: seq<Request>, drv: nat): seq<nat> {
    if reqs == [] then []
    else
      var r := reqs[|reqs| - 1];
      Of(reqs[..|reqs| - 1], drv) + if r.drv == drv then [r.cyl] else []
  }

  /** Every drive's list stays right, and its numbers follow the requests made of it alone. */
  lemma {:induction false} CachesFollow(disks: seq<Disk>, reqs: seq<Request>, drv: nat)
    requires InRange(disks, reqs) && drv < |disks|
    ensures var es := CachesAfter(disks, reqs)[drv];
      (es == [] || CacheOk(disks[drv], es)) && Nums(Opened(es)) == Replay(Of(reqs, drv))
    decreases |reqs|
  {
    if reqs != [] {
      var before, r := reqs[..|reqs| - 1], reqs[|reqs| - 1];
      assert InRange(disks, before);
      CachesFollow(disks, before, drv);
      var es, data := CachesAfter(disks, before)[drv], Cylinder(disks[r.drv], r.cyl);
      if r.drv == drv {
        assert CacheOk(disks[drv], Opened(es));
        TouchKeeps(disks[drv], Opened(es), r.cyl);
        CacheFollowsRequests(disks[drv], es, Of(before, drv), r.cyl, data);
      } else {
        assert Of(reqs, drv) == Of(before, drv);
      }
    }
  }

  /** Some entry of the list holds cylinder x. */
  ghost predicate Resident(d: Disk, es: seq<Entry>, x: nat)
    requires DiskOk(d) && x < d.format.cyls
  {
    exists j :: 0 <= j < |es| && es[j] == Entry(x, Held(Cylinder(d, x)))
  }

  /**
   Without purges, and whatever is read on the other drives in between, the cylinders resident in
   a drive's cache are exactly the 16 most recently requested distinct ones: x is resident exactly
   when it has been requested and fewer than 16 different cylinders have been requested since.
   */
  lemma ResidentIff(disks: seq<Disk>, reqs: seq<Request>, drv: nat, x: nat)
    requires InRange(disks, reqs) && drv < |disks| && x < disks[drv].format.cyls
    ensures Resident(disks[drv], CachesAfter(disks, reqs)[drv], x) <==>
              x in Of(reqs, drv) && |After(Of(reqs, drv), x)| < CYLINDER_CACHE_CYLS
  {
    var d, es, h := disks[drv], CachesAfter(disks, reqs)[drv], Of(reqs, drv);
    CachesFollow(disks, reqs, drv);
    ReplayHasIff(h, x);
    ResidentByNumber(d, es, x);
  }

  lemma ResidentByNumber(d: Disk, es: seq<Entry>, x: nat)
    requires DiskOk(d) && x < d.format.cyls && (es == [] || CacheOk(d, es))
    ensures Resident(d, es, x) <==> (x as int) in Nums(Opened(es))
  {
    if (x as int) in Nums(Opened(es)) {
      var j :| 0 <= j < |Opened(es)| && Nums(Opened(es))[j] == x;
      assert EntryOk(d, es[j]);
    }
  }
}
