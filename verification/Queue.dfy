/** The intrusive circular queue of src/core/ngx_queue.[ch]: ring links, stable sort and midpoint. */
module Queue {

  type Comparator = (Node, Node) -> int

  class Node {
    var prev: Node
    var next: Node

    /** ngx_queue_init */
    constructor ()
      ensures Ring(this, [])
    {
      prev, next := this, this;
    }
  }

  ghost function After(h: Node, s: seq<Node>, i: int): Node
    requires -1 <= i < |s|
  {
    if i + 1 < |s| then s[i + 1] else h
  }

  ghost function Before(h: Node, s: seq<Node>, i: int): Node
    requires 0 <= i <= |s|
  {
    if i > 0 then s[i - 1] else h
  }

  ghost predicate Distinct(s: seq<Node>) {
    forall i, j :: 0 <= i < j < |s| ==> s[i] != s[j]
  }

  /** The links starting at the head h form a ring through exactly the nodes of s, in order. */
  ghost predicate Ring(h: Node, s: seq<Node>)
    reads h, s
  {
    && h !in s && Distinct(s)
    && h.next == After(h, s, -1) && h.prev == Before(h, s, |s|)
    && (forall i {:trigger s[i].next} :: 0 <= i < |s| ==> s[i].next == After(h, s, i))
    && (forall i {:trigger s[i].prev} :: 0 <= i < |s| ==> s[i].prev == Before(h, s, i))
  }

  function Without(s: seq<Node>, k: int): seq<Node>
    requires 0 <= k < |s|
  {
    s[..k] + s[k + 1..]
  }

  function With(s: seq<Node>, k: int, x: Node): seq<Node>
    requires 0 <= k <= |s|
  {
    s[..k] + [x] + s[k..]
  }

  /** ngx_queue_remove */
  method Remove(x: Node, ghost h: Node, ghost s: seq<Node>, ghost k: int)
    requires Ring(h, s) && 0 <= k < |s| && s[k] == x
    modifies h, s
    ensures Ring(h, Without(s, k))
    ensures x.prev == old(x.prev) && x.next == old(x.next)
  {
    assert x.next == After(h, s, k) && x.prev == Before(h, s, k);
    x.next.prev := x.prev;
    x.prev.next := x.next;
    WithoutPlaces(s, k);
  }

  lemma WithoutPlaces(s: seq<Node>, k: int)
    requires 0 <= k < |s| && Distinct(s)
    ensures Distinct(Without(s, k)) && s[k] !in Without(s, k)
    ensures forall i :: 0 <= i < k ==> Without(s, k)[i] == s[i]
    ensures forall i :: k <= i < |s| - 1 ==> Without(s, k)[i] == s[i + 1]
  {}

  /** ngx_queue_insert_after */
  method InsertAfter(p: Node, x: Node, ghost h: Node, ghost s: seq<Node>, ghost k: int)
    requires Ring(h, s) && 0 <= k <= |s| && p == Before(h, s, k) && x != h && x !in s
    modifies h, s, x
    ensures Ring(h, With(s, k, x))
  {
    x.next := p.next;
    x.next.prev := x;
    x.prev := p;
    p.next := x;
    WithPlaces(s, k, x);
  }

  lemma WithPlaces(s: seq<Node>, k: int, x: Node)
    requires 0 <= k <= |s| && Distinct(s) && x !in s
    ensures Distinct(With(s, k, x)) && With(s, k, x)[k] == x
    ensures forall i :: 0 <= i < k ==> With(s, k, x)[i] == s[i]
    ensures forall i :: k < i <= |s| ==> With(s, k, x)[i] == s[i - 1]
  {}

  /** ngx_queue_split: the elements from s[k] on move to the new head n. */
  method Split(q: Node, n: Node, h: Node, ghost s: seq<Node>, ghost k: int)
    requires Ring(h, s) && 0 <= k < |s| && s[k] == q && n != h && n !in s
    modifies h, s, n
    ensures Ring(h, s[..k]) && Ring(n, s[k..])
  {
    n.prev := h.prev;
    n.prev.next := n;
    n.next := q;
    h.prev := q.prev;
    h.prev.next := h;
    q.prev := n;
    ghost var t := s[k..];
    assert forall i :: 0 <= i < |t| ==> t[i] == s[k + i];
  }

  /** ngx_queue_add: the elements behind n, possibly none, are appended to the ring of h. */
  method Add(n: Node, h: Node, ghost s: seq<Node>, ghost t: seq<Node>)
    requires Ring(h, s) && Ring(n, t) && n != h && n !in s && h !in t
    requires forall x :: x in s ==> x !in t
    modifies h, s, n, t
    ensures Ring(h, s + t)
  {
    assert n.next == After(n, t, -1) && n.prev == Before(n, t, |t|);
    h.prev.next := n.next;
    n.next.prev := h.prev;
    h.prev := n.prev;
    h.prev.next := h;
    ghost var r := s + t;
    forall i, j | 0 <= i < j < |r| ensures r[i] != r[j] {
      assert i < |s| <= j ==> s[i] in s && t[j - |s|] in t;
    }
    if |t| == 0 {
      assert r == s;
    } else {
      forall i | 0 <= i < |r| ensures r[i].next == After(h, r, i) && r[i].prev == Before(h, r, i) {
        if i < |s| {
          assert r[i] == s[i] && s[i] in s;
        } else {
          assert r[i] == t[i - |s|] && t[i - |s|] in t;
        }
      }
    }
  }

  /** ngx_queue_middle */
  method Middle(h: Node, ghost s: seq<Node>) returns (middle: Node)
    requires Ring(h, s) && |s| > 0
    ensures middle == s[|s| / 2]
  {
    middle := h.next;
    if middle == h.prev {
      return;
    }
    var next := h.next;
    ghost var i := 0;
    while true
      invariant 0 <= i && 2 * i < |s| - 1 && middle == s[i] && next == s[2 * i]
      decreases |s| - i
    {
      middle := middle.next;
      next := next.next;
      assert next == s[2 * i + 1];
      i := i + 1;
      if next == h.prev {
        return;
      }
      next := next.next;
      if next == h.prev {
        return;
      }
    }
  }

  // What the sort computes, on sequences.

  /** Where the backward scan stops: just after the last element that does not exceed x. */
  function Slot(cmp: Comparator, s: seq<Node>, x: Node): (k: nat)
    ensures Fits(cmp, s, k, x)
  {
    if s == [] then 0
    else if cmp(s[|s| - 1], x) <= 0 then |s|
    else Slot(cmp, s[..|s| - 1], x)
  }

  function Sorted(cmp: Comparator, s: seq<Node>): (r: seq<Node>)
    ensures |r| == |s|
  {
    if s == [] then []
    else
      var r := Sorted(cmp, s[..|s| - 1]);
      With(r, Slot(cmp, r, s[|s| - 1]), s[|s| - 1])
  }

  /** The comparator is a total preorder on the elements of s. */
  ghost predicate TotalPreorder(cmp: Comparator, s: seq<Node>) {
    && (forall a, b :: a in s && b in s ==> cmp(a, b) <= 0 || cmp(b, a) <= 0)
    && (forall a, b, c :: a in s && b in s && c in s && cmp(a, b) <= 0 && cmp(b, c) <= 0 ==> cmp(a, c) <= 0)
  }

  ghost predicate Ascending(cmp: Comparator, s: seq<Node>) {
    forall i, j :: 0 <= i < j < |s| ==> cmp(s[i], s[j]) <= 0
  }

  /** x stands somewhere before y. */
  ghost predicate Precedes(s: seq<Node>, x: Node, y: Node) {
    exists i, j :: 0 <= i < j < |s| && s[i] == x && s[j] == y
  }

  lemma WithElements(s: seq<Node>, k: int, x: Node)
    requires 0 <= k <= |s|
    ensures multiset(With(s, k, x)) == multiset(s) + multiset{x}
  {
    assert s == s[..k] + s[k..];
  }

  /** Sorting permutes. */
  lemma {:induction false} SortPermutes(cmp: Comparator, s: seq<Node>)
    ensures multiset(Sorted(cmp, s)) == multiset(s)
  {
    if s != [] {
      var t, x := s[..|s| - 1], s[|s| - 1];
      SortPermutes(cmp, t);
      var r := Sorted(cmp, t);
      WithElements(r, Slot(cmp, r, x), x);
      assert s == t + [x];
    }
  }

  /** x stands at position k of r between what does not exceed it and what exceeds it. */
  ghost predicate Fits(cmp: Comparator, r: seq<Node>, k: int, x: Node) {
    && 0 <= k <= |r|
    && (k > 0 ==> cmp(r[k - 1], x) <= 0)
    && (forall i :: k <= i < |r| ==> cmp(r[i], x) > 0)
  }

  lemma FitAscends(cmp: Comparator, r: seq<Node>, k: int, x: Node)
    requires Ascending(cmp, r) && Fits(cmp, r, k, x) && TotalPreorder(cmp, r + [x])
    ensures Ascending(cmp, With(r, k, x))
  {
    var w, all := With(r, k, x), r + [x];
    assert all[|r|] == x;
    assert forall i :: 0 <= i < |r| ==> all[i] == r[i];
    forall i, j | 0 <= i < j < |w| ensures cmp(w[i], w[j]) <= 0 {
      if j == k {
        assert all[i] in all && all[k - 1] in all && all[|r|] in all;
        assert i == k - 1 || cmp(r[i], r[k - 1]) <= 0;
      } else if i == k {
        assert all[j - 1] in all && all[|r|] in all;
      }
    }
  }

  /** Sorting sorts, whenever the comparator is a total preorder. */
  lemma {:induction false} SortSorts(cmp: Comparator, s: seq<Node>)
    requires TotalPreorder(cmp, s)
    ensures Ascending(cmp, Sorted(cmp, s))
  {
    if s != [] {
      var t, x := s[..|s| - 1], s[|s| - 1];
      SortSorts(cmp, t);
      var r := Sorted(cmp, t);
      forall y | y in r + [x] ensures y in s {
        SortKeepsElements(cmp, t, y);
      }
      FitAscends(cmp, r, Slot(cmp, r, x), x);
    }
  }

  lemma WithKeepsOrder(r: seq<Node>, k: int, x: Node, y: Node, z: Node)
    requires 0 <= k <= |r| && Precedes(r, y, z)
    ensures Precedes(With(r, k, x), y, z)
  {
    var i, j :| 0 <= i < j < |r| && r[i] == y && r[j] == z;
    var w := With(r, k, x);
    assert w[if i < k then i else i + 1] == y && w[if j < k then j else j + 1] == z;
  }

  lemma FitFollows(cmp: Comparator, r: seq<Node>, k: int, x: Node, y: Node)
    requires Fits(cmp, r, k, x) && y in r && cmp(y, x) <= 0
    ensures Precedes(With(r, k, x), y, x)
  {
    var i :| 0 <= i < |r| && r[i] == y;
    assert With(r, k, x)[i] == y && With(r, k, x)[k] == x;
  }

  /** Sorting is stable, for any comparator: elements already in order, equal ones among them, keep their order. */
  lemma {:induction false} SortIsStable(cmp: Comparator, s: seq<Node>, a: int, b: int)
    requires 0 <= a < b < |s| && cmp(s[a], s[b]) <= 0
    ensures Precedes(Sorted(cmp, s), s[a], s[b])
  {
    var t, x := s[..|s| - 1], s[|s| - 1];
    var r := Sorted(cmp, t);
    var k := Slot(cmp, r, x);
    assert t[a] == s[a];
    if b < |t| {
      SortIsStable(cmp, t, a, b);
      WithKeepsOrder(r, k, x, s[a], s[b]);
    } else {
      SortKeepsElements(cmp, t, t[a]);
      FitFollows(cmp, r, k, x, t[a]);
    }
  }

  lemma SortKeepsElements(cmp: Comparator, s: seq<Node>, x: Node)
    ensures x in Sorted(cmp, s) <==> x in s
  {}

  /** The backward scan of the sort: from element i - 1 of the sorted part towards the head. */
  method Scan(h: Node, last: Node, x: Node, cmp: Comparator, ghost r: seq<Node>, ghost rest: seq<Node>)
    returns (prev: Node)
    requires Ring(h, r + rest) && |r| > 0 && last == r[|r| - 1]
    ensures prev == Before(h, r + rest, Slot(cmp, r, x))
  {
    ghost var s := r + rest;
    ghost var j := |r|;
    prev := last;
    while true
      invariant 0 < j <= |r| && prev == s[j - 1]
      invariant Slot(cmp, r[..j], x) == Slot(cmp, r, x)
      decreases j
    {
      assert r[..j][j - 1] == s[j - 1];
      if cmp(prev, x) <= 0 {
        return;
      }
      assert r[..j][..j - 1] == r[..j - 1];
      prev := prev.prev;
      j := j - 1;
      if prev == h {
        return;
      }
    }
  }

  /** One turn of the sort's loop: s[i] moves back into the sorted prefix. */
  method SortStep(q: Node, h: Node, cmp: Comparator, ghost r: seq<Node>, ghost rest: seq<Node>, ghost nodes: set<Node>)
    returns (next: Node)
    requires forall x :: x in r || x in rest ==> x in nodes
    requires |r| > 0 && |rest| > 0 && rest[0] == q && Ring(h, r + rest)
    modifies h, nodes
    ensures Ring(h, With(r, Slot(cmp, r, q), q) + rest[1..])
    ensures next == After(h, rest, 0)
  {
    ghost var ring := r + rest;
    assert ring[|r|] == q && ring[|r|] in rest;
    assert q.prev == Before(h, ring, |r|) && q.next == After(h, ring, |r|);
    var prev := q.prev;
    next := q.next;
    Remove(q, h, ring, |r|);
    ghost var rest' := rest[1..];
    assert Without(ring, |r|) == r + rest';
    prev := Scan(h, prev, q, cmp, r, rest');
    ghost var k := Slot(cmp, r, q);
    InsertAfter(prev, q, h, r + rest', k);
    assert With(r + rest', k, q) == With(r, k, q) + rest';
  }

  /** ngx_queue_sort */
  method Sort(h: Node, cmp: Comparator, ghost s: seq<Node>)
    requires Ring(h, s)
    modifies h, s
    ensures Ring(h, Sorted(cmp, s))
  {
    assert h.next == After(h, s, -1) && h.prev == Before(h, s, |s|);
    var q := h.next;
    if q == h.prev {
      SortOfFew(cmp, s);
      return;
    }
    assert q == s[0];
    q := q.next;
    assert s == s[..1] + s[1..];
    SortOfFew(cmp, s[..1]);
    ghost var i, r, rest := 1, s[..1], s[1..];
    ghost var nodes := set x | x in s;
    while q != h
      invariant 1 <= i <= |s| && q == After(h, s, i - 1)
      invariant r == Sorted(cmp, s[..i]) && rest == s[i..]
      invariant Ring(h, r + rest)
      decreases |s| - i
    {
      SortGrows(cmp, s, i);
      q := SortStep(q, h, cmp, r, rest, nodes);
      r, rest, i := With(r, Slot(cmp, r, s[i]), s[i]), rest[1..], i + 1;
    }
    assert s[..i] == s;
    assert r + rest == r;
  }

  lemma SortGrows(cmp: Comparator, s: seq<Node>, i: int)
    requires 0 <= i < |s|
    ensures s[..i + 1][..i] == s[..i] && s[i..][1..] == s[i + 1..]
    ensures Sorted(cmp, s[..i + 1]) == With(Sorted(cmp, s[..i]), Slot(cmp, Sorted(cmp, s[..i]), s[i]), s[i])
    ensures forall x :: x in Sorted(cmp, s[..i]) ==> x in s
  {
    assert s[..i + 1][..i] == s[..i];
    forall x | x in Sorted(cmp, s[..i]) ensures x in s {
      SortKeepsElements(cmp, s[..i], x);
    }
  }

  lemma SortOfFew(cmp: Comparator, s: seq<Node>)
    requires |s| <= 1
    ensures Sorted(cmp, s) == s
  {}
}
