/**
 * Doubly linked circular lists threaded through the descriptors of the slab allocator: links are
 * indices into the sequences `next` and `prev`, and each list hangs on a head that is not an item.
 */
module Chains {

  ghost function After(items: seq<int>, head: int, i: int): int
    requires 0 <= i < |items|
  {
    if i + 1 < |items| then items[i + 1] else head
  }

  ghost function Before(items: seq<int>, head: int, i: int): int
    requires 0 <= i < |items|
  {
    if i > 0 then items[i - 1] else head
  }

  ghost predicate Chain(next: seq<int>, prev: seq<int>, head: int, items: seq<int>)
  {
    && |next| == |prev| && 0 <= head < |next| && head !in items
    && (forall i :: 0 <= i < |items| ==> 0 <= items[i] < |next|)
    && (forall i, j :: 0 <= i < j < |items| ==> items[i] != items[j])
    && next[head] == (if items == [] then head else items[0])
    && (forall i {:trigger next[items[i]]} :: 0 <= i < |items| ==> next[items[i]] == After(items, head, i))
    && (forall i {:trigger prev[items[i]]} :: 0 <= i < |items| ==> prev[items[i]] == Before(items, head, i))
  }

  /** A list whose own links did not change is still the same list. */
  lemma ChainFrame(next: seq<int>, prev: seq<int>, next': seq<int>, prev': seq<int>, head: int, items: seq<int>)
    requires Chain(next, prev, head, items) && |next'| == |prev'| == |next|
    requires next'[head] == next[head]
    requires forall x :: x in items ==> 0 <= x < |next| && next'[x] == next[x] && prev'[x] == prev[x]
    ensures Chain(next', prev', head, items)
  {
  }

  function Drop(items: seq<int>, k: int): seq<int>
    requires 0 <= k < |items|
  {
    items[..k] + items[k + 1..]
  }

  /** Unlinking item k: its neighbours are joined. */
  lemma Unlinked(next: seq<int>, prev: seq<int>, head: int, items: seq<int>, k: int, next': seq<int>, prev': seq<int>)
    requires Chain(next, prev, head, items) && 0 <= k < |items| && |next'| == |prev'| == |next|
    requires var x := items[k];
      && (forall r :: 0 <= r < |next| && r != x ==> next'[r] == if r == prev[x] then next[x] else next[r])
      && (forall r :: 0 <= r < |next| && r != x ==> prev'[r] == if r == next[x] then prev[x] else prev[r])
    ensures Chain(next', prev', head, Drop(items, k))
  {}

  /** Pushing x in front. */
  lemma Pushed(next: seq<int>, prev: seq<int>, head: int, items: seq<int>, x: int, next': seq<int>, prev': seq<int>)
    requires Chain(next, prev, head, items) && |next'| == |prev'| == |next|
    requires 0 <= x < |next| && x != head && x !in items
    requires next'[head] == x && next'[x] == next[head] && prev'[x] == head
    requires forall i :: 0 <= i < |items| ==> next'[items[i]] == next[items[i]]
    requires forall i :: 0 <= i < |items| ==> prev'[items[i]] == if i == 0 then x else prev[items[i]]
    ensures Chain(next', prev', head, [x] + items)
  {}

  /** Putting y in the place of item k. */
  lemma Swapped(next: seq<int>, prev: seq<int>, head: int, items: seq<int>, k: int, y: int, next': seq<int>, prev': seq<int>)
    requires Chain(next, prev, head, items) && 0 <= k < |items| && |next'| == |prev'| == |next|
    requires 0 <= y < |next| && y != head && y !in items
    requires var x := items[k];
      && next'[y] == next[x] && prev'[y] == prev[x]
      && (forall r :: 0 <= r < |next| && r != x && r != y ==> next'[r] == if r == prev[x] then y else next[r])
      && (forall r :: 0 <= r < |next| && r != x && r != y ==> prev'[r] == if r == next[x] then y else prev[r])
    ensures Chain(next', prev', head, items[k := y])
  {}
}
