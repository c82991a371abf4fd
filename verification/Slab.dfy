/** The slab allocator of src/core/ngx_slab.c: page runs, slot lists, and the two public operations. */
module Slab {
  import Words
  import opened Chains
  import opened SlabPage

  const NULL: int := -1

  // Lists 0 to 8 hold the pages of the nine chunk sizes, list 9 the free runs; their heads follow the pages.
  const LISTS: nat := 10
  const FREE: nat := 9

  datatype Run = FreeRun(len: nat) | BusyRun(len: nat) | ChunkPage(shift: Shift)

  function Len(r: Run): nat { if r.ChunkPage? then 1 else r.len }

  /**
   * The pool at one moment. Descriptor i < n is page i, and n + k is the head of list k; tag holds the low
   * bits of the prev field, bits the first words of each page. The rest is what the pool stands for:
   * owner is the first page of the run a page belongs to, runs what the run that starts at a page is.
   */
  datatype Snap = Snap(slab: seq<nat>, next: seq<int>, prev: seq<int>, tag: seq<nat>, bits: seq<seq<nat>>,
                       runs: seq<Run>, owner: seq<nat>, lists: seq<seq<int>>)

  ghost predicate Sized(s: Snap)
  {
    var n := |s.slab|;
    && |s.next| == |s.prev| == |s.tag| == n + LISTS && |s.bits| == |s.runs| == |s.owner| == n && |s.lists| == LISTS
    && forall i :: 0 <= i < n ==> WordsOk(s.bits[i])
  }

  ghost predicate Head(s: Snap, h: int)
    requires Sized(s)
  {
    0 <= h < |s.slab| && s.owner[h] == h
  }

  /** Every page belongs to exactly one run, and the runs tile the page area. */
  ghost predicate Tiled(s: Snap)
    requires Sized(s)
  {
    && (forall i {:trigger s.owner[i]} :: 0 <= i < |s.slab| ==>
          Head(s, s.owner[i]) && s.owner[i] <= i < s.owner[i] + Len(s.runs[s.owner[i]]))
    && (forall h {:trigger s.runs[h]} :: Head(s, h) ==> 1 <= Len(s.runs[h]) && h + Len(s.runs[h]) <= |s.slab|)
    && (forall h, j {:trigger s.runs[h], s.owner[j]} :: Head(s, h) && h <= j < h + Len(s.runs[h]) && j < |s.slab| ==> s.owner[j] == h)
  }

  ghost predicate Full(s: Snap, h: int)
    requires Sized(s) && 0 <= h < |s.slab| && s.runs[h].ChunkPage?
  {
    AllUsed(s.slab[h], s.bits[h], s.runs[h].shift)
  }

  /** The list a page belongs in: free runs and chunk pages with room are listed, everything else is not. */
  ghost function Home(s: Snap, x: int): int
    requires Sized(s) && 0 <= x < |s.slab|
  {
    if !Head(s, x) then NULL
    else match s.runs[x]
      case FreeRun(_) => FREE
      case BusyRun(_) => NULL
      case ChunkPage(shift) => if Full(s, x) then NULL else shift - MIN_SHIFT
  }

  ghost predicate Linked(s: Snap)
    requires Sized(s)
  {
    forall k {:trigger s.lists[k]} :: 0 <= k < LISTS ==> Chain(s.next, s.prev, |s.slab| + k, s.lists[k])
  }

  ghost predicate Homed(s: Snap)
    requires Sized(s)
  {
    && (forall k, x {:trigger x in s.lists[k]} :: 0 <= k < LISTS && x in s.lists[k] ==> 0 <= x < |s.slab| && Home(s, x) == k)
    && (forall x {:trigger Home(s, x)} :: 0 <= x < |s.slab| && Home(s, x) >= 0 ==> x in s.lists[Home(s, x)])
  }

  ghost predicate PageOk(s: Snap, h: int)
    requires Sized(s) && 0 <= h < |s.slab|
  {
    match s.runs[h]
    case FreeRun(len) => s.slab[h] == len && s.tag[h] == PAGE_TYPE
    case BusyRun(len) => s.slab[h] == len + PAGE_START && s.tag[h] == PAGE_TYPE && s.next[h] == NULL
    case ChunkPage(shift) =>
      && s.tag[h] == Type(shift) && Layout(s.slab[h], s.bits[h], shift)
      && ReservedUsed(s.slab[h], s.bits[h], shift) && SomeUsed(s.slab[h], s.bits[h], shift)
      && (Full(s, h) ==> s.next[h] == NULL)
  }

  ghost predicate Paged(s: Snap)
    requires Sized(s)
  {
    forall h {:trigger PageOk(s, h)} :: Head(s, h) ==> PageOk(s, h)
  }

  ghost predicate Inv(s: Snap)
  {
    Sized(s) && Tiled(s) && Linked(s) && Homed(s) && Paged(s)
  }

  // ------------------------------------------------------------------ the lists as a whole

  /** The descriptor that list k hangs on. */
  function Anchor(n: nat, k: int): int { n + k }

  /** Nothing but list k, and pages in no other list, was relinked. */
  ghost predicate OthersKept(s: Snap, s': Snap, k: int)
    requires Sized(s) && Sized(s') && |s'.slab| == |s.slab|
  {
    && (forall j, x {:trigger x in s.lists[j]} :: 0 <= j < LISTS && j != k && x in s.lists[j] ==>
          0 <= x < |s.slab| && s'.next[x] == s.next[x] && s'.prev[x] == s.prev[x])
    && (forall j {:trigger Anchor(|s.slab|, j)} :: 0 <= j < LISTS && j != k ==>
          s'.next[Anchor(|s.slab|, j)] == s.next[Anchor(|s.slab|, j)])
    && (forall j :: 0 <= j < LISTS && j != k ==> s'.lists[j] == s.lists[j])
  }

  lemma OtherListKept(s: Snap, s': Snap, k: int, j: int)
    requires Sized(s) && Sized(s') && |s'.slab| == |s.slab| && 0 <= k < LISTS && Linked(s) && OthersKept(s, s', k)
    requires 0 <= j < LISTS && j != k
    ensures Chain(s'.next, s'.prev, |s.slab| + j, s'.lists[j])
  {
    var l := s.lists[j];
    assert Anchor(|s.slab|, j) == |s.slab| + j;
    forall x | x in l ensures 0 <= x < |s.slab| && s'.next[x] == s.next[x] && s'.prev[x] == s.prev[x] {
      assert x in s.lists[j];
    }
    ChainFrame(s.next, s.prev, s'.next, s'.prev, |s.slab| + j, l);
  }

  lemma LinkedByOne(s: Snap, s': Snap, k: int)
    requires Sized(s) && Sized(s') && |s'.slab| == |s.slab| && 0 <= k < LISTS && Linked(s) && OthersKept(s, s', k)
    requires Chain(s'.next, s'.prev, Anchor(|s.slab|, k), s'.lists[k])
    ensures Linked(s')
  {
    forall j | 0 <= j < LISTS ensures Chain(s'.next, s'.prev, |s.slab| + j, s'.lists[j]) {
      if j != k {
        OtherListKept(s, s', k, j);
      }
    }
  }

  /** The neighbours of a listed page are in the same list. */
  lemma Neighbours(s: Snap, k: int, i: int)
    requires Sized(s) && Linked(s) && 0 <= k < LISTS && 0 <= i < |s.lists[k]|
    ensures var x, a := s.lists[k][i], Anchor(|s.slab|, k);
      && 0 <= x < |s.next| && x != a && s.next[x] != x && s.prev[x] != x
      && (s.next[x] == a || s.next[x] in s.lists[k]) && (s.prev[x] == a || s.prev[x] in s.lists[k])
      && 0 <= s.next[x] < |s.next| && 0 <= s.prev[x] < |s.next|
  {}

  /** A descriptor outside list k is none of its neighbours. */
  lemma Apart(s: Snap, k: int, i: int, j: int)
    requires Sized(s) && Linked(s) && Homed(s) && 0 <= k < LISTS && 0 <= i < |s.lists[k]| && 0 <= j < LISTS && j != k
    ensures var x := s.lists[k][i];
      && Anchor(|s.slab|, j) != s.prev[x] && Anchor(|s.slab|, j) != s.next[x] && Anchor(|s.slab|, j) != x
      && forall y :: y in s.lists[j] ==> 0 <= y < |s.slab| && y != x && y != s.prev[x] && y != s.next[x]
  {
    var x, a := s.lists[k][i], Anchor(|s.slab|, k);
    Neighbours(s, k, i);
    assert x in s.lists[k] && Home(s, x) == k;
    forall y | y in s.lists[j] ensures 0 <= y < |s.slab| && y != x && y != s.prev[x] && y != s.next[x] {
      assert Home(s, y) == j;
      assert s.prev[x] in s.lists[k] ==> Home(s, s.prev[x]) == k;
      assert s.next[x] in s.lists[k] ==> Home(s, s.next[x]) == k;
    }
  }

  lemma UnlinkLinked(s: Snap, s': Snap, k: int, i: int)
    requires Sized(s) && Sized(s') && |s'.slab| == |s.slab| && Linked(s) && Homed(s)
    requires 0 <= k < LISTS && 0 <= i < |s.lists[k]| && s'.lists[k] == Drop(s.lists[k], i)
    requires forall j :: 0 <= j < LISTS && j != k ==> s'.lists[j] == s.lists[j]
    requires var x := s.lists[k][i];
      && 0 <= x < |s.slab|
      && (forall r :: 0 <= r < |s.next| && r != x ==> s'.next[r] == if r == s.prev[x] then s.next[x] else s.next[r])
      && (forall r :: 0 <= r < |s.next| && r != x ==> s'.prev[r] == if r == s.next[x] then s.prev[x] else s.prev[r])
    ensures Linked(s')
  {
    var x, a := s.lists[k][i], Anchor(|s.slab|, k);
    assert Chain(s.next, s.prev, a, s.lists[k]);
    Unlinked(s.next, s.prev, a, s.lists[k], i, s'.next, s'.prev);
    UnlinkOthers(s, s', k, i);
    LinkedByOne(s, s', k);
  }

  lemma UnlinkOthers(s: Snap, s': Snap, k: int, i: int)
    requires Sized(s) && Sized(s') && |s'.slab| == |s.slab| && Linked(s) && Homed(s)
    requires 0 <= k < LISTS && 0 <= i < |s.lists[k]| && s'.lists[k] == Drop(s.lists[k], i)
    requires forall j :: 0 <= j < LISTS && j != k ==> s'.lists[j] == s.lists[j]
    requires var x := s.lists[k][i];
      && 0 <= x < |s.slab|
      && (forall r :: 0 <= r < |s.next| && r != x ==> s'.next[r] == if r == s.prev[x] then s.next[x] else s.next[r])
      && (forall r :: 0 <= r < |s.next| && r != x ==> s'.prev[r] == if r == s.next[x] then s.prev[x] else s.prev[r])
    ensures OthersKept(s, s', k)
  {
    forall j | 0 <= j < LISTS && j != k
      ensures s'.next[Anchor(|s.slab|, j)] == s.next[Anchor(|s.slab|, j)]
      ensures forall y :: y in s.lists[j] ==> 0 <= y < |s.slab| && s'.next[y] == s.next[y] && s'.prev[y] == s.prev[y]
    {
      Apart(s, k, i, j);
    }
  }

  lemma PushLinked(s: Snap, s': Snap, k: int, x: int)
    requires Sized(s) && Sized(s') && |s'.slab| == |s.slab| && Linked(s) && Homed(s)
    requires 0 <= k < LISTS && 0 <= x < |s.slab| && Home(s, x) == NULL
    requires s'.lists == s.lists[k := [x] + s.lists[k]]
    requires var a := Anchor(|s.slab|, k);
      && s'.next[a] == x && s'.next[x] == s.next[a] && s'.prev[x] == a
      && (forall r :: 0 <= r < |s.next| && r != x && r != a ==> s'.next[r] == s.next[r])
      && (forall r :: 0 <= r < |s.slab| && r != x ==> s'.prev[r] == if r == s.next[a] then x else s.prev[r])
    ensures Linked(s')
  {
    var a := Anchor(|s.slab|, k);
    assert Chain(s.next, s.prev, a, s.lists[k]);
    var l := s.lists[k];
    assert s.next[a] == a || s.next[a] in l;
    forall i | 0 <= i < |l|
      ensures s'.next[l[i]] == s.next[l[i]]
      ensures s'.prev[l[i]] == if i == 0 then x else s.prev[l[i]]
    {
      assert l[i] in l && Home(s, l[i]) == k;
      assert l[i] == s.next[a] <==> i == 0;
    }
    Pushed(s.next, s.prev, a, l, x, s'.next, s'.prev);
    PushOthers(s, s', k, x);
    LinkedByOne(s, s', k);
  }

  lemma PushOthers(s: Snap, s': Snap, k: int, x: int)
    requires Sized(s) && Sized(s') && |s'.slab| == |s.slab| && Linked(s) && Homed(s)
    requires 0 <= k < LISTS && 0 <= x < |s.slab| && Home(s, x) == NULL
    requires s'.lists == s.lists[k := [x] + s.lists[k]]
    requires var a := Anchor(|s.slab|, k);
      && s'.next[a] == x && s'.next[x] == s.next[a] && s'.prev[x] == a
      && (forall r :: 0 <= r < |s.next| && r != x && r != a ==> s'.next[r] == s.next[r])
      && (forall r :: 0 <= r < |s.slab| && r != x ==> s'.prev[r] == if r == s.next[a] then x else s.prev[r])
    ensures OthersKept(s, s', k)
  {
    var a := Anchor(|s.slab|, k);
    assert Chain(s.next, s.prev, a, s.lists[k]);
    assert s.next[a] == a || (s.lists[k] != [] && s.next[a] == s.lists[k][0] && s.next[a] in s.lists[k]);
    forall j, y | 0 <= j < LISTS && j != k && y in s.lists[j]
      ensures 0 <= y < |s.slab| && s'.next[y] == s.next[y] && s'.prev[y] == s.prev[y]
    {
      assert Home(s, y) == j;
    }
  }

  lemma SwapLinked(s: Snap, s': Snap, k: int, i: int, y: int)
    requires Sized(s) && Sized(s') && |s'.slab| == |s.slab| && Linked(s) && Homed(s)
    requires 0 <= k < LISTS && 0 <= i < |s.lists[k]| && s'.lists[k] == s.lists[k][i := y]
    requires forall j :: 0 <= j < LISTS && j != k ==> s'.lists[j] == s.lists[j]
    requires 0 <= y < |s.slab| && Home(s, y) == NULL
    requires var x := s.lists[k][i];
      && 0 <= x < |s.slab|
      && s'.next[y] == s.next[x] && s'.prev[y] == s.prev[x]
      && (forall r :: 0 <= r < |s.next| && r != x && r != y ==> s'.next[r] == if r == s.prev[x] then y else s.next[r])
      && (forall r :: 0 <= r < |s.next| && r != x && r != y ==> s'.prev[r] == if r == s.next[x] then y else s.prev[r])
    ensures Linked(s')
  {
    SwapChain(s, s', k, i, y);
    SwapOthers(s, s', k, i, y);
    LinkedByOne(s, s', k);
  }

  lemma SwapChain(s: Snap, s': Snap, k: int, i: int, y: int)
    requires Sized(s) && Sized(s') && |s'.slab| == |s.slab| && 0 <= k < LISTS && 0 <= i < |s.lists[k]|
    requires Chain(s.next, s.prev, Anchor(|s.slab|, k), s.lists[k]) && 0 <= y < |s.slab| && y !in s.lists[k]
    requires s'.lists[k] == s.lists[k][i := y]
    requires var x := s.lists[k][i];
      && s'.next[y] == s.next[x] && s'.prev[y] == s.prev[x]
      && (forall r :: 0 <= r < |s.next| && r != x && r != y ==> s'.next[r] == if r == s.prev[x] then y else s.next[r])
      && (forall r :: 0 <= r < |s.next| && r != x && r != y ==> s'.prev[r] == if r == s.next[x] then y else s.prev[r])
    ensures Chain(s'.next, s'.prev, Anchor(|s.slab|, k), s'.lists[k])
  {
    Swapped(s.next, s.prev, Anchor(|s.slab|, k), s.lists[k], i, y, s'.next, s'.prev);
  }

  lemma SwapOthers(s: Snap, s': Snap, k: int, i: int, y: int)
    requires Sized(s) && Sized(s') && |s'.slab| == |s.slab| && Linked(s) && Homed(s)
    requires 0 <= k < LISTS && 0 <= i < |s.lists[k]| && s'.lists[k] == s.lists[k][i := y]
    requires forall j :: 0 <= j < LISTS && j != k ==> s'.lists[j] == s.lists[j]
    requires 0 <= y < |s.slab| && Home(s, y) == NULL
    requires var x := s.lists[k][i];
      && 0 <= x < |s.slab|
      && s'.next[y] == s.next[x] && s'.prev[y] == s.prev[x]
      && (forall r :: 0 <= r < |s.next| && r != x && r != y ==> s'.next[r] == if r == s.prev[x] then y else s.next[r])
      && (forall r :: 0 <= r < |s.next| && r != x && r != y ==> s'.prev[r] == if r == s.next[x] then y else s.prev[r])
    ensures OthersKept(s, s', k)
  {
    forall j | 0 <= j < LISTS && j != k
      ensures s'.next[Anchor(|s.slab|, j)] == s.next[Anchor(|s.slab|, j)]
      ensures forall z :: z in s.lists[j] ==> 0 <= z < |s.slab| && s'.next[z] == s.next[z] && s'.prev[z] == s.prev[z]
    {
      Apart(s, k, i, j);
    }
  }

  // ------------------------------------------------------------------ one page at a time

  /** Everything about page h but its links is the same. */
  ghost predicate SamePage(s: Snap, s': Snap, h: int)
    requires Sized(s) && Sized(s') && |s'.slab| == |s.slab| && 0 <= h < |s.slab|
  {
    && s'.runs[h] == s.runs[h] && s'.slab[h] == s.slab[h] && s'.bits[h] == s.bits[h] && s'.tag[h] == s.tag[h]
    && (s'.owner[h] == h <==> s.owner[h] == h)
  }

  lemma SameHome(s: Snap, s': Snap, h: int)
    requires Sized(s) && Sized(s') && |s'.slab| == |s.slab| && 0 <= h < |s.slab| && SamePage(s, s', h)
    ensures Home(s', h) == Home(s, h)
    ensures PageOk(s, h) && Head(s, h) && (Home(s, h) == NULL ==> s'.next[h] == s.next[h]) ==> PageOk(s', h)
  {
  }

  /** Unlinking touches no page outside the list. */
  ghost predicate LinksOutside(s: Snap, s': Snap, k: int, x: int)
    requires Sized(s) && Sized(s') && |s'.slab| == |s.slab| && 0 <= k < LISTS
  {
    forall r {:trigger s'.next[r]} :: 0 <= r < |s.slab| && r != x && r !in s.lists[k] ==> s'.next[r] == s.next[r]
  }

  lemma LeftItems(s: Snap, k: int, i: int)
    requires Sized(s) && Linked(s) && 0 <= k < LISTS && 0 <= i < |s.lists[k]|
    ensures forall y :: y in Drop(s.lists[k], i) <==> y in s.lists[k] && y != s.lists[k][i]
  {}

  lemma LeftHomed(s: Snap, s': Snap, k: int, x: int)
    requires Sized(s) && Homed(s) && Sized(s') && |s'.slab| == |s.slab| && 0 <= k < LISTS && 0 <= x < |s.slab|
    requires forall y :: y in s'.lists[k] <==> y in s.lists[k] && y != x
    requires forall j :: 0 <= j < LISTS && j != k ==> s'.lists[j] == s.lists[j]
    requires Home(s, x) == k && Home(s', x) == NULL
    requires forall h {:trigger Home(s', h)} :: 0 <= h < |s.slab| && h != x ==> Home(s', h) == Home(s, h)
    ensures Homed(s')
  {}

  /** All pages but x are the same, and x left list k (at index i) for none: the bookkeeping is consistent again. */
  lemma LeftList(s: Snap, s': Snap, k: int, i: int)
    requires Inv(s) && Sized(s') && |s'.slab| == |s.slab| && 0 <= k < LISTS && 0 <= i < |s.lists[k]|
    requires s'.lists[k] == Drop(s.lists[k], i) && forall j :: 0 <= j < LISTS && j != k ==> s'.lists[j] == s.lists[j]
    requires var x := s.lists[k][i];
      && 0 <= x < |s.slab| && LinksOutside(s, s', k, x) && Home(s', x) == NULL && Head(s', x) && PageOk(s', x)
      && forall h :: 0 <= h < |s.slab| && h != x ==> SamePage(s, s', h)
    ensures Homed(s') && Paged(s')
  {
    var x := s.lists[k][i];
    LeftItems(s, k, i);
    assert x in s.lists[k];
    forall h | 0 <= h < |s.slab| && h != x ensures Home(s', h) == Home(s, h) && (Head(s', h) ==> PageOk(s', h)) {
      assert SamePage(s, s', h);
      SameHome(s, s', h);
      assert Home(s, h) == NULL ==> h !in s.lists[k];
      assert Head(s, h) ==> PageOk(s, h);
    }
    LeftHomed(s, s', k, x);
  }

  /** All pages but x are the same, and x, in no list before, is now at the front of list k. */
  lemma JoinedList(s: Snap, s': Snap, k: int, x: int)
    requires Inv(s) && Sized(s') && |s'.slab| == |s.slab| && 0 <= k < LISTS && 0 <= x < |s.slab|
    requires s'.lists[k] == [x] + s.lists[k] && forall j :: 0 <= j < LISTS && j != k ==> s'.lists[j] == s.lists[j]
    requires Home(s, x) == NULL && Home(s', x) == k && Head(s', x) && PageOk(s', x)
    requires forall r {:trigger s'.next[r]} :: 0 <= r < |s.slab| && r != x ==> s'.next[r] == s.next[r]
    requires forall h :: 0 <= h < |s.slab| && h != x ==> SamePage(s, s', h)
    ensures Homed(s') && Paged(s')
  {
    forall h | 0 <= h < |s.slab| && h != x ensures Home(s', h) == Home(s, h) && (Head(s', h) ==> PageOk(s', h)) {
      assert SamePage(s, s', h);
      SameHome(s, s', h);
      assert Head(s, h) ==> PageOk(s, h);
    }
  }

  lemma SameHomes(s: Snap, s': Snap)
    requires Sized(s) && Homed(s) && Sized(s') && |s'.slab| == |s.slab| && s'.lists == s.lists
    requires forall h {:trigger Home(s', h)} :: 0 <= h < |s.slab| ==> Home(s', h) == Home(s, h)
    ensures Homed(s')
  {
  }

  /** Only the contents of page x changed, and it stays where it is listed. */
  lemma StayedInList(s: Snap, s': Snap, x: int)
    requires Inv(s) && Sized(s') && |s'.slab| == |s.slab| && 0 <= x < |s.slab|
    requires s'.lists == s.lists && s'.next == s.next && s'.prev == s.prev && s'.owner == s.owner
    requires Home(s', x) == Home(s, x) && (Head(s', x) ==> PageOk(s', x)) && Len(s'.runs[x]) == Len(s.runs[x])
    requires forall h :: 0 <= h < |s.slab| && h != x ==> SamePage(s, s', h)
    ensures Inv(s')
  {
    forall h | 0 <= h < |s.slab|
      ensures Home(s', h) == Home(s, h) && (Head(s', h) ==> PageOk(s', h)) && Len(s'.runs[h]) == Len(s.runs[h])
    {
      if h != x {
        assert SamePage(s, s', h);
        SameHome(s, s', h);
        assert Head(s, h) ==> PageOk(s, h);
      }
    }
    SameHomes(s, s');
    SameTiling(s, s');
  }

  lemma SameTiling(s: Snap, s': Snap)
    requires Sized(s) && Sized(s') && |s'.slab| == |s.slab| && Tiled(s) && s'.owner == s.owner
    requires forall h :: 0 <= h < |s.slab| ==> Len(s'.runs[h]) == Len(s.runs[h])
    ensures Tiled(s')
  {
  }

  // ------------------------------------------------------------------ page runs

  lemma TakenOutside(s: Snap, s': Snap, i: int)
    requires Inv(s) && Sized(s') && |s'.slab| == |s.slab| && 0 <= i < |s.lists[FREE]|
    requires var x := s.lists[FREE][i]; 0 <= x < |s.slab|
    requires var x := s.lists[FREE][i];
      forall r :: 0 <= r < |s.next| && r != x ==> s'.next[r] == if r == s.prev[x] then s.next[x] else s.next[r]
    ensures LinksOutside(s, s', FREE, s.lists[FREE][i])
  {}

  /** The pool after free run i was taken whole. */
  ghost predicate TookRun(s: Snap, s': Snap, i: int)
    requires Sized(s) && 0 <= i < |s.lists[FREE]|
  {
    var x := s.lists[FREE][i];
    && Sized(s') && |s'.slab| == |s.slab| && s'.bits == s.bits && s'.owner == s.owner
    && s'.lists[FREE] == Drop(s.lists[FREE], i) && (forall j :: 0 <= j < LISTS && j != FREE ==> s'.lists[j] == s.lists[j])
    && 0 <= x < |s.slab| && s.runs[x].FreeRun? && s'.runs == s.runs[x := BusyRun(s.runs[x].len)]
    && s'.slab == s.slab[x := s.runs[x].len + PAGE_START] && s'.next[x] == NULL
    && (forall r :: 0 <= r < |s.slab| ==> s'.tag[r] == s.tag[r])
    && (forall r :: 0 <= r < |s.next| && r != x ==> s'.next[r] == if r == s.prev[x] then s.next[x] else s.next[r])
    && (forall r :: 0 <= r < |s.next| && r != x ==> s'.prev[r] == if r == s.next[x] then s.prev[x] else s.prev[r])
  }

  lemma RunTaken(s: Snap, s': Snap, i: int)
    requires Inv(s) && 0 <= i < |s.lists[FREE]| && TookRun(s, s', i)
    ensures Inv(s')
  {
    ListedRun(s, i);
    UnlinkLinked(s, s', FREE, i);
    SameTiling(s, s');
    TakenOutside(s, s', i);
    LeftList(s, s', FREE, i);
  }

  /** The pool after the first pages of free run i were cut off: y is where the rest starts. */
  ghost predicate CutOff(s: Snap, s': Snap, i: int, pages: nat)
    requires Sized(s) && 0 <= i < |s.lists[FREE]|
  {
    var x := s.lists[FREE][i];
    && 0 <= x < |s.slab| && s.runs[x].FreeRun? && 0 < pages < s.runs[x].len && x + s.runs[x].len <= |s.slab|
    && Sized(s') && |s'.slab| == |s.slab|
    && var y, len := x + pages, s.runs[x].len;
    && s'.bits == s.bits && s'.lists[FREE] == s.lists[FREE][i := y]
    && (forall j :: 0 <= j < LISTS && j != FREE ==> s'.lists[j] == s.lists[j])
    && s'.runs == s.runs[x := BusyRun(pages)][y := FreeRun(len - pages)]
    && s'.slab == s.slab[y := len - pages][x := pages + PAGE_START]
    && s'.next[x] == NULL && s'.next[y] == s.next[x] && s'.prev[y] == s.prev[x]
    && (forall r :: 0 <= r < |s.slab| ==> s'.tag[r] == if r == y then PAGE_TYPE else s.tag[r])
    && (forall r :: 0 <= r < |s.next| && r != x && r != y ==> s'.next[r] == if r == s.prev[x] then y else s.next[r])
    && (forall r :: 0 <= r < |s.next| && r != x && r != y ==> s'.prev[r] == if r == s.next[x] then y else s.prev[r])
    && (forall j :: 0 <= j < |s.slab| ==> s'.owner[j] == if y <= j < x + len then y else s.owner[j])
  }

  lemma CutTiled(s: Snap, s': Snap, i: int, pages: nat)
    requires Inv(s) && 0 <= i < |s.lists[FREE]| && CutOff(s, s', i, pages) && Head(s, s.lists[FREE][i])
    ensures Tiled(s')
  {
    var x := s.lists[FREE][i];
    CutOwners(s, s', x, x + pages, s.runs[x].len);
  }

  /** The run at x is cut at y: the pages from y to its end belong to y. */
  ghost predicate CutAt(s: Snap, s': Snap, x: int, y: int, len: nat)
  {
    && Sized(s) && Tiled(s) && Sized(s') && |s'.slab| == |s.slab|
    && Head(s, x) && x < y < x + len && Len(s.runs[x]) == len && x + len <= |s.slab|
    && Len(s'.runs[x]) == y - x && Len(s'.runs[y]) == x + len - y
    && (forall h :: 0 <= h < |s.slab| && h != x && h != y ==> s'.runs[h] == s.runs[h])
    && (forall j :: 0 <= j < |s.slab| ==> s'.owner[j] == if y <= j < x + len then y else s.owner[j])
  }

  lemma CutOwner(s: Snap, s': Snap, x: int, y: int, len: nat, j: int)
    requires CutAt(s, s', x, y, len) && 0 <= j < |s.slab|
    ensures Head(s', s'.owner[j]) && s'.owner[j] <= j < s'.owner[j] + Len(s'.runs[s'.owner[j]])
  {
    assert x <= j < x + len ==> s.owner[j] == x;
    assert s.owner[y] == x;
  }

  lemma CutMember(s: Snap, s': Snap, x: int, y: int, len: nat, h: int, j: int)
    requires CutAt(s, s', x, y, len) && Head(s', h) && h <= j < h + Len(s'.runs[h]) && j < |s.slab|
    ensures s'.owner[j] == h
  {
    if h != x && h != y {
      assert Head(s, h);
      assert s.owner[j] == h;
    } else {
      assert s.owner[j] == x;
    }
  }

  lemma CutLength(s: Snap, s': Snap, x: int, y: int, len: nat, h: int)
    requires CutAt(s, s', x, y, len) && Head(s', h)
    ensures 1 <= Len(s'.runs[h]) && h + Len(s'.runs[h]) <= |s.slab|
  {
    if h != x && h != y {
      assert Head(s, h);
    }
  }

  lemma CutOwners(s: Snap, s': Snap, x: int, y: int, len: nat)
    requires CutAt(s, s', x, y, len)
    ensures Tiled(s')
  {
    forall j | 0 <= j < |s.slab| ensures Head(s', s'.owner[j]) && s'.owner[j] <= j < s'.owner[j] + Len(s'.runs[s'.owner[j]]) {
      CutOwner(s, s', x, y, len, j);
    }
    forall h, j | Head(s', h) && h <= j < h + Len(s'.runs[h]) && j < |s.slab| ensures s'.owner[j] == h {
      CutMember(s, s', x, y, len, h, j);
    }
    forall h | Head(s', h) ensures 1 <= Len(s'.runs[h]) && h + Len(s'.runs[h]) <= |s.slab| {
      CutLength(s, s', x, y, len, h);
    }
  }

  lemma CutOther(s: Snap, s': Snap, i: int, pages: nat, h: int)
    requires Inv(s) && 0 <= i < |s.lists[FREE]| && CutOff(s, s', i, pages) && Head(s, s.lists[FREE][i])
    requires var x := s.lists[FREE][i]; 0 <= h < |s.slab| && h != x && h != x + pages
    ensures Home(s', h) == Home(s, h) && (Head(s', h) ==> PageOk(s', h))
  {
    Neighbours(s, FREE, i);
    assert SamePage(s, s', h);
    SameHome(s, s', h);
    assert Home(s, h) == NULL ==> h !in s.lists[FREE];
    assert Head(s, h) ==> PageOk(s, h);
  }

  lemma CutPages(s: Snap, s': Snap, i: int, pages: nat)
    requires Inv(s) && 0 <= i < |s.lists[FREE]| && CutOff(s, s', i, pages) && Head(s, s.lists[FREE][i])
    ensures Paged(s') && Homed(s')
  {
    var x := s.lists[FREE][i];
    var y := x + pages;
    assert x in s.lists[FREE] && s.owner[y] == x && Home(s, y) == NULL;
    Neighbours(s, FREE, i);
    forall h | 0 <= h < |s.slab| && h != x && h != y ensures Home(s', h) == Home(s, h) && (Head(s', h) ==> PageOk(s', h)) {
      CutOther(s, s', i, pages, h);
    }
    assert PageOk(s, x);
    CutItems(s, s', i, y);
    SwapHomed(s, s', x, y);
  }

  lemma CutItems(s: Snap, s': Snap, i: int, y: int)
    requires Sized(s) && Linked(s) && 0 <= i < |s.lists[FREE]| && Sized(s') && s'.lists[FREE] == s.lists[FREE][i := y]
    ensures forall z :: z in s'.lists[FREE] <==> z == y || (z in s.lists[FREE] && z != s.lists[FREE][i])
  {
    ListDistinct(s, FREE);
    SwapItems(s.lists[FREE], s'.lists[FREE], i, y);
  }

  lemma ListDistinct(s: Snap, k: int)
    requires Sized(s) && Linked(s) && 0 <= k < LISTS
    ensures forall a, b :: 0 <= a < b < |s.lists[k]| ==> s.lists[k][a] != s.lists[k][b]
  {}

  lemma SwapHomed(s: Snap, s': Snap, x: int, y: int)
    requires Sized(s) && Homed(s) && Sized(s') && |s'.slab| == |s.slab|
    requires 0 <= x < |s.slab| && 0 <= y < |s.slab| && x != y
    requires forall z :: z in s'.lists[FREE] <==> z == y || (z in s.lists[FREE] && z != x)
    requires forall j :: 0 <= j < LISTS && j != FREE ==> s'.lists[j] == s.lists[j]
    requires Home(s, x) == FREE && Home(s, y) == NULL && Home(s', x) == NULL && Home(s', y) == FREE
    requires forall h {:trigger Home(s', h)} :: 0 <= h < |s.slab| && h != x && h != y ==> Home(s', h) == Home(s, h)
    ensures Homed(s')
  {}

  lemma SwapItems(l: seq<int>, l': seq<int>, i: int, y: int)
    requires 0 <= i < |l| && l' == l[i := y] && forall a, b :: 0 <= a < b < |l| ==> l[a] != l[b]
    ensures forall z :: z in l' <==> z == y || (z in l && z != l[i])
  {
    assert l'[i] == y && forall a :: 0 <= a < |l| && a != i ==> l'[a] == l[a];
    forall z | z in l && z != l[i] ensures z in l' {
      var a :| 0 <= a < |l| && l[a] == z;
      assert l'[a] == z;
    }
    forall z | z in l' ensures z == y || (z in l && z != l[i]) {
      var a :| 0 <= a < |l'| && l'[a] == z;
    }
  }

  lemma CutLinked(s: Snap, s': Snap, i: int, pages: nat)
    requires Sized(s) && Linked(s) && Homed(s) && 0 <= i < |s.lists[FREE]| && CutOff(s, s', i, pages)
    requires Home(s, s.lists[FREE][i] + pages) == NULL
    ensures Linked(s')
  {
    SwapLinked(s, s', FREE, i, s.lists[FREE][i] + pages);
  }

  /** Cutting the first pages off a longer free run. */
  lemma RunCut(s: Snap, s': Snap, i: int, pages: nat)
    requires Inv(s) && 0 <= i < |s.lists[FREE]| && CutOff(s, s', i, pages)
    ensures Inv(s')
  {
    ListedRun(s, i);
    assert s.owner[s.lists[FREE][i] + pages] == s.lists[FREE][i];
    CutTiled(s, s', i, pages);
    CutLinked(s, s', i, pages);
    CutPages(s, s', i, pages);
  }

  lemma ListedRun(s: Snap, i: int)
    requires Inv(s) && 0 <= i < |s.lists[FREE]|
    ensures var x := s.lists[FREE][i]; Head(s, x) && s.runs[x].FreeRun? && Home(s, x) == FREE && PageOk(s, x)
  {
    var x := s.lists[FREE][i];
    assert x in s.lists[FREE];
    assert Home(s, x) == FREE;
  }

  lemma UnlistedWritten(s: Snap, s': Snap, p: int)
    requires Sized(s) && Linked(s) && Homed(s) && Sized(s') && |s'.slab| == |s.slab| && s'.lists == s.lists
    requires 0 <= p < |s.slab| && Home(s, p) == NULL
    requires forall r :: 0 <= r < |s.next| && r != p ==> s'.next[r] == s.next[r] && s'.prev[r] == s.prev[r]
    ensures Linked(s')
  {
    forall k | 0 <= k < LISTS ensures Chain(s'.next, s'.prev, |s.slab| + k, s'.lists[k]) {
      var l := s.lists[k];
      assert Chain(s.next, s.prev, |s.slab| + k, l);
      forall i | 0 <= i < |l| ensures l[i] != p {
        assert l[i] in l && Home(s, l[i]) == k;
      }
      ChainFrame(s.next, s.prev, s'.next, s'.prev, |s.slab| + k, l);
    }
  }

  /** A page that does not start a run may hold anything. */
  lemma SameButTails(s: Snap, t: Snap)
    requires Sized(s) && Sized(t) && |t.slab| == |s.slab|
    requires t.runs == s.runs && t.owner == s.owner && t.bits == s.bits
    requires forall r :: 0 <= r < |s.slab| && s.owner[r] == r ==> t.slab[r] == s.slab[r] && t.tag[r] == s.tag[r]
    ensures OnlyPage(s, t, -1)
  {
    forall h | 0 <= h < |s.slab| ensures SamePage(s, t, h) || (!Head(s, h) && !Head(t, h)) {
    }
  }

  lemma TailWritten(s: Snap, s': Snap, p: int)
    requires Inv(s) && Sized(s') && |s'.slab| == |s.slab| && 0 <= p < |s.slab| && !Head(s, p)
    requires s'.bits == s.bits && s'.runs == s.runs && s'.owner == s.owner && s'.lists == s.lists
    requires forall r :: 0 <= r < |s.slab| && r != p ==> s'.slab[r] == s.slab[r]
    requires forall r :: 0 <= r < |s.next| && r != p ==> s'.next[r] == s.next[r] && s'.prev[r] == s.prev[r] && s'.tag[r] == s.tag[r]
    ensures Inv(s')
  {
    assert Home(s, p) == NULL && Home(s', p) == NULL;
    forall h | 0 <= h < |s.slab| && h != p ensures Home(s', h) == Home(s, h) && (Head(s', h) ==> PageOk(s', h)) {
      assert SamePage(s, s', h);
      SameHome(s, s', h);
      assert Head(s, h) ==> PageOk(s, h);
    }
    SameTiling(s, s');
    UnlistedWritten(s, s', p);
  }

  /** A busy run becomes the first free run. */
  lemma RunFreed(s: Snap, s': Snap, x: int)
    requires Inv(s) && Sized(s') && |s'.slab| == |s.slab| && Head(s, x) && s.runs[x].BusyRun?
    requires s'.bits == s.bits && s'.owner == s.owner && s'.lists == s.lists[FREE := [x] + s.lists[FREE]]
    requires s'.runs == s.runs[x := FreeRun(s.runs[x].len)] && s'.slab == s.slab[x := s.runs[x].len]
    requires forall r :: 0 <= r < |s.slab| ==> s'.tag[r] == s.tag[r]
    requires var a := Anchor(|s.slab|, FREE);
      && s'.next[a] == x && s'.next[x] == s.next[a] && s'.prev[x] == a
      && (forall r :: 0 <= r < |s.next| && r != x && r != a ==> s'.next[r] == s.next[r])
      && (forall r :: 0 <= r < |s.slab| && r != x ==> s'.prev[r] == if r == s.next[a] then x else s.prev[r])
    ensures Inv(s')
  {
    assert PageOk(s, x) && Home(s, x) == NULL;
    PushLinked(s, s', FREE, x);
    SameTiling(s, s');
    JoinedList(s, s', FREE, x);
  }

  // ------------------------------------------------------------------ chunk pages

  function Slot(shift: Shift): int { shift - MIN_SHIFT }

  /** Only the words of page x changed. */
  ghost predicate OnlyWords(s: Snap, s': Snap, x: int)
    requires Sized(s) && 0 <= x < |s.slab|
  {
    && Sized(s') && |s'.slab| == |s.slab| && s'.owner == s.owner && s'.runs == s.runs
    && (forall r :: 0 <= r < |s.slab| && r != x ==> s'.slab[r] == s.slab[r] && s'.bits[r] == s.bits[r])
    && (forall r :: 0 <= r < |s.slab| ==> s'.tag[r] == s.tag[r])
  }

  lemma TakenMore(w: nat, b: seq<nat>, shift: Shift, w': nat, b': seq<nat>, c: nat)
    requires Taken(w, b, shift, w', b', c) && ReservedUsed(w, b, shift) && SomeUsed(w, b, shift)
    ensures ReservedUsed(w', b', shift) && SomeUsed(w', b', shift) && Reserved(shift) <= c
  {}

  /** A chunk is taken and the page still has room. */
  lemma ChunkTaken(s: Snap, s': Snap, x: int, c: nat)
    requires Inv(s) && Head(s, x) && s.runs[x].ChunkPage? && !Full(s, x) && OnlyWords(s, s', x)
    requires s'.lists == s.lists && s'.next == s.next && s'.prev == s.prev
    requires Taken(s.slab[x], s.bits[x], s.runs[x].shift, s'.slab[x], s'.bits[x], c) && !Full(s', x)
    ensures Inv(s')
  {
    assert PageOk(s, x);
    TakenMore(s.slab[x], s.bits[x], s.runs[x].shift, s'.slab[x], s'.bits[x], c);
    StayedInList(s, s', x);
  }

  /** The last free chunk is taken: the page leaves its list. */
  lemma ChunkTakenLast(s: Snap, s': Snap, i: int, shift: Shift, c: nat)
    requires Inv(s) && 0 <= i < |s.lists[Slot(shift)]| && |s'.lists| == LISTS && s'.lists[Slot(shift)] == Drop(s.lists[Slot(shift)], i)
    requires forall j :: 0 <= j < LISTS && j != Slot(shift) ==> s'.lists[j] == s.lists[j]
    requires var x := s.lists[Slot(shift)][i];
      && Head(s, x) && s.runs[x] == ChunkPage(shift) && OnlyWords(s, s', x) && s'.next[x] == NULL
      && Taken(s.slab[x], s.bits[x], shift, s'.slab[x], s'.bits[x], c) && Full(s', x)
      && (forall r :: 0 <= r < |s.next| && r != x ==> s'.next[r] == if r == s.prev[x] then s.next[x] else s.next[r])
      && (forall r :: 0 <= r < |s.next| && r != x ==> s'.prev[r] == if r == s.next[x] then s.prev[x] else s.prev[r])
    ensures Inv(s')
  {
    var x := s.lists[Slot(shift)][i];
    assert PageOk(s, x);
    TakenMore(s.slab[x], s.bits[x], shift, s'.slab[x], s'.bits[x], c);
    UnlinkLinked(s, s', Slot(shift), i);
    SameTiling(s, s');
    Neighbours(s, Slot(shift), i);
    LeftList(s, s', Slot(shift), i);
  }

  lemma FirstOnlyOk(w: nat, b: seq<nat>, shift: Shift, c: nat)
    requires FirstOnly(w, b, shift, c)
    ensures ReservedUsed(w, b, shift) && SomeUsed(w, b, shift) && !AllUsed(w, b, shift)
  {
    assert Used(w, b, shift, c);
    RoomAfterFirst(shift);
    assert !Used(w, b, shift, c + 1);
  }

  lemma RoomAfterFirst(shift: Shift)
    ensures Reserved(shift) + 1 < Cap(shift)
  {}

  /** A single busy page is laid out for chunks and put into its empty list. */
  lemma PageLaidOut(s: Snap, s': Snap, x: int, shift: Shift, c: nat)
    requires Inv(s) && Head(s, x) && s.runs[x] == BusyRun(1) && s.lists[Slot(shift)] == []
    requires Sized(s') && |s'.slab| == |s.slab| && s'.owner == s.owner && s'.runs == s.runs[x := ChunkPage(shift)]
    requires s'.lists == s.lists[Slot(shift) := [x]] && FirstOnly(s'.slab[x], s'.bits[x], shift, c)
    requires forall r :: 0 <= r < |s.slab| && r != x ==> s'.slab[r] == s.slab[r] && s'.bits[r] == s.bits[r]
    requires forall r :: 0 <= r < |s.slab| ==> s'.tag[r] == if r == x then Type(shift) else s.tag[r]
    requires var a := Anchor(|s.slab|, Slot(shift));
      && s'.next[a] == x && s'.next[x] == a && s'.prev[x] == a
      && (forall r :: 0 <= r < |s.next| && r != x && r != a ==> s'.next[r] == s.next[r])
      && (forall r :: 0 <= r < |s.slab| && r != x ==> s'.prev[r] == s.prev[r])
    ensures Inv(s')
  {
    var a := Anchor(|s.slab|, Slot(shift));
    assert Chain(s.next, s.prev, a, s.lists[Slot(shift)]);
    FirstOnlyOk(s'.slab[x], s'.bits[x], shift, c);
    assert [x] + s.lists[Slot(shift)] == [x];
    PushLinked(s, s', Slot(shift), x);
    SameTiling(s, s');
    JoinedList(s, s', Slot(shift), x);
  }

  lemma ReturnedLess(w: nat, b: seq<nat>, shift: Shift, w': nat, b': seq<nat>, c: nat)
    requires Returned(w, b, shift, w', b', c) && ReservedUsed(w, b, shift) && Reserved(shift) <= c
    ensures ReservedUsed(w', b', shift) && !AllUsed(w', b', shift)
  {
    forall e: nat | e < Reserved(shift) ensures Used(w', b', shift, e) {
      assert Used(w, b, shift, e);
    }
    assert !Used(w', b', shift, c);
  }

  /** A chunk comes back to a listed page that stays in use. */
  lemma ChunkReturned(s: Snap, s': Snap, x: int, c: nat)
    requires Inv(s) && Head(s, x) && s.runs[x].ChunkPage? && !Full(s, x) && OnlyWords(s, s', x)
    requires s'.lists == s.lists && s'.next == s.next && s'.prev == s.prev && Reserved(s.runs[x].shift) <= c
    requires Returned(s.slab[x], s.bits[x], s.runs[x].shift, s'.slab[x], s'.bits[x], c)
    requires SomeUsed(s'.slab[x], s'.bits[x], s.runs[x].shift)
    ensures Inv(s')
  {
    assert PageOk(s, x);
    ReturnedLess(s.slab[x], s.bits[x], s.runs[x].shift, s'.slab[x], s'.bits[x], c);
    StayedInList(s, s', x);
  }

  /** A chunk comes back to a full page, which joins its list again. */
  lemma ChunkReturnedToFull(s: Snap, s': Snap, x: int, c: nat)
    requires Inv(s) && Head(s, x) && s.runs[x].ChunkPage? && Full(s, x) && OnlyWords(s, s', x)
    requires Reserved(s.runs[x].shift) <= c && Returned(s.slab[x], s.bits[x], s.runs[x].shift, s'.slab[x], s'.bits[x], c)
    requires SomeUsed(s'.slab[x], s'.bits[x], s.runs[x].shift)
    requires var k := Slot(s.runs[x].shift); var a := Anchor(|s.slab|, k);
      && s'.lists == s.lists[k := [x] + s.lists[k]]
      && s'.next[a] == x && s'.next[x] == s.next[a] && s'.prev[x] == a
      && (forall r :: 0 <= r < |s.next| && r != x && r != a ==> s'.next[r] == s.next[r])
      && (forall r :: 0 <= r < |s.slab| && r != x ==> s'.prev[r] == if r == s.next[a] then x else s.prev[r])
    ensures Inv(s')
  {
    assert PageOk(s, x);
    ReturnedLess(s.slab[x], s.bits[x], s.runs[x].shift, s'.slab[x], s'.bits[x], c);
    PushLinked(s, s', Slot(s.runs[x].shift), x);
    SameTiling(s, s');
    JoinedList(s, s', Slot(s.runs[x].shift), x);
  }

  /** The virtual state between leaving the slot list and joining the free list: a single busy page in no list. */
  ghost predicate Withdrawn(s: Snap, m: Snap, i: int, shift: Shift)
    requires Sized(s) && 0 <= i < |s.lists[Slot(shift)]|
  {
    var x := s.lists[Slot(shift)][i];
    && 0 <= x < |s.slab| && Sized(m) && |m.slab| == |s.slab| && m.owner == s.owner && m.runs == s.runs[x := BusyRun(1)]
    && m.lists == s.lists[Slot(shift) := Drop(s.lists[Slot(shift)], i)]
    && m.slab == s.slab[x := 1 + PAGE_START] && m.next[x] == NULL
    && (forall r :: 0 <= r < |s.slab| && r != x ==> m.bits[r] == s.bits[r])
    && (forall r :: 0 <= r < |s.slab| ==> m.tag[r] == if r == x then PAGE_TYPE else s.tag[r])
    && (forall r :: 0 <= r < |s.next| && r != x ==> m.next[r] == if r == s.prev[x] then s.next[x] else s.next[r])
    && (forall r :: 0 <= r < |s.next| && r != x ==> m.prev[r] == if r == s.next[x] then s.prev[x] else s.prev[r])
  }

  lemma WithdrawnLinked(s: Snap, m: Snap, i: int, shift: Shift)
    requires Sized(s) && Linked(s) && Homed(s) && 0 <= i < |s.lists[Slot(shift)]| && Withdrawn(s, m, i, shift)
    ensures Linked(m)
  {
    UnlinkLinked(s, m, Slot(shift), i);
  }

  lemma WithdrawnTiled(s: Snap, m: Snap, i: int, shift: Shift)
    requires Sized(s) && Tiled(s) && 0 <= i < |s.lists[Slot(shift)]| && Withdrawn(s, m, i, shift)
    requires s.runs[s.lists[Slot(shift)][i]] == ChunkPage(shift)
    ensures Tiled(m)
  {
    SameTiling(s, m);
  }

  lemma WithdrawnPaged(s: Snap, m: Snap, i: int, shift: Shift)
    requires Inv(s) && 0 <= i < |s.lists[Slot(shift)]| && Withdrawn(s, m, i, shift)
    requires var x := s.lists[Slot(shift)][i]; Head(s, x) && s.runs[x] == ChunkPage(shift)
    ensures Homed(m) && Paged(m)
  {
    Neighbours(s, Slot(shift), i);
    LeftList(s, m, Slot(shift), i);
  }

  lemma PageWithdrawn(s: Snap, m: Snap, i: int, shift: Shift)
    requires Inv(s) && 0 <= i < |s.lists[Slot(shift)]| && Withdrawn(s, m, i, shift)
    requires var x := s.lists[Slot(shift)][i]; Head(s, x) && s.runs[x] == ChunkPage(shift)
    ensures Inv(m)
  {
    WithdrawnLinked(s, m, i, shift);
    WithdrawnTiled(s, m, i, shift);
    WithdrawnPaged(s, m, i, shift);
  }

  // ------------------------------------------------------------------ live blocks

  /** Offset off of a chunk page starts a chunk in use that is not part of the page's bitmap. */
  ghost predicate ChunkLive(w: nat, b: seq<nat>, shift: Shift, off: nat)
    requires |b| == 8
  {
    off % Size(shift) == 0 && Reserved(shift) <= off / Size(shift) < Cap(shift) && Used(w, b, shift, off / Size(shift))
  }

  /** Address p, counted from the start of the page area, starts a block that is allocated. */
  ghost predicate Live(s: Snap, p: nat)
    requires Sized(s)
  {
    var h := p / PAGE;
    Head(s, h) && match s.runs[h]
      case FreeRun(_) => false
      case BusyRun(_) => p % PAGE == 0
      case ChunkPage(shift) => ChunkLive(s.slab[h], s.bits[h], shift, p % PAGE)
  }

  /** The length of the block at p. */
  ghost function Extent(s: Snap, p: nat): nat
    requires Sized(s) && Live(s, p)
  {
    if s.runs[p / PAGE].ChunkPage? then Size(s.runs[p / PAGE].shift) else s.runs[p / PAGE].len * PAGE
  }

  lemma ChunkEnd(shift: Shift, off: nat)
    requires off % Size(shift) == 0 && off / Size(shift) < Cap(shift)
    ensures off + Size(shift) <= PAGE
  {}

  lemma ChunkAddress(shift: Shift, c: nat)
    requires c < Cap(shift)
    ensures 0 <= c * Size(shift) < PAGE && c * Size(shift) % Size(shift) == 0 && c * Size(shift) / Size(shift) == c
  {
    Words.MultipleMod(Size(shift), c);
    Words.Quotients(Size(shift), Cap(shift), c * Size(shift));
  }

  /** Live blocks lie inside the page area, and no two of them overlap. */
  lemma LiveBlocksDisjoint(s: Snap, p: nat, q: nat)
    requires Inv(s) && Live(s, p) && Live(s, q) && p < q
    ensures p + Extent(s, p) <= q && q + Extent(s, q) <= |s.slab| * PAGE
  {
    InsideArea(s, q);
    var h, g := p / PAGE, q / PAGE;
    if h == g {
      var shift := s.runs[h].shift;
      assert s.runs[h] == ChunkPage(shift);
      ChunksApart(shift, p % PAGE, q % PAGE);
    } else {
      assert h < g;
      if s.runs[h].BusyRun? {
        assert s.owner[g] == g;
        assert g >= h + s.runs[h].len;
      } else {
        ChunkEnd(s.runs[h].shift, p % PAGE);
      }
    }
  }

  lemma ChunksApart(shift: Shift, o1: nat, o2: nat)
    requires o1 < o2 && o1 % Size(shift) == 0 && o2 % Size(shift) == 0
    ensures o1 + Size(shift) <= o2
  {}

  lemma InsideArea(s: Snap, p: nat)
    requires Inv(s) && Live(s, p)
    ensures p + Extent(s, p) <= |s.slab| * PAGE
  {}

  /** A live chunk is aligned to its size and lies beyond the bitmap its page may start with. */
  lemma LiveChunkAligned(s: Snap, p: nat)
    requires Inv(s) && Live(s, p) && s.runs[p / PAGE].ChunkPage?
    ensures p % Extent(s, p) == 0
    ensures s.runs[p / PAGE].shift < EXACT_SHIFT ==> p % PAGE >= MapWords(s.runs[p / PAGE].shift) * 8
  {
    var shift, h := s.runs[p / PAGE].shift, p / PAGE;
    assert p == PAGE * h + p % PAGE;
    PageAligned(shift, h, p % PAGE);
    if shift < EXACT_SHIFT {
      BitmapFits(shift);
      OffsetAtLeast(shift, p % PAGE);
    }
  }

  lemma PageAligned(shift: Shift, h: nat, off: nat)
    requires off % Size(shift) == 0
    ensures (PAGE * h + off) % Size(shift) == 0
  {
    Words.MultipleSum(Size(shift), Cap(shift), h, off);
  }

  lemma OffsetAtLeast(shift: Shift, off: nat)
    requires off % Size(shift) == 0 && Reserved(shift) <= off / Size(shift)
    ensures off >= Reserved(shift) * Size(shift)
  {}

  /** The same blocks are allocated, except perhaps at p. */
  ghost predicate LiveSameBut(s: Snap, s': Snap, p: int)
    requires Sized(s) && Sized(s')
  {
    forall q: nat {:trigger Live(s', q)} :: q != p ==>
      (Live(s', q) <==> Live(s, q)) && (Live(s, q) ==> Extent(s', q) == Extent(s, q))
  }

  /** Exactly the block at p was allocated. */
  ghost predicate Gained(s: Snap, s': Snap, p: nat)
    requires Sized(s) && Sized(s')
  {
    !Live(s, p) && Live(s', p) && LiveSameBut(s, s', p)
  }

  /** Exactly the block at p was released. */
  ghost predicate Lost(s: Snap, s': Snap, p: nat)
    requires Sized(s) && Sized(s')
  {
    Live(s, p) && !Live(s', p) && LiveSameBut(s, s', p)
  }

  /** All pages but x are as before, or start no run before and after. */
  ghost predicate OnlyPage(s: Snap, s': Snap, x: int)
    requires Sized(s) && Sized(s') && |s'.slab| == |s.slab|
  {
    forall h {:trigger SamePage(s, s', h)} :: 0 <= h < |s.slab| && h != x ==>
      SamePage(s, s', h) || (!Head(s, h) && !Head(s', h)) || (Idle(s, h) && Idle(s', h))
  }

  /** No block starts on page h. */
  ghost predicate Idle(s: Snap, h: int)
    requires Sized(s) && 0 <= h < |s.slab|
  {
    Head(s, h) ==> s.runs[h].FreeRun?
  }

  lemma LiveOtherPages(s: Snap, s': Snap, x: int, q: nat)
    requires Sized(s) && Sized(s') && |s'.slab| == |s.slab| && OnlyPage(s, s', x) && q / PAGE != x
    ensures Live(s', q) <==> Live(s, q)
    ensures Live(s, q) ==> Extent(s', q) == Extent(s, q)
  {
    if q / PAGE < |s.slab| {
      assert SamePage(s, s', q / PAGE) || (Idle(s, q / PAGE) && Idle(s', q / PAGE));
    }
  }

  /** A free run became busy. */
  lemma RunGained(s: Snap, s': Snap, x: nat)
    requires Sized(s) && Sized(s') && |s'.slab| == |s.slab| && OnlyPage(s, s', x) && x < |s.slab|
    requires Idle(s, x) && Head(s', x) && s'.runs[x].BusyRun?
    ensures Gained(s, s', x * PAGE) && Extent(s', x * PAGE) == s'.runs[x].len * PAGE
  {
    assert x * PAGE / PAGE == x && x * PAGE % PAGE == 0;
    forall q: nat | q != x * PAGE
      ensures (Live(s', q) <==> Live(s, q)) && (Live(s, q) ==> Extent(s', q) == Extent(s, q))
    {
      if q / PAGE == x {
        assert q == PAGE * x + q % PAGE;
      } else {
        LiveOtherPages(s, s', x, q);
      }
    }
  }

  // ------------------------------------------------------------------ writes into live blocks

  /** The pool after word i of page x was stored. */
  function Stored(s: Snap, x: nat, i: nat, v: nat): Snap
    requires x < |s.bits| && i < |s.bits[x]|
  {
    var b: seq<nat> := s.bits[x][i := v];
    s.(bits := s.bits[x := b])
  }

  /** Word i of page x is not part of a bitmap. */
  ghost predicate NoMap(s: Snap, x: nat, i: nat)
    requires Sized(s) && x < |s.slab|
  {
    Head(s, x) && s.runs[x].ChunkPage? && s.runs[x].shift < EXACT_SHIFT ==> MapWords(s.runs[x].shift) <= i
  }

  /** Page h says the same before and after. */
  lemma StoredPage(s: Snap, x: nat, i: nat, v: nat, h: int)
    requires Inv(s) && x < |s.slab| && i < 8 && v <= BUSY && NoMap(s, x, i) && Head(s, h)
    ensures var t := Stored(s, x, i, v); Sized(t) && PageOk(t, h) && Home(t, h) == Home(s, h)
    ensures s.runs[h].ChunkPage? ==> forall c: nat :: c < Cap(s.runs[h].shift) ==>
      (Used(s.slab[h], Stored(s, x, i, v).bits[h], s.runs[h].shift, c) <==> Used(s.slab[h], s.bits[h], s.runs[h].shift, c))
  {
    assert PageOk(s, h);
    if s.runs[h].ChunkPage? && h == x {
      MapUntouched(s.slab[x], s.bits[x], Stored(s, x, i, v).bits[x], s.runs[x].shift, i);
    }
  }

  lemma StoredLive(s: Snap, x: nat, i: nat, v: nat, q: nat)
    requires Inv(s) && x < |s.slab| && i < 8 && v <= BUSY && NoMap(s, x, i)
    ensures var t := Stored(s, x, i, v); Sized(t) && (Live(t, q) <==> Live(s, q)) && (Live(s, q) ==> Extent(t, q) == Extent(s, q))
  {
    if Head(s, q / PAGE) {
      StoredPage(s, x, i, v, q / PAGE);
    }
  }

  /** A store outside the bitmaps keeps the whole invariant, and the same blocks are allocated. */
  lemma StoreKeeps(s: Snap, x: nat, i: nat, v: nat)
    requires Inv(s) && x < |s.slab| && i < 8 && v <= BUSY && NoMap(s, x, i)
    ensures var t := Stored(s, x, i, v); Inv(t) && LiveSameBut(s, t, NULL)
  {
    var t := Stored(s, x, i, v);
    forall h | 0 <= h < |s.slab| ensures Home(t, h) == Home(s, h) {
      if Head(s, h) {
        StoredPage(s, x, i, v, h);
      }
    }
    forall h | Head(t, h) ensures PageOk(t, h) {
      StoredPage(s, x, i, v, h);
    }
    forall q: nat ensures (Live(t, q) <==> Live(s, q)) && (Live(s, q) ==> Extent(t, q) == Extent(s, q)) {
      StoredLive(s, x, i, v, q);
    }
  }

  /** No byte of a live block is part of a bitmap. */
  lemma BlockHasNoMap(s: Snap, p: nat, off: nat)
    requires Inv(s) && Live(s, p) && off < Extent(s, p)
    ensures (p + off) / PAGE < |s.slab| && NoMap(s, (p + off) / PAGE, (p + off) % PAGE / 8)
  {
    InsideArea(s, p);
    var h, x := p / PAGE, (p + off) / PAGE;
    if s.runs[h].ChunkPage? {
      ChunkEnd(s.runs[h].shift, p % PAGE);
      LiveChunkAligned(s, p);
    } else {
      assert h <= x < h + s.runs[h].len;
      assert s.owner[x] == h;
    }
  }

  // ------------------------------------------------------------------ where the pages lie

  // The size of a page descriptor, and that of the slots before the descriptors.
  const DESCRIPTOR: nat := 24
  const SLOTS: nat := 216

  /** The pages and their descriptors that would fit from p to end. */
  function Estimate(p: nat, end: nat): (pages: nat)
    requires p <= end
  {
    (end - p) / 4120
  }

  /** The first page begins after the slots and the descriptors, on a page boundary. */
  function AreaStart(p: nat, end: nat): (start: nat)
    requires p <= end
  {
    (p + SLOTS + Estimate(p, end) * DESCRIPTOR + 4095) / 4096 * 4096
  }

  /** The estimate is cut to what lies before the end; a start beyond the end makes the unsigned quotient huge. */
  function PageCount(p: nat, end: nat): (pages: nat)
    requires p <= end
  {
    var start := AreaStart(p, end);
    if start > end then Estimate(p, end)
    else
      var room := (end - start) / 4096;
      if Estimate(p, end) > room then room else Estimate(p, end)
  }

  /**
   * The pages lie between the descriptors and the end of the pool exactly when the first one does not begin beyond
   * the end. Room for two pages and their descriptors is enough for that, and then at most two pages are given up.
   */
  lemma PagesFit(p: nat, end: nat)
    requires p <= end
    ensures p + SLOTS + PageCount(p, end) * DESCRIPTOR <= AreaStart(p, end) && AreaStart(p, end) % 4096 == 0
    ensures AreaStart(p, end) + PageCount(p, end) * PAGE <= end <==> AreaStart(p, end) <= end
    ensures Estimate(p, end) >= 2 ==> AreaStart(p, end) <= end && Estimate(p, end) - 2 <= PageCount(p, end) <= Estimate(p, end)
  {
  }

  class Pool {
    var slab: seq<nat>
    var next: seq<int>
    var prev: seq<int>
    var tag: seq<nat>
    var bits: seq<seq<nat>>
    ghost var runs: seq<Run>
    ghost var owner: seq<nat>
    ghost var lists: seq<seq<int>>

    ghost function Shot(): Snap
      reads this
    {
      Snap(slab, next, prev, tag, bits, runs, owner, lists)
    }

    ghost predicate Valid()
      reads this
    {
      Inv(Shot())
    }

    /** ngx_slab_init, for a pool with n pages: one free run, nothing allocated. */
    constructor (n: nat)
      requires n >= 1
      ensures Valid() && |slab| == n && forall p: nat :: !Live(Shot(), p)
    {
      slab := seq(n, i => if i == 0 then n else 0);
      next := seq(n + LISTS, i => if i == 0 then n + FREE else if i < n then NULL else if i == n + FREE then 0 else i);
      prev := seq(n + LISTS, i => if i == 0 then n + FREE else NULL);
      tag := seq(n + LISTS, _ => PAGE_TYPE);
      bits := seq(n, _ => [0, 0, 0, 0, 0, 0, 0, 0]);
      runs := seq(n, _ => FreeRun(n));
      owner := seq(n, _ => 0);
      lists := [[], [], [], [], [], [], [], [], [], [0]];
      new;
      InitKeeps(Shot(), n);
    }

    /** The stores that cut a run in two. */
    method CutLinks(page: int, pages: nat)
      requires 0 <= page < |slab| && 1 <= pages && page + pages < |slab| && pages < slab[page]
      requires |next| == |prev| == |tag| == |slab| + LISTS
      requires 0 <= next[page] < |next| && 0 <= prev[page] < |next|
      requires var rest := page + pages;
        next[page] != page && prev[page] != page && next[page] != rest && prev[page] != rest
      modifies `slab, `next, `prev, `tag
      ensures CutStores(old(Shot()), Shot(), page, pages)
    {
      var rest := page + pages;
      slab := slab[rest := slab[page] - pages];
      next := next[rest := next[page]];
      prev := prev[rest := prev[page]];
      tag := tag[rest := tag[page]];

      next := next[prev[page] := rest];
      prev := prev[next[page] := rest];
      tag := tag[next[page] := PAGE_TYPE];

      slab := slab[page := pages + PAGE_START];
      next := next[page := NULL];
      prev := prev[page := NULL];
      tag := tag[page := PAGE_TYPE];
      CutStoresHold(old(Shot()), Shot(), page, rest);
    }

    /** Join the neighbours of a listed page. */
    method UnlinkStores(page: int)
      requires 0 <= page < |slab| && |next| == |prev| == |tag| == |slab| + LISTS
      requires 0 <= next[page] < |next| && 0 <= prev[page] < |next| && next[page] != page && prev[page] != page
      modifies `next, `prev, `tag
      ensures Joined(old(Shot()), Shot(), page)
    {
      next := next[prev[page] := next[page]];
      prev := prev[next[page] := prev[page]];
      tag := tag[next[page] := tag[page]];
    }

    /** The stores that take a run whole. */
    method TakeStores(page: int, pages: nat)
      requires 0 <= page < |slab| && |next| == |prev| == |tag| == |slab| + LISTS
      requires 0 <= next[page] < |next| && 0 <= prev[page] < |next| && next[page] != page && prev[page] != page
      modifies `slab, `next, `prev, `tag
      ensures Took(old(Shot()), Shot(), page, pages + PAGE_START, PAGE_TYPE)
    {
      UnlinkStores(page);
      slab := slab[page := pages + PAGE_START];
      next := next[page := NULL];
      prev := prev[page := NULL];
      tag := tag[page := PAGE_TYPE];
    }

    /** Free run i is taken whole. */
    method TakeRun(page: int, pages: nat, ghost i: int)
      requires Valid() && 0 <= i < |lists[FREE]| && page == lists[FREE][i] && 0 <= page < |slab|
      requires 1 <= pages == slab[page]
      modifies this
      ensures Valid() && |slab| == old(|slab|) && bits == old(bits)
      ensures Head(Shot(), page) && runs[page] == BusyRun(pages) && OnlyPage(old(Shot()), Shot(), page)
      ensures forall j :: 0 <= j < LISTS && j != FREE ==> lists[j] == old(lists[j])
    {
      ghost var s := Shot();
      CutReady(s, i, pages);
      TakeStores(page, pages);
      runs := runs[page := BusyRun(pages)];
      ghost var l := Drop(lists[FREE], i);
      lists := lists[FREE := l];
      TakeKeeps(s, Shot(), i);
    }

    /** The first pages of run i are cut off and marked busy. */
    method CutRun(page: int, pages: nat, ghost i: int)
      requires Valid() && 0 <= i < |lists[FREE]| && page == lists[FREE][i] && 0 <= page < |slab|
      requires 1 <= pages < slab[page]
      modifies this
      ensures Valid() && |slab| == old(|slab|) && bits == old(bits)
      ensures Head(Shot(), page) && runs[page] == BusyRun(pages) && OnlyPage(old(Shot()), Shot(), page)
      ensures forall j :: 0 <= j < LISTS && j != FREE ==> lists[j] == old(lists[j])
    {
      ghost var s := Shot();
      CutReady(s, i, pages);
      CutLinks(page, pages);
      ghost var t := CutGhost(s, Shot(), i, pages);
      runs := t.runs;
      owner := t.owner;
      lists := t.lists;
      CutKeeps(s, t, i, pages);
    }

    method MarkPage(p: nat)
      requires Valid() && p < |slab| && owner[p] != p
      modifies `slab, `next, `prev, `tag
      ensures Valid() && slab == old(slab)[p := BUSY] && tag == old(tag)[p := PAGE_TYPE]
    {
      ghost var t := Shot();
      slab := slab[p := BUSY];
      next := next[p := NULL];
      prev := prev[p := NULL];
      tag := tag[p := PAGE_TYPE];
      TailWritten(t, Shot(), p);
    }

    /** The pages of a run after its first one are marked as its tail. */
    method MarkTail(page: int, pages: nat)
      requires Valid() && Head(Shot(), page) && runs[page] == BusyRun(pages)
      modifies `slab, `next, `prev, `tag
      ensures Valid() && |slab| == old(|slab|) && OnlyPage(old(Shot()), Shot(), -1)
      ensures Head(Shot(), page) && runs[page] == BusyRun(pages)
    {
      ghost var s := Shot();
      var p := page + 1;
      var left := pages - 1;
      while left > 0
        invariant Valid() && |slab| == |s.slab| && p + left == page + pages && page < p
        invariant Shot().runs == s.runs && Shot().owner == s.owner && Shot().bits == s.bits && Shot().lists == s.lists
        invariant forall r :: 0 <= r < |slab| && s.owner[r] == r ==> slab[r] == s.slab[r] && tag[r] == s.tag[r]
        decreases left
      {
        TailPage(Shot(), page, p, pages);
        MarkPage(p);
        p := p + 1;
        left := left - 1;
      }
      SameButTails(s, Shot());
    }

    /** Free run i is cut or taken, and its pages marked. */
    method Claim(page: int, pages: nat, ghost i: int)
      requires Valid() && 0 <= i < |lists[FREE]| && page == lists[FREE][i] && 0 <= page < |slab|
      requires 1 <= pages <= slab[page]
      modifies this
      ensures Valid() && |slab| == old(|slab|) && bits == old(bits)
      ensures Head(Shot(), page) && runs[page] == BusyRun(pages) && OnlyPage(old(Shot()), Shot(), page)
      ensures forall j :: 0 <= j < LISTS && j != FREE ==> lists[j] == old(lists[j])
    {
      ghost var s := Shot();
      if slab[page] > pages {
        CutRun(page, pages, i);
      } else {
        TakeRun(page, pages, i);
      }
      ghost var m := Shot();
      MarkTail(page, pages);
      OnlyThen(s, m, Shot(), page);
    }

    /** ngx_slab_alloc_pages: the first free run that is long enough. */
    method AllocPages(pages: nat) returns (page: int)
      requires Valid() && pages >= 1
      modifies this
      ensures Valid() && |slab| == old(|slab|)
      ensures page == NULL ==> Shot() == old(Shot()) && NoRunOf(Shot(), pages)
      ensures page != NULL ==>
        && !NoRunOf(old(Shot()), pages) && FirstFit(old(Shot()), pages, page)
        && Head(Shot(), page) && runs[page] == BusyRun(pages) && bits == old(bits)
        && OnlyPage(old(Shot()), Shot(), page) && Idle(old(Shot()), page)
      ensures forall j :: 0 <= j < LISTS && j != FREE ==> lists[j] == old(lists[j])
    {
      ghost var s := Shot();
      ghost var i := 0;
      page := next[|slab| + FREE];
      FreeWalk(s, 0);
      while page != |slab| + FREE
        invariant Shot() == s && 0 <= i <= |lists[FREE]|
        invariant page == if i < |lists[FREE]| then lists[FREE][i] else Anchor(|slab|, FREE)
        invariant forall j :: 0 <= j < i ==> 0 <= lists[FREE][j] < |slab| && slab[lists[FREE][j]] < pages
        decreases |lists[FREE]| - i
      {
        FreeWalk(s, i);
        if slab[page] >= pages {
          assert FirstFitAt(s, pages, i);
          Claim(page, pages, i);
          return;
        }
        page := next[page];
        i := i + 1;
      }
      NoneFits(s, pages);
      page := NULL;
    }

    /** The stores that take a full page out of its list. */
    method CloseStores(page: int, shift: Shift)
      requires 0 <= page < |slab| && |next| == |prev| == |tag| == |slab| + LISTS
      requires 0 <= next[page] < |next| && 0 <= prev[page] < |next| && next[page] != page && prev[page] != page
      modifies `next, `prev, `tag
      ensures Took(old(Shot()), Shot(), page, slab[page], Type(shift))
    {
      UnlinkStores(page);
      next := next[page := NULL];
      prev := prev[page := NULL];
      tag := tag[page := Type(shift)];
    }

    method ClosePage(page: int, shift: Shift, ghost s: Snap, ghost c: nat)
      requires Inv(s) && s.lists[Slot(shift)] != [] && page == s.lists[Slot(shift)][0] && Marked(s, Shot(), page, shift, c)
      requires AllUsed(slab[page], bits[page], shift)
      modifies `next, `prev, `tag, `lists
      ensures Valid() && OnlyPage(s, Shot(), page)
    {
      ListedChunk(s, shift, 0);
      ghost var m := Shot();
      CloseStores(page, shift);
      ghost var l := Drop(lists[Slot(shift)], 0);
      lists := lists[Slot(shift) := l];
      LastChunkKeeps(s, m, Shot(), shift, c);
    }

    /** Find the first free chunk of a page and mark it. */
    method MarkChunk(page: int, shift: Shift) returns (c: nat, full: bool)
      requires Valid() && lists[Slot(shift)] != [] && page == lists[Slot(shift)][0]
      modifies `slab, `bits
      ensures Marked(old(Shot()), Shot(), page, shift, c) && (full <==> AllUsed(slab[page], bits[page], shift))
      ensures Reserved(shift) <= c
    {
      ListedChunk(Shot(), shift, 0);
      var w, b;
      w, b, c, full := Take(slab[page], bits[page], shift);
      TakenMore(slab[page], bits[page], shift, w, b, c);
      slab := slab[page := w];
      bits := bits[page := b];
    }

    /** A page that is full now leaves its list; the invariant holds again either way. */
    method SettlePage(page: int, shift: Shift, ghost s: Snap, ghost c: nat, full: bool)
      requires Inv(s) && s.lists[Slot(shift)] != [] && page == s.lists[Slot(shift)][0] && Marked(s, Shot(), page, shift, c)
      requires full <==> AllUsed(slab[page], bits[page], shift)
      modifies `next, `prev, `tag, `lists
      ensures Valid() && OnlyPage(s, Shot(), page)
    {
      ListedChunk(s, shift, 0);
      if full {
        ClosePage(page, shift, s, c);
      } else {
        ChunkKeeps(s, Shot(), page, shift, c);
      }
    }

    /** Take the first free chunk of the first page of a slot list. */
    method TakeChunk(page: int, shift: Shift) returns (p: nat)
      requires Valid() && lists[Slot(shift)] != [] && page == lists[Slot(shift)][0]
      modifies this
      ensures Valid() && |slab| == old(|slab|)
      ensures Gained(old(Shot()), Shot(), p) && Extent(Shot(), p) == Size(shift)
    {
      ghost var s := Shot();
      var c, full := MarkChunk(page, shift);
      ghost var m := Shot();
      SettlePage(page, shift, s, c, full);
      p := page * PAGE + c * Size(shift);
      OneChunkGained(s, m, Shot(), shift, c);
    }

    /** The stores that lay a page out for chunks and hang it on its empty list. */
    method LayStores(page: int, shift: Shift) returns (c: nat)
      requires 0 <= page < |slab| && |bits| == |slab| && |next| == |prev| == |tag| == |slab| + LISTS && WordsOk(bits[page])
      modifies `slab, `bits, `next, `prev, `tag
      ensures Laid(old(Shot()), Shot(), page, shift, c)
    {
      var w, b;
      w, b, c := Fresh(bits[page], shift);
      slab := slab[page := w];
      bits := bits[page := b];
      next := next[page := |slab| + Slot(shift)];
      prev := prev[page := |slab| + Slot(shift)];
      tag := tag[page := Type(shift)];
      next := next[|slab| + Slot(shift) := page];
    }

    /** Lay out a page that was just allocated, and take its first chunk. */
    method LayOut(page: int, shift: Shift) returns (p: nat, ghost c: nat)
      requires Valid() && Head(Shot(), page) && runs[page] == BusyRun(1) && lists[Slot(shift)] == []
      modifies this
      ensures Valid() && |slab| == old(|slab|) && OnlyPage(old(Shot()), Shot(), page) && Head(Shot(), page)
      ensures runs[page] == ChunkPage(shift) && FirstOnly(slab[page], bits[page], shift, c) && p == page * PAGE + c * Size(shift)
    {
      ghost var s := Shot();
      var first := LayStores(page, shift);
      c := first;
      runs := runs[page := ChunkPage(shift)];
      lists := lists[Slot(shift) := [page]];
      LayKeeps(s, Shot(), page, shift, c);
      p := page * PAGE + first * Size(shift);
    }

    /** A request for a chunk when no page of its size has room. */
    method NewPage(shift: Shift) returns (r: int)
      requires Valid() && lists[Slot(shift)] == []
      modifies this
      ensures Valid() && |slab| == old(|slab|)
      ensures r == NULL ==> Shot() == old(Shot()) && NoRunOf(Shot(), 1)
      ensures r != NULL ==> 0 <= r && !NoRunOf(old(Shot()), 1)
      ensures r != NULL ==> Gained(old(Shot()), Shot(), r) && Extent(Shot(), r) == Size(shift)
    {
      ghost var s := Shot();
      var page := AllocPages(1);
      if page == NULL {
        return NULL;
      }
      ghost var m := Shot();
      ghost var c;
      r, c := LayOut(page, shift);
      OnlyBoth(s, m, Shot(), page);
      PageGained(s, Shot(), page, shift, c);
    }

    /** ngx_slab_alloc_locked */
    method AllocLocked(size: nat) returns (r: int)
      requires Valid()
      modifies this
      ensures Valid() && |slab| == old(|slab|)
      ensures r == NULL ==> Shot() == old(Shot())
      ensures r == NULL <==> var s := old(Shot());
        forall h {:trigger s.runs[h]} :: Head(s, h) ==> match s.runs[h]
          case FreeRun(len) => 2048 <= size && len * 4096 < size
          case BusyRun(_) => true
          case ChunkPage(shift) => size < 2048 && size <= Size(shift) && (Size(shift) == 8 || Size(shift) < 2 * size) ==> Full(s, h)
      ensures r != NULL ==> 0 <= r && Gained(old(Shot()), Shot(), r) && size <= Extent(Shot(), r)
      ensures r != NULL && size < 2048 ==> Extent(Shot(), r) == 8 || Extent(Shot(), r) < 2 * size
      ensures r != NULL && size >= 2048 ==> Extent(Shot(), r) < size + 4096
    {
      ghost var s := Shot();
      ExhaustedMeans(s, size);
      if size >= MAX_SIZE {
        r := AllocRun(size);
        return;
      }
      var shift := ShiftFor(size);
      ExhaustedClass(s, size, shift);
      r := AllocChunk(shift);
    }

    /** A request for a chunk of one size class. */
    method AllocChunk(shift: Shift) returns (r: int)
      requires Valid()
      modifies this
      ensures Valid() && |slab| == old(|slab|)
      ensures r == NULL ==> Shot() == old(Shot()) && NoRunOf(Shot(), 1) && lists[Slot(shift)] == []
      ensures r != NULL ==> 0 <= r && (old(lists[Slot(shift)]) != [] || !NoRunOf(old(Shot()), 1))
      ensures r != NULL ==> Gained(old(Shot()), Shot(), r) && Extent(Shot(), r) == Size(shift)
    {
      SlotFirst(Shot(), shift);
      var page := next[|slab| + Slot(shift)];
      if next[page] != page {
        r := TakeChunk(page, shift);
      } else {
        r := NewPage(shift);
      }
    }

    /** A request for whole pages. */
    method AllocRun(size: nat) returns (r: int)
      requires Valid() && size >= MAX_SIZE
      modifies this
      ensures Valid() && |slab| == old(|slab|)
      ensures r == NULL ==> Shot() == old(Shot()) && NoRunOf(Shot(), PagesFor(size))
      ensures r != NULL ==> 0 <= r && !NoRunOf(old(Shot()), PagesFor(size))
      ensures r != NULL ==> Gained(old(Shot()), Shot(), r) && size <= Extent(Shot(), r) < size + 4096
    {
      ghost var s := Shot();
      var page := AllocPages(PagesFor(size));
      if page == NULL {
        return NULL;
      }
      RunGained(s, Shot(), page);
      r := page * PAGE;
    }

    /** The stores of ngx_slab_free_pages after the tail was cleared. */
    method ListFree(page: int)
      requires 0 <= page < |slab| && |next| == |prev| == |tag| == |slab| + LISTS
      requires next[page] != NULL ==> 0 <= next[page] < |next| && 0 <= prev[page] < |next| && next[page] != page && prev[page] != page
      requires var a := |slab| + FREE; 0 <= next[a] < |next| && next[a] != page && (next[page] != NULL ==> prev[page] != a && next[page] != a)
      modifies `next, `prev, `tag
      ensures Listed(old(Shot()), Shot(), page)
    {
      if next[page] != NULL {
        UnlinkStores(page);
      }
      prev := prev[page := |slab| + FREE];
      tag := tag[page := PAGE_TYPE];
      next := next[page := next[|slab| + FREE]];
      prev := prev[next[page] := page];
      tag := tag[next[page] := PAGE_TYPE];
      next := next[|slab| + FREE := page];
    }

    /** One page of the tail is cleared. */
    method ClearPage(page: int, p: int, ghost u: Snap) returns (ghost u': Snap)
      requires Inv(u) && Detached(Shot(), u, page) && 0 <= p < |u.slab| && u.owner[p] != p && p != page && next[page] == NULL
      modifies `slab, `next, `prev, `tag
      ensures Inv(u') && u'.runs == u.runs && u'.owner == u.owner && u'.lists == u.lists && |slab| == |u'.slab| == |u.slab|
      ensures Detached(Shot(), u', page) && OnlyPage(u, u', -1) && slab[page] == old(slab[page]) && next[page] == NULL
    {
      slab := slab[p := 0];
      next := next[p := NULL];
      prev := prev[p := NULL];
      tag := tag[p := PAGE_TYPE];
      u' := u.(slab := u.slab[p := 0], next := u.next[p := NULL], prev := u.prev[p := NULL], tag := u.tag[p := PAGE_TYPE]);
      TailWritten(u, u', p);
      TailOnly(u, u', p);
    }

    /** The descriptors of a freed run after its first one are cleared. */
    method ClearTail(page: int, pages: nat, ghost v: Snap) returns (ghost u: Snap)
      requires Inv(v) && Head(v, page) && v.runs[page] == BusyRun(pages) && Detached(Shot(), v, page)
      requires slab[page] == pages && (pages > 1 ==> next[page] == NULL)
      modifies `slab, `next, `prev, `tag
      ensures Inv(u) && Head(u, page) && u.runs == v.runs && u.owner == v.owner && u.lists == v.lists && |slab| == |v.slab|
      ensures Detached(Shot(), u, page) && slab[page] == pages && OnlyPage(v, u, -1)
    {
      u := v;
      var j := 1;
      while j < pages
        invariant 1 <= j && Inv(u) && u.runs == v.runs && u.owner == v.owner && u.lists == v.lists && |slab| == |v.slab|
        invariant Detached(Shot(), u, page) && slab[page] == pages && OnlyPage(v, u, -1) && (pages > 1 ==> next[page] == NULL)
      {
        TailPage(u, page, page + j, pages);
        ghost var u' := ClearPage(page, page + j, u);
        OnlyThen(v, u, u', -1);
        u := u';
        j := j + 1;
      }
    }

    /** A run whose tail is cleared leaves its list, if it is in one, and becomes the first free run. */
    method PushFree(page: int, pages: nat, ghost u: Snap)
      requires Inv(u) && Head(u, page) && u.runs[page] == BusyRun(pages) && Detached(Shot(), u, page) && slab[page] == pages
      modifies `next, `prev, `tag, `runs, `lists
      ensures Valid() && OnlyPage(u, Shot(), page) && Head(Shot(), page) && runs[page] == FreeRun(pages)
      ensures lists == u.lists[FREE := [page] + u.lists[FREE]]
    {
      DetachedReady(Shot(), u, page);
      ghost var m := Shot();
      ListFree(page);
      runs := u.runs[page := FreeRun(pages)];
      ghost var l := [page] + u.lists[FREE];
      lists := u.lists[FREE := l];
      FreeKeeps(u, m, Shot(), page, pages);
    }

    /**
     * ngx_slab_free_pages. v is the pool as it would be if the pages were a busy run in no list:
     * the pool itself for a run, and the pool without the emptied page's list entry for a chunk page.
     */
    method FreePages(page: int, pages: nat, ghost v: Snap)
      requires Inv(v) && Head(v, page) && v.runs[page] == BusyRun(pages) && Detached(Shot(), v, page)
      requires pages > 1 ==> next[page] == NULL
      modifies this
      ensures Valid() && |slab| == old(|slab|) && OnlyPage(v, Shot(), page) && Head(Shot(), page) && runs[page] == FreeRun(pages)
      ensures lists == v.lists[FREE := [page] + v.lists[FREE]]
    {
      slab := slab[page := pages];
      ghost var u := ClearTail(page, pages, v);
      PushFree(page, pages, u);
      OnlyThen2(v, u, Shot(), page);
    }

    /** The stores that put a page that was full back into its list. */
    method ReopenStores(page: int, shift: Shift)
      requires 0 <= page < |slab| && |next| == |prev| == |tag| == |slab| + LISTS
      requires var a := |slab| + Slot(shift); 0 <= next[a] < |next| && next[a] != page
      modifies `next, `prev, `tag
      ensures Reopened(old(Shot()), Shot(), page, shift)
    {
      next := next[page := next[|slab| + Slot(shift)]];
      next := next[|slab| + Slot(shift) := page];
      prev := prev[page := |slab| + Slot(shift)];
      tag := tag[page := Type(shift)];
      prev := prev[next[page] := page];
      tag := tag[next[page] := Type(shift)];
    }

    /** A chunk comes back to a full page. */
    method ReturnToFull(page: int, shift: Shift, c: nat)
      requires Valid() && Head(Shot(), page) && runs[page] == ChunkPage(shift) && Full(Shot(), page)
      requires Reserved(shift) <= c < Cap(shift)
      modifies this
      ensures Valid() && |slab| == old(|slab|) && OnlyPage(old(Shot()), Shot(), page) && Head(Shot(), page)
      ensures runs[page] == ChunkPage(shift) && Returned(old(slab[page]), old(bits[page]), shift, slab[page], bits[page], c)
    {
      ghost var s := Shot();
      OpenReady(s, page, shift);
      ReopenStores(page, shift);
      ghost var m := Shot();
      var w, b, empty := Return(slab[page], bits[page], shift, c);
      slab := slab[page := w];
      bits := bits[page := b];
      ghost var l := [page] + lists[Slot(shift)];
      lists := lists[Slot(shift) := l];
      ReopenKeeps(s, m, Shot(), page, shift, c);
    }

    /** A chunk comes back to a page that has room. */
    method ReturnToOpen(page: int, shift: Shift, c: nat) returns (empty: bool)
      requires Valid() && Head(Shot(), page) && runs[page] == ChunkPage(shift) && !Full(Shot(), page)
      requires Reserved(shift) <= c < Cap(shift)
      modifies this
      ensures Valid() && |slab| == old(|slab|) && OnlyPage(old(Shot()), Shot(), page) && Head(Shot(), page)
      ensures empty ==> runs[page] == FreeRun(1) && OneUsed(old(slab[page]), old(bits[page]), shift, c)
      ensures !empty ==> runs[page] == ChunkPage(shift) && Returned(old(slab[page]), old(bits[page]), shift, slab[page], bits[page], c)
    {
      ghost var s := Shot();
      OpenPage(s, page, shift);
      var w, b;
      w, b, empty := Return(slab[page], bits[page], shift, c);
      slab := slab[page := w];
      bits := bits[page := b];
      if empty {
        ghost var i :| 0 <= i < |lists[Slot(shift)]| && lists[Slot(shift)][i] == page;
        ghost var v := WithdrawnSnap(s, b, i, shift);
        WithdrawnIs(s, b, i, shift);
        PageWithdrawn(s, v, i, shift);
        WithdrawnDetached(s, Shot(), b, i, shift);
        FreePages(page, 1, v);
        OnlyBoth(s, v, Shot(), page);
        EmptyOne(s.slab[page], s.bits[page], shift, w, b, c);
      } else {
        ReturnKeeps(s, Shot(), page, shift, c);
      }
    }

    /**
     * ngx_slab_free_locked, for an address on a page that holds chunks or starts a busy run and, on a
     * chunk page, is not one of the bitmap's own chunks: the block is released exactly if it is allocated.
     */
    method FreeLocked(p: nat) returns (ok: bool)
      requires Valid() && Freeable(Shot(), p)
      modifies this
      ensures Valid() && |slab| == old(|slab|)
      ensures ok <==> old(Live(Shot(), p))
      ensures ok ==> Lost(old(Shot()), Shot(), p)
      ensures !ok ==> Shot() == old(Shot())
    {
      ghost var s := Shot();
      var page := p / PAGE;
      PageTypes(s, page);
      if tag[page] == PAGE_TYPE {
        if p % PAGE != 0 {
          return false;
        }
        var pages := slab[page] - PAGE_START;
        FreePages(page, pages, s);
        RunLost(s, Shot(), page, p);
        return true;
      }
      var shift: Shift := if tag[page] == EXACT then EXACT_SHIFT else slab[page] % 16;
      if p % PAGE % Size(shift) != 0 {
        return false;
      }
      var c := p % PAGE / Size(shift);
      ChunkIndex(shift, p % PAGE);
      if !Used(slab[page], bits[page], shift, c) {
        return false;
      }
      FullByLink(s, page, shift);
      if (if shift == EXACT_SHIFT then slab[page] == BUSY else next[page] == NULL) {
        ReturnToFull(page, shift, c);
        ChunkLost(s, Shot(), page, shift, c, p);
      } else {
        var empty := ReturnToOpen(page, shift, c);
        if empty {
          LastLost(s, Shot(), page, shift, c, p);
        } else {
          ChunkLost(s, Shot(), page, shift, c, p);
        }
      }
      ok := true;
    }

    /** The user of a block stores into it: the word that holds byte off of the block at p becomes v. */
    method Write(p: nat, off: nat, v: nat)
      requires Valid() && Live(Shot(), p) && off < Extent(Shot(), p) && v <= BUSY
      modifies `bits
      ensures Valid() && LiveSameBut(old(Shot()), Shot(), NULL)
    {
      var page, i := (p + off) / PAGE, (p + off) % PAGE / 8;
      BlockHasNoMap(Shot(), p, off);
      // Of the page's words only the first eight are kept here.
      if i < 8 {
        StoreKeeps(Shot(), page, i, v);
        var b: seq<nat> := bits[page][i := v];
        bits := bits[page := b];
      }
    }
  }

  lemma InitKeeps(s: Snap, n: nat)
    requires Sized(s) && |s.slab| == n && n >= 1 && s.slab[0] == n && s.runs == seq(n, _ => FreeRun(n)) && s.owner == seq(n, _ => 0)
    requires s.next[0] == n + FREE && s.prev[0] == n + FREE && s.next[n + FREE] == 0 && s.tag[0] == PAGE_TYPE
    requires forall i :: n <= i < n + FREE ==> s.next[i] == i
    requires s.lists == [[], [], [], [], [], [], [], [], [], [0]]
    ensures Inv(s) && forall p: nat :: !Live(s, p)
  {
    assert forall x :: 0 <= x < n ==> Home(s, x) == if x == 0 then FREE else NULL;
    forall k | 0 <= k < LISTS ensures Chain(s.next, s.prev, |s.slab| + k, s.lists[k]) {
    }
    assert forall h :: Head(s, h) ==> h == 0;
  }

  datatype Request = Alloc(size: nat) | Release(p: nat) | Write(p: nat, off: nat, word: nat)

  /** The ledger holds exactly the live blocks, with the sizes they were asked for. */
  ghost predicate LedgerOf(s: Snap, ledger: map<nat, nat>)
    requires Sized(s)
  {
    && (forall p: nat :: Live(s, p) <==> p in ledger)
    && (forall p: nat {:trigger Extent(s, p)} :: p in ledger && Live(s, p) ==> ledger[p] <= Extent(s, p))
  }

  /**
   * Any run of allocations, releases of live blocks and stores into them: at its end the live blocks are exactly those handed
   * out and not yet given back, each as large as asked for, inside the page area, and none overlapping another.
   */
  method Serve(pool: Pool, requests: seq<Request>) returns (ledger: map<nat, nat>)
    requires pool.Valid() && forall p: nat :: !Live(pool.Shot(), p)
    modifies pool
    ensures pool.Valid() && LedgerOf(pool.Shot(), ledger)
    ensures forall p :: p in ledger ==> p + ledger[p] <= |pool.slab| * PAGE
    ensures forall p, q :: p in ledger && q in ledger && p < q ==> p + ledger[p] <= q
  {
    ledger := map[];
    for i := 0 to |requests|
      invariant pool.Valid() && LedgerOf(pool.Shot(), ledger)
    {
      match requests[i]
      case Alloc(size) =>
        ghost var s := pool.Shot();
        var r := pool.AllocLocked(size);
        if r != NULL {
          LedgerGains(s, pool.Shot(), ledger, r, size);
          ledger := ledger[r := size];
        }
      case Release(p) =>
        if p in ledger {
          ghost var s := pool.Shot();
          LiveFreeable(s, p);
          var ok := pool.FreeLocked(p);
          LedgerLoses(s, pool.Shot(), ledger, p);
          ledger := ledger - {p};
        }
      case Write(p, off, word) =>
        if p in ledger && off < ledger[p] && word <= BUSY {
          ghost var s := pool.Shot();
          pool.Write(p, off, word);
          LedgerStays(s, pool.Shot(), ledger);
        }
    }
    LedgerApart(pool.Shot(), ledger);
  }

  lemma LiveFreeable(s: Snap, p: nat)
    requires Inv(s) && Live(s, p)
    ensures Freeable(s, p)
  {
  }

  lemma LedgerGains(s: Snap, t: Snap, ledger: map<nat, nat>, p: nat, size: nat)
    requires Sized(s) && Sized(t) && LedgerOf(s, ledger) && Gained(s, t, p) && size <= Extent(t, p)
    ensures LedgerOf(t, ledger[p := size])
  {
  }

  lemma LedgerLoses(s: Snap, t: Snap, ledger: map<nat, nat>, p: nat)
    requires Sized(s) && Sized(t) && LedgerOf(s, ledger) && Lost(s, t, p)
    ensures LedgerOf(t, ledger - {p})
  {
  }

  lemma LedgerStays(s: Snap, t: Snap, ledger: map<nat, nat>)
    requires Sized(s) && Sized(t) && LedgerOf(s, ledger) && LiveSameBut(s, t, NULL)
    ensures LedgerOf(t, ledger)
  {
  }

  lemma LedgerApart(s: Snap, ledger: map<nat, nat>)
    requires Inv(s) && LedgerOf(s, ledger)
    ensures forall p :: p in ledger ==> p + ledger[p] <= |s.slab| * PAGE
    ensures forall p, q :: p in ledger && q in ledger && p < q ==> p + ledger[p] <= q
  {
    forall p | p in ledger ensures p + ledger[p] <= |s.slab| * PAGE {
      InsideArea(s, p);
    }
    forall p, q | p in ledger && q in ledger && p < q ensures p + ledger[p] <= q {
      LiveBlocksDisjoint(s, p, q);
    }
  }

  ghost predicate Reopened(s: Snap, t: Snap, x: int, shift: Shift)
  {
    && 0 <= x < |s.slab| && |s.next| == |s.prev| == |s.tag| == |s.slab| + LISTS && |t.next| == |t.prev| == |t.tag| == |s.next|
    && t.slab == s.slab && t.bits == s.bits
    && var a := Anchor(|s.slab|, Slot(shift)); var nx := s.next[a];
    && 0 <= nx < |s.next| && t.next[a] == x && t.next[x] == nx && t.prev[x] == a && t.tag[x] == Type(shift)
    && (forall r :: 0 <= r < |s.next| && r != x && r != a ==> t.next[r] == s.next[r])
    && (forall r :: 0 <= r < |s.next| && r != x ==> t.prev[r] == if r == nx then x else s.prev[r])
    && (forall r :: 0 <= r < |s.next| && r != x ==> t.tag[r] == if r == nx then Type(shift) else s.tag[r])
  }

  /** The first page of a slot list, if any, is a chunk page of that size. */
  lemma OpenReady(s: Snap, x: int, shift: Shift)
    requires Inv(s) && Head(s, x) && s.runs[x] == ChunkPage(shift) && Full(s, x)
    ensures PageOk(s, x) && Home(s, x) == NULL
    ensures var nx := s.next[Anchor(|s.slab|, Slot(shift))];
      0 <= nx < |s.next| && nx != x && (nx < |s.slab| ==> s.tag[nx] == Type(shift))
  {
    assert PageOk(s, x) && Home(s, x) == NULL;
    SlotFirst(s, shift);
    if s.lists[Slot(shift)] != [] {
      ListedChunk(s, shift, 0);
    }
  }

  lemma OpenPage(s: Snap, x: int, shift: Shift)
    requires Inv(s) && Head(s, x) && s.runs[x] == ChunkPage(shift) && !Full(s, x)
    ensures PageOk(s, x) && x in s.lists[Slot(shift)]
  {
    assert PageOk(s, x) && Home(s, x) == Slot(shift);
  }

  lemma SurvivorUsed(w: nat, b: seq<nat>, shift: Shift, w': nat, b': seq<nat>, c: nat)
    requires |b| == 8 && AllUsed(w, b, shift) && Returned(w, b, shift, w', b', c) && Reserved(shift) <= c
    ensures SomeUsed(w', b', shift)
  {
    RoomAfterFirst(shift);
    var d := if c == Reserved(shift) then c + 1 else Reserved(shift);
    assert Used(w', b', shift, d);
  }

  lemma ReopenKeeps(s: Snap, m: Snap, t: Snap, x: int, shift: Shift, c: nat)
    requires Inv(s) && Head(s, x) && s.runs[x] == ChunkPage(shift) && Full(s, x) && Reserved(shift) <= c
    requires Reopened(s, m, x, shift) && t.next == m.next && t.prev == m.prev && t.tag == m.tag
    requires |t.slab| == |s.slab| && |t.bits| == |s.bits| && t.slab == s.slab[x := t.slab[x]] && t.bits == s.bits[x := t.bits[x]]
    requires WordsOk(t.bits[x]) && Returned(s.slab[x], s.bits[x], shift, t.slab[x], t.bits[x], c)
    requires t.owner == s.owner && t.runs == s.runs && t.lists == s.lists[Slot(shift) := [x] + s.lists[Slot(shift)]]
    ensures Inv(t) && OnlyPage(s, t, x)
  {
    OpenReady(s, x, shift);
    SurvivorUsed(s.slab[x], s.bits[x], shift, t.slab[x], t.bits[x], c);
    ReopenWords(s, m, t, x, shift);
    ChunkReturnedToFull(s, t, x, c);
  }

  lemma ReopenWords(s: Snap, m: Snap, t: Snap, x: int, shift: Shift)
    requires Sized(s) && 0 <= x < |s.slab| && Reopened(s, m, x, shift) && t.next == m.next && t.prev == m.prev && t.tag == m.tag
    requires |t.slab| == |s.slab| && |t.bits| == |s.bits| && t.slab == s.slab[x := t.slab[x]] && t.bits == s.bits[x := t.bits[x]]
    requires WordsOk(t.bits[x]) && t.owner == s.owner && t.runs == s.runs && |t.lists| == LISTS && s.tag[x] == Type(shift)
    requires var nx := s.next[Anchor(|s.slab|, Slot(shift))]; nx < |s.slab| ==> s.tag[nx] == Type(shift)
    ensures Sized(t) && OnlyWords(s, t, x) && OnlyPage(s, t, x)
  {}

  lemma ReturnKeeps(s: Snap, t: Snap, x: int, shift: Shift, c: nat)
    requires Inv(s) && Head(s, x) && s.runs[x] == ChunkPage(shift) && !Full(s, x) && Reserved(shift) <= c
    requires t == s.(slab := t.slab, bits := t.bits) && |t.slab| == |s.slab| && |t.bits| == |s.bits|
    requires t.slab == s.slab[x := t.slab[x]] && t.bits == s.bits[x := t.bits[x]] && WordsOk(t.bits[x])
    requires Returned(s.slab[x], s.bits[x], shift, t.slab[x], t.bits[x], c) && SomeUsed(t.slab[x], t.bits[x], shift)
    ensures Inv(t) && OnlyPage(s, t, x)
  {
    assert Sized(t);
    assert OnlyWords(s, t, x);
    ChunkReturned(s, t, x, c);
  }

  /** The pool without the emptied page's list entry. */
  ghost function WithdrawnSnap(s: Snap, b: seq<nat>, i: int, shift: Shift): Snap
    requires Inv(s) && 0 <= i < |s.lists[Slot(shift)]|
    requires var x := s.lists[Slot(shift)][i]; 0 <= x < |s.slab| && 0 <= s.next[x] < |s.next| && 0 <= s.prev[x] < |s.next|
  {
    var x := s.lists[Slot(shift)][i];
    var l := Drop(s.lists[Slot(shift)], i);
    s.(slab := s.slab[x := 1 + PAGE_START], bits := s.bits[x := b], runs := s.runs[x := BusyRun(1)],
       next := s.next[s.prev[x] := s.next[x]][x := NULL], prev := s.prev[s.next[x] := s.prev[x]],
       tag := s.tag[x := PAGE_TYPE], lists := s.lists[Slot(shift) := l])
  }

  lemma WithdrawnIs(s: Snap, b: seq<nat>, i: int, shift: Shift)
    requires Inv(s) && 0 <= i < |s.lists[Slot(shift)]| && WordsOk(b)
    requires var x := s.lists[Slot(shift)][i]; 0 <= x < |s.slab| && 0 <= s.next[x] < |s.next| && 0 <= s.prev[x] < |s.next|
    ensures Withdrawn(s, WithdrawnSnap(s, b, i, shift), i, shift)
    ensures OnlyPage(s, WithdrawnSnap(s, b, i, shift), s.lists[Slot(shift)][i])
  {}

  lemma WithdrawnDetached(s: Snap, t: Snap, b: seq<nat>, i: int, shift: Shift)
    requires Inv(s) && 0 <= i < |s.lists[Slot(shift)]| && WordsOk(b)
    requires var x := s.lists[Slot(shift)][i];
      && 0 <= x < |s.slab| && 0 <= s.next[x] < |s.next| && 0 <= s.prev[x] < |s.next| && s.tag[x] == Type(shift)
      && t == s.(slab := t.slab, bits := t.bits) && |t.slab| == |s.slab| && t.slab == s.slab[x := t.slab[x]] && t.bits == s.bits[x := b]
    ensures Detached(t, WithdrawnSnap(s, b, i, shift), s.lists[Slot(shift)][i])
  {
    var x := s.lists[Slot(shift)][i];
    ListedChunk(s, shift, i);
    Apart(s, Slot(shift), i, FREE);
  }

  ghost predicate OneUsed(w: nat, b: seq<nat>, shift: Shift, c: nat)
  {
    |b| == 8 && forall d: nat :: Reserved(shift) <= d < Cap(shift) && Used(w, b, shift, d) ==> d == c
  }

  lemma EmptyOne(w: nat, b: seq<nat>, shift: Shift, w': nat, b': seq<nat>, c: nat)
    requires Returned(w, b, shift, w', b', c) && !SomeUsed(w', b', shift)
    ensures OneUsed(w, b, shift, c)
  {}

  /** What may be passed to FreeLocked. */
  ghost predicate Freeable(s: Snap, p: nat)
    requires Sized(s)
  {
    var h := p / PAGE;
    Head(s, h) && match s.runs[h]
      case FreeRun(_) => false
      case BusyRun(_) => true
      case ChunkPage(shift) => Reserved(shift) <= p % PAGE / Size(shift)
  }

  /** The tag and the slab field of a page tell what it is. */
  lemma PageTypes(s: Snap, h: int)
    requires Inv(s) && Head(s, h) && !s.runs[h].FreeRun?
    ensures s.runs[h].BusyRun? ==> s.tag[h] == PAGE_TYPE && s.runs[h].len + PAGE_START == s.slab[h] && s.next[h] == NULL
    ensures s.runs[h].ChunkPage? ==>
      s.tag[h] != PAGE_TYPE && s.runs[h].shift == (if s.tag[h] == EXACT then EXACT_SHIFT else s.slab[h] % 16)
    ensures Detached(s, s, h) || s.next[h] != NULL
  {
    assert PageOk(s, h);
  }

  lemma ChunkIndex(shift: Shift, off: nat)
    requires off < PAGE
    ensures off / Size(shift) < Cap(shift)
  {}

  /** A chunk page is full exactly when it is in no list. */
  lemma FullByLink(s: Snap, x: int, shift: Shift)
    requires Inv(s) && Head(s, x) && s.runs[x] == ChunkPage(shift)
    ensures Full(s, x) <==> s.next[x] == NULL
    ensures shift == EXACT_SHIFT ==> (Full(s, x) <==> s.slab[x] == BUSY)
  {
    assert PageOk(s, x);
    if !Full(s, x) {
      OpenPage(s, x, shift);
      var i :| 0 <= i < |s.lists[Slot(shift)]| && s.lists[Slot(shift)][i] == x;
      Neighbours(s, Slot(shift), i);
    }
    if shift == EXACT_SHIFT {
      ExactFull(s.slab[x], s.bits[x]);
    }
  }

  lemma RunLost(s: Snap, t: Snap, x: int, p: nat)
    requires Sized(s) && Sized(t) && |t.slab| == |s.slab| && OnlyPage(s, t, x) && Head(s, x) && s.runs[x].BusyRun?
    requires Idle(t, x) && p == x * PAGE
    ensures Lost(s, t, p)
  {
    assert p / PAGE == x && p % PAGE == 0;
    forall q: nat | q != p
      ensures (Live(t, q) <==> Live(s, q)) && (Live(s, q) ==> Extent(t, q) == Extent(s, q))
    {
      if q / PAGE != x {
        LiveOtherPages(s, t, x, q);
      } else {
        assert q == PAGE * x + q % PAGE;
      }
    }
  }

  lemma ChunkLost(s: Snap, t: Snap, x: int, shift: Shift, c: nat, p: nat)
    requires Sized(s) && Sized(t) && |t.slab| == |s.slab| && OnlyPage(s, t, x) && Head(s, x) && Head(t, x)
    requires s.runs[x] == ChunkPage(shift) && t.runs[x] == ChunkPage(shift)
    requires Returned(s.slab[x], s.bits[x], shift, t.slab[x], t.bits[x], c) && Used(s.slab[x], s.bits[x], shift, c)
    requires p / PAGE == x && p % PAGE % Size(shift) == 0 && p % PAGE / Size(shift) == c && Reserved(shift) <= c
    ensures Lost(s, t, p)
  {
    forall q: nat | q != p
      ensures (Live(t, q) <==> Live(s, q)) && (Live(s, q) ==> Extent(t, q) == Extent(s, q))
    {
      if q / PAGE != x {
        LiveOtherPages(s, t, x, q);
      } else {
        OtherChunk(shift, p % PAGE, q % PAGE);
      }
    }
  }

  lemma LastLost(s: Snap, t: Snap, x: int, shift: Shift, c: nat, p: nat)
    requires Sized(s) && Sized(t) && |t.slab| == |s.slab| && OnlyPage(s, t, x) && Head(s, x) && Idle(t, x)
    requires s.runs[x] == ChunkPage(shift) && c < Cap(shift)
    requires OneUsed(s.slab[x], s.bits[x], shift, c) && Used(s.slab[x], s.bits[x], shift, c)
    requires p / PAGE == x && p % PAGE % Size(shift) == 0 && p % PAGE / Size(shift) == c && Reserved(shift) <= c
    ensures Lost(s, t, p)
  {
    forall q: nat | q != p
      ensures (Live(t, q) <==> Live(s, q)) && (Live(s, q) ==> Extent(t, q) == Extent(s, q))
    {
      if q / PAGE != x {
        LiveOtherPages(s, t, x, q);
      } else {
        OtherChunk(shift, p % PAGE, q % PAGE);
      }
    }
  }

  lemma OtherChunk(shift: Shift, o1: nat, o2: nat)
    requires o1 != o2 && o1 % Size(shift) == 0
    ensures o2 % Size(shift) == 0 ==> o2 / Size(shift) != o1 / Size(shift)
  {}

  lemma TailPage(u: Snap, page: int, p: int, pages: nat)
    requires Inv(u) && Head(u, page) && u.runs[page] == BusyRun(pages) && page < p < page + pages
    ensures p < |u.slab| && u.owner[p] == page
  {}

  /** Unlinking page from its list, if it is in one, turns the links of s into those of v. */
  ghost predicate Detached(s: Snap, v: Snap, page: int)
  {
    && |s.slab| == |v.slab| && 0 <= page < |s.slab| && |s.next| == |s.prev| == |s.tag| == |s.slab| + LISTS
    && |v.next| == |v.prev| == |v.tag| == |s.next| && s.bits == v.bits && s.owner == v.owner
    && (s.next[page] != NULL ==> 0 <= s.next[page] < |s.next| && 0 <= s.prev[page] < |s.next| && s.next[page] != page && s.prev[page] != page)
    && (s.next[page] != NULL ==> s.prev[page] != |s.slab| + FREE && s.next[page] != |s.slab| + FREE)
    && (forall r :: 0 <= r < |s.slab| && r != page ==> v.slab[r] == s.slab[r])
    && (forall r :: 0 <= r < |s.next| && r != page ==> v.next[r] == if s.next[page] != NULL && r == s.prev[page] then s.next[page] else s.next[r])
    && (forall r :: 0 <= r < |s.next| && r != page ==> v.prev[r] == if s.next[page] != NULL && r == s.next[page] then s.prev[page] else s.prev[r])
    && (forall r :: 0 <= r < |s.slab| && r != page ==> v.tag[r] == s.tag[r] && (s.next[page] != NULL && r == s.next[page] ==> s.tag[page] == s.tag[r]))
  }

  /** Page was taken out of its list, if it was in one, and pushed onto the free list. */
  ghost predicate Listed(s: Snap, t: Snap, page: int)
  {
    && 0 <= page < |s.slab| && |s.next| == |s.prev| == |s.tag| == |s.slab| + LISTS && |t.next| == |t.prev| == |t.tag| == |s.next|
    && t.slab == s.slab && t.bits == s.bits
    && var a := |s.slab| + FREE; var nx := s.next[a];
    && 0 <= nx < |s.next| && t.next[a] == page && t.next[page] == nx && t.prev[page] == a && t.tag[page] == PAGE_TYPE
    && (forall r :: 0 <= r < |s.next| && r != page && r != a ==>
          t.next[r] == if s.next[page] != NULL && r == s.prev[page] then s.next[page] else s.next[r])
    && (forall r :: 0 <= r < |s.next| && r != page ==>
          t.prev[r] == if r == nx then page else if s.next[page] != NULL && r == s.next[page] then s.prev[page] else s.prev[r])
    && (forall r :: 0 <= r < |s.next| && r != page ==>
          t.tag[r] == if r == nx then PAGE_TYPE else if s.next[page] != NULL && r == s.next[page] then s.tag[page] else s.tag[r])
  }

  lemma TailOnly(u: Snap, u': Snap, p: int)
    requires Sized(u) && Sized(u') && |u'.slab| == |u.slab| && 0 <= p < |u.slab|
    requires u.owner[p] != p && u' == u.(slab := u.slab[p := 0], next := u.next[p := NULL], prev := u.prev[p := NULL], tag := u.tag[p := PAGE_TYPE])
    ensures OnlyPage(u, u', -1)
  {
    forall h | 0 <= h < |u.slab| ensures SamePage(u, u', h) || (!Head(u, h) && !Head(u', h)) {
    }
  }

  lemma OnlyThen2(s: Snap, m: Snap, t: Snap, x: int)
    requires Sized(s) && Sized(m) && Sized(t) && |m.slab| == |t.slab| == |s.slab| && OnlyPage(s, m, -1) && OnlyPage(m, t, x)
    ensures OnlyPage(s, t, x)
  {
    forall h | 0 <= h < |s.slab| && h != x
      ensures SamePage(s, t, h) || (!Head(s, h) && !Head(t, h)) || (Idle(s, h) && Idle(t, h))
    {
      assert SamePage(s, m, h) || (Idle(s, h) && Idle(m, h));
      assert SamePage(m, t, h) || (Idle(m, h) && Idle(t, h));
    }
  }

  lemma DetachedReady(s: Snap, v: Snap, page: int)
    requires Inv(v) && Head(v, page) && v.runs[page].BusyRun? && Detached(s, v, page)
    ensures var nx := v.next[|v.slab| + FREE];
      && s.next[|s.slab| + FREE] == nx && 0 <= nx < |s.next| && nx != page
      && (nx < |s.slab| ==> v.tag[nx] == PAGE_TYPE)
  {
    var a := Anchor(|v.slab|, FREE);
    assert Chain(v.next, v.prev, a, v.lists[FREE]);
    if v.lists[FREE] != [] {
      ListedRun(v, 0);
    }
  }

  lemma FreeKeeps(v: Snap, s: Snap, t: Snap, page: int, pages: nat)
    requires Inv(v) && Head(v, page) && v.runs[page] == BusyRun(pages) && Detached(s, v, page) && Listed(s, t, page)
    requires s.slab[page] == pages && t.owner == v.owner && t.runs == v.runs[page := FreeRun(pages)]
    requires |t.lists| == LISTS && t.lists == v.lists[FREE := [page] + v.lists[FREE]]
    ensures Inv(t) && OnlyPage(v, t, page) && Head(t, page)
  {
    assert PageOk(v, page);
    DetachedReady(s, v, page);
    FreeStoresAre(v, s, t, page, pages);
    RunFreed(v, t, page);
    forall h | 0 <= h < |v.slab| && h != page ensures SamePage(v, t, h) {
    }
  }

  lemma FreeStoresAre(v: Snap, s: Snap, t: Snap, page: int, pages: nat)
    requires Sized(v) && 0 <= page < |v.slab| && Detached(s, v, page) && Listed(s, t, page)
    requires s.slab[page] == pages && t.owner == v.owner && |t.runs| == |v.slab| && |t.lists| == LISTS && v.tag[page] == PAGE_TYPE
    requires var nx := v.next[|v.slab| + FREE]; s.next[|s.slab| + FREE] == nx && (0 <= nx < |v.slab| ==> v.tag[nx] == PAGE_TYPE)
    ensures Sized(t) && t.bits == v.bits && t.slab == v.slab[page := pages]
    ensures forall r :: 0 <= r < |v.slab| ==> t.tag[r] == v.tag[r]
    ensures var a := Anchor(|v.slab|, FREE);
      && t.next[a] == page && t.next[page] == v.next[a] && t.prev[page] == a
      && (forall r :: 0 <= r < |v.next| && r != page && r != a ==> t.next[r] == v.next[r])
      && (forall r :: 0 <= r < |v.slab| && r != page ==> t.prev[r] == if r == v.next[a] then page else v.prev[r])
  {
  }

  /** The pages that a request of at least MAX_SIZE bytes takes. */
  function PagesFor(size: nat): (k: nat)
    ensures (k - 1) * PAGE < size <= k * PAGE || (size == 0 && k == 0)
  {
    size / PAGE + (if size % PAGE != 0 then 1 else 0)
  }

  /** The smallest chunk size that holds a request. */
  ghost predicate Fits(size: nat, shift: Shift)
  {
    size <= Size(shift) && (shift > MIN_SHIFT ==> Size(shift - 1) < size)
  }

  method ShiftFor(size: nat) returns (shift: Shift)
    requires size < MAX_SIZE
    ensures Fits(size, shift)
  {
    if size > 8 {
      var sh := 1;
      var s := (size - 1) / 2;
      while s != 0
        invariant 1 <= sh <= 11 && s == Words.Shr(size - 1, sh) && (sh > 1 ==> Words.Shr(size - 1, sh - 1) != 0)
        decreases s
      {
        ShrStep(size - 1, sh);
        ShiftBound(size - 1, sh + 1);
        sh := sh + 1;
        s := s / 2;
      }
      ShiftIs(size, sh);
      shift := sh;
    } else {
      shift := MIN_SHIFT;
    }
  }

  lemma {:induction false} ShrStep(w: nat, m: nat)
    ensures Words.Shr(w, m + 1) == Words.Shr(w, m) / 2
  {
    if m > 0 {
      ShrStep(w / 2, m - 1);
    }
  }

  lemma {:induction false} ShrZero(w: nat, m: nat)
    ensures Words.Shr(w, m) == 0 <==> w < Words.Pow2(m)
  {
    if m > 0 {
      ShrZero(w / 2, m - 1);
    }
  }

  lemma ShiftBound(w: nat, m: nat)
    requires w < MAX_SIZE && m >= 1 && Words.Shr(w, m - 1) != 0
    ensures m <= 11
  {
    ShrZero(w, m - 1);
    assert Words.Pow2(11) == 2048;
    if m > 11 {
      Words.Pow2Monotone(11, m - 1);
    }
  }

  lemma ShiftIs(size: nat, sh: nat)
    requires 8 < size < MAX_SIZE && 1 <= sh <= 11 && Words.Shr(size - 1, sh) == 0 && (sh > 1 ==> Words.Shr(size - 1, sh - 1) != 0)
    ensures 3 <= sh <= 11 && Fits(size, sh)
  {
    ShrZero(size - 1, sh);
    ShrZero(size - 1, sh - 1);
    assert Words.Pow2(3) == 8 && Words.Pow2(4) == 16 && Words.Pow2(5) == 32 && Words.Pow2(6) == 64 && Words.Pow2(7) == 128;
    assert Words.Pow2(8) == 256 && Words.Pow2(9) == 512 && Words.Pow2(10) == 1024 && Words.Pow2(11) == 2048;
    if sh < 3 {
      Words.Pow2Monotone(sh, 3);
    }
  }

  /** A request cannot be met: no page of its chunk size has room and no free run is long enough. */
  ghost predicate Exhausted(s: Snap, size: nat)
    requires Sized(s)
  {
    if size >= MAX_SIZE then NoRunOf(s, PagesFor(size))
    else NoRunOf(s, 1) && forall shift: Shift :: Fits(size, shift) ==> s.lists[Slot(shift)] == []
  }

  /** The same without size classes: there is no room for the request, in no page of chunks that are not too large, and in no free run. */
  lemma ExhaustedMeans(s: Snap, size: nat)
    requires Inv(s)
    ensures Exhausted(s, size) <==>
      forall h {:trigger s.runs[h]} :: Head(s, h) ==> match s.runs[h]
        case FreeRun(len) => 2048 <= size && len * 4096 < size
        case BusyRun(_) => true
        case ChunkPage(shift) => size < 2048 && size <= Size(shift) && (Size(shift) == 8 || Size(shift) < 2 * size) ==> Full(s, h)
  {
    if size >= 2048 {
      forall len: nat ensures len < PagesFor(size) <==> len * 4096 < size {
      }
    } else {
      var shift := ClassOf(size);
      ExhaustedClass(s, size, shift);
      SlotEmpty(s, shift);
      forall other: Shift | size <= Size(other) && (Size(other) == 8 || Size(other) < 2 * size) ensures other == shift {
      }
      assert forall h :: Head(s, h) && s.runs[h].FreeRun? ==> s.runs[h].len >= 1;
    }
  }

  lemma ClassOf(size: nat) returns (shift: Shift)
    requires size < 2048
    ensures Fits(size, shift) && size <= Size(shift) && (Size(shift) == 8 || Size(shift) < 2 * size)
  {
    shift := if size <= 8 then 3 else if size <= 16 then 4 else if size <= 32 then 5 else if size <= 64 then 6
      else if size <= 128 then 7 else if size <= 256 then 8 else if size <= 512 then 9 else if size <= 1024 then 10 else 11;
  }

  /** A slot list is empty exactly when every page of its chunk size is full. */
  lemma SlotEmpty(s: Snap, shift: Shift)
    requires Inv(s)
    ensures s.lists[Slot(shift)] == [] <==> forall h {:trigger s.runs[h]} :: Head(s, h) && s.runs[h] == ChunkPage(shift) ==> Full(s, h)
  {
    if s.lists[Slot(shift)] != [] {
      var x := s.lists[Slot(shift)][0];
      assert x in s.lists[Slot(shift)];
      assert Home(s, x) == Slot(shift);
      assert s.runs[x] == ChunkPage(shift) && !Full(s, x);
    } else {
      forall h | Head(s, h) && s.runs[h] == ChunkPage(shift) ensures Full(s, h) {
        assert Home(s, h) == if Full(s, h) then NULL else Slot(shift);
      }
    }
  }

  /** There is one size class for a size, so it is exhausted when that class is. */
  lemma ExhaustedClass(s: Snap, size: nat, shift: Shift)
    requires Sized(s) && size < MAX_SIZE && Fits(size, shift)
    ensures Exhausted(s, size) <==> NoRunOf(s, 1) && s.lists[Slot(shift)] == []
  {
    forall other: Shift | Fits(size, other) ensures other == shift {
    }
  }

  /** The head of a slot list points at itself exactly when the list is empty. */
  lemma SlotFirst(s: Snap, shift: Shift)
    requires Inv(s)
    ensures var a := Anchor(|s.slab|, Slot(shift)); var page := s.next[a];
      && 0 <= page < |s.next|
      && (if s.lists[Slot(shift)] == [] then s.next[page] == page
          else page == s.lists[Slot(shift)][0] && s.next[page] != page)
  {
    var l, a := s.lists[Slot(shift)], Anchor(|s.slab|, Slot(shift));
    assert Chain(s.next, s.prev, a, l);
    if l != [] {
      Neighbours(s, Slot(shift), 0);
    }
  }

  ghost predicate Laid(s: Snap, t: Snap, x: int, shift: Shift, c: nat)
  {
    && 0 <= x < |s.slab| && |s.bits| == |s.slab| && |s.next| == |s.prev| == |s.tag| == |s.slab| + LISTS
    && |t.slab| == |s.slab| && |t.bits| == |s.bits| && |t.next| == |t.prev| == |t.tag| == |s.next|
    && WordsOk(t.bits[x]) && FirstOnly(t.slab[x], t.bits[x], shift, c)
    && (forall r :: 0 <= r < |s.slab| && r != x ==> t.slab[r] == s.slab[r] && t.bits[r] == s.bits[r])
    && (forall r :: 0 <= r < |s.next| ==> t.tag[r] == if r == x then Type(shift) else s.tag[r])
    && var a := Anchor(|s.slab|, Slot(shift));
    && t.next[a] == x && t.next[x] == a && t.prev[x] == a
    && (forall r :: 0 <= r < |s.next| && r != x && r != a ==> t.next[r] == s.next[r])
    && (forall r :: 0 <= r < |s.next| && r != x ==> t.prev[r] == s.prev[r])
  }

  lemma LayKeeps(s: Snap, t: Snap, x: int, shift: Shift, c: nat)
    requires Inv(s) && Head(s, x) && s.runs[x] == BusyRun(1) && s.lists[Slot(shift)] == [] && Laid(s, t, x, shift, c)
    requires t.owner == s.owner && t.runs == s.runs[x := ChunkPage(shift)] && t.lists == s.lists[Slot(shift) := [x]]
    ensures Inv(t) && OnlyPage(s, t, x) && Head(t, x)
  {
    assert Sized(t);
    PageLaidOut(s, t, x, shift, c);
    forall h | 0 <= h < |s.slab| && h != x ensures SamePage(s, t, h) {
    }
  }

  lemma OnlyBoth(s: Snap, m: Snap, t: Snap, x: int)
    requires Sized(s) && Sized(m) && Sized(t) && |m.slab| == |t.slab| == |s.slab| && OnlyPage(s, m, x) && OnlyPage(m, t, x)
    ensures OnlyPage(s, t, x)
  {
    forall h | 0 <= h < |s.slab| && h != x
      ensures SamePage(s, t, h) || (!Head(s, h) && !Head(t, h)) || (Idle(s, h) && Idle(t, h))
    {
      assert SamePage(s, m, h) || (Idle(s, h) && Idle(m, h));
      assert SamePage(m, t, h) || (Idle(m, h) && Idle(t, h));
    }
  }

  /** A page without blocks now has exactly one chunk. */
  lemma PageGained(s: Snap, t: Snap, x: int, shift: Shift, c: nat)
    requires Sized(s) && Sized(t) && |t.slab| == |s.slab| && OnlyPage(s, t, x) && 0 <= x < |s.slab| && Idle(s, x) && Head(t, x)
    requires t.runs[x] == ChunkPage(shift) && FirstOnly(t.slab[x], t.bits[x], shift, c)
    ensures Gained(s, t, x * PAGE + c * Size(shift)) && Extent(t, x * PAGE + c * Size(shift)) == Size(shift)
  {
    ChunkAddress(shift, c);
    var p := x * PAGE + c * Size(shift);
    assert p / PAGE == x && p % PAGE == c * Size(shift);
    forall q: nat | q != p
      ensures (Live(t, q) <==> Live(s, q)) && (Live(s, q) ==> Extent(t, q) == Extent(s, q))
    {
      if q / PAGE != x {
        LiveOtherPages(s, t, x, q);
      } else {
        assert q == x * PAGE + q % PAGE;
        SameOffset(shift, q % PAGE, c);
      }
    }
  }

  /** The words of page x were updated for the taking of chunk c. */
  ghost predicate Marked(s: Snap, m: Snap, x: int, shift: Shift, c: nat)
    requires Sized(s)
  {
    && 0 <= x < |s.slab| && m == s.(slab := m.slab, bits := m.bits) && |m.slab| == |s.slab| && |m.bits| == |s.bits|
    && m.slab == s.slab[x := m.slab[x]] && m.bits == s.bits[x := m.bits[x]] && WordsOk(m.bits[x])
    && Taken(s.slab[x], s.bits[x], shift, m.slab[x], m.bits[x], c)
  }

  /** A page in a slot list is a chunk page of that size with room. */
  lemma ListedChunk(s: Snap, shift: Shift, i: int)
    requires Inv(s) && 0 <= i < |s.lists[Slot(shift)]|
    ensures var x := s.lists[Slot(shift)][i];
      && Head(s, x) && s.runs[x] == ChunkPage(shift) && !Full(s, x) && PageOk(s, x)
      && 0 <= s.next[x] < |s.next| && 0 <= s.prev[x] < |s.next| && s.next[x] != x && s.prev[x] != x
      && (s.next[x] < |s.slab| ==> s.tag[s.next[x]] == Type(shift))
  {
    var x := s.lists[Slot(shift)][i];
    assert x in s.lists[Slot(shift)];
    assert Home(s, x) == Slot(shift) && PageOk(s, x);
    Neighbours(s, Slot(shift), i);
    if s.next[x] < |s.slab| {
      assert s.next[x] in s.lists[Slot(shift)];
      assert Home(s, s.next[x]) == Slot(shift) && PageOk(s, s.next[x]);
    }
  }

  lemma ChunkKeeps(s: Snap, t: Snap, x: int, shift: Shift, c: nat)
    requires Inv(s) && Head(s, x) && s.runs[x] == ChunkPage(shift) && !Full(s, x) && Marked(s, t, x, shift, c)
    requires !AllUsed(t.slab[x], t.bits[x], shift)
    ensures Inv(t) && OnlyPage(s, t, x)
  {
    assert Sized(t);
    assert OnlyWords(s, t, x);
    ChunkTaken(s, t, x, c);
  }

  lemma LastChunkKeeps(s: Snap, m: Snap, t: Snap, shift: Shift, c: nat)
    requires Inv(s) && s.lists[Slot(shift)] != []
    requires var x := s.lists[Slot(shift)][0];
      && Marked(s, m, x, shift, c) && AllUsed(m.slab[x], m.bits[x], shift)
      && Took(m, t, x, m.slab[x], Type(shift)) && t.owner == m.owner && t.runs == m.runs
      && |t.lists| == LISTS && t.lists[Slot(shift)] == Drop(s.lists[Slot(shift)], 0)
      && (forall j :: 0 <= j < LISTS && j != Slot(shift) ==> t.lists[j] == s.lists[j])
    ensures Inv(t) && OnlyPage(s, t, s.lists[Slot(shift)][0])
  {
    ListedChunk(s, shift, 0);
    assert Sized(t);
    assert OnlyWords(s, t, s.lists[Slot(shift)][0]);
    ChunkTakenLast(s, t, 0, shift, c);
  }

  /** Taking chunk c of page x allocates exactly the block at its address. */
  lemma OneChunkGained(s: Snap, m: Snap, t: Snap, shift: Shift, c: nat)
    requires Inv(s) && Sized(t) && s.lists[Slot(shift)] != [] && Marked(s, m, s.lists[Slot(shift)][0], shift, c) && Reserved(shift) <= c
    requires t.slab == m.slab && t.bits == m.bits && t.runs == m.runs && t.owner == m.owner
    requires OnlyPage(s, t, s.lists[Slot(shift)][0])
    ensures var p := s.lists[Slot(shift)][0] * PAGE + c * Size(shift);
      0 <= p && Gained(s, t, p) && Extent(t, p) == Size(shift)
  {
    ListedChunk(s, shift, 0);
    ChunkGained(s, t, s.lists[Slot(shift)][0], shift, c);
  }

  lemma ChunkGained(s: Snap, t: Snap, x: int, shift: Shift, c: nat)
    requires Sized(s) && Sized(t) && |t.slab| == |s.slab| && OnlyPage(s, t, x) && Head(s, x) && Head(t, x)
    requires s.runs[x] == ChunkPage(shift) && t.runs[x] == ChunkPage(shift) && Reserved(shift) <= c
    requires Taken(s.slab[x], s.bits[x], shift, t.slab[x], t.bits[x], c)
    ensures Gained(s, t, x * PAGE + c * Size(shift)) && Extent(t, x * PAGE + c * Size(shift)) == Size(shift)
  {
    ChunkAddress(shift, c);
    var p := x * PAGE + c * Size(shift);
    assert p / PAGE == x && p % PAGE == c * Size(shift);
    forall q: nat | q != p
      ensures (Live(t, q) <==> Live(s, q)) && (Live(s, q) ==> Extent(t, q) == Extent(s, q))
    {
      if q / PAGE != x {
        LiveOtherPages(s, t, x, q);
      } else {
        assert q == x * PAGE + q % PAGE;
        SameOffset(shift, q % PAGE, c);
      }
    }
  }

  lemma SameOffset(shift: Shift, off: nat, c: nat)
    requires c < Cap(shift) && off != c * Size(shift)
    ensures off % Size(shift) == 0 ==> off / Size(shift) != c
  {}

  /** No single free run has that many pages. */
  ghost predicate NoRunOf(s: Snap, pages: nat)
    requires Sized(s)
  {
    forall h :: Head(s, h) && s.runs[h].FreeRun? ==> s.runs[h].len < pages
  }

  /** Run i of the free list is the first that is long enough. */
  ghost predicate FirstFitAt(s: Snap, pages: nat, i: int)
    requires Sized(s)
  {
    var l := s.lists[FREE];
    && 0 <= i < |l| && 0 <= l[i] < |s.slab| && s.slab[l[i]] >= pages
    && forall j :: 0 <= j < i ==> 0 <= l[j] < |s.slab| && s.slab[l[j]] < pages
  }

  ghost predicate FirstFit(s: Snap, pages: nat, page: int)
    requires Sized(s)
  {
    exists i :: FirstFitAt(s, pages, i) && s.lists[FREE][i] == page
  }

  lemma FreeWalk(s: Snap, i: int)
    requires Inv(s) && 0 <= i <= |s.lists[FREE]|
    ensures s.next[|s.slab| + FREE] == if s.lists[FREE] == [] then Anchor(|s.slab|, FREE) else s.lists[FREE][0]
    ensures i < |s.lists[FREE]| ==>
      var x := s.lists[FREE][i];
      && 0 <= x < |s.slab| && Head(s, x) && s.runs[x] == FreeRun(s.slab[x])
      && s.next[x] == if i + 1 < |s.lists[FREE]| then s.lists[FREE][i + 1] else Anchor(|s.slab|, FREE)
  {
    var l, a := s.lists[FREE], Anchor(|s.slab|, FREE);
    assert Chain(s.next, s.prev, a, l);
    if i < |l| {
      ListedRun(s, i);
      assert s.next[l[i]] == After(l, a, i);
    }
  }

  lemma NoneFits(s: Snap, pages: nat)
    requires Inv(s) && forall j :: 0 <= j < |s.lists[FREE]| ==> 0 <= s.lists[FREE][j] < |s.slab| && s.slab[s.lists[FREE][j]] < pages
    ensures NoRunOf(s, pages)
  {
    forall h | Head(s, h) && s.runs[h].FreeRun? ensures s.runs[h].len < pages {
      assert PageOk(s, h) && Home(s, h) == FREE;
      var j :| 0 <= j < |s.lists[FREE]| && s.lists[FREE][j] == h;
    }
  }

  lemma OnlyThen(s: Snap, m: Snap, t: Snap, x: int)
    requires Sized(s) && Sized(m) && Sized(t) && |m.slab| == |t.slab| == |s.slab| && OnlyPage(s, m, x) && OnlyPage(m, t, -1)
    ensures OnlyPage(s, t, x)
  {
    forall h | 0 <= h < |s.slab| && h != x
      ensures SamePage(s, t, h) || (!Head(s, h) && !Head(t, h)) || (Idle(s, h) && Idle(t, h))
    {
      assert SamePage(s, m, h) || (Idle(s, h) && Idle(m, h));
      assert SamePage(m, t, h) || (Idle(m, h) && Idle(t, h));
    }
  }

  ghost predicate Joined(s: Snap, m: Snap, x: int)
  {
    && 0 <= x < |s.slab| && |s.next| == |s.prev| == |s.tag| == |s.slab| + LISTS
    && 0 <= s.next[x] < |s.next| && |m.next| == |m.prev| == |m.tag| == |s.next|
    && (forall r :: 0 <= r < |s.next| ==> m.next[r] == if r == s.prev[x] then s.next[x] else s.next[r])
    && (forall r :: 0 <= r < |s.next| ==> m.prev[r] == if r == s.next[x] then s.prev[x] else s.prev[r])
    && (forall r :: 0 <= r < |s.next| ==> m.tag[r] == if r == s.next[x] then s.tag[x] else s.tag[r])
    && m.slab == s.slab && m.bits == s.bits && m.runs == s.runs && m.owner == s.owner && m.lists == s.lists
  }

  /** Page x was unlinked, and its own descriptor set to the given slab and tag. */
  ghost predicate Took(s: Snap, t: Snap, x: int, w: nat, ty: nat)
  {
    && 0 <= x < |s.slab| && |s.next| == |s.prev| == |s.tag| == |s.slab| + LISTS && |t.next| == |t.prev| == |t.tag| == |s.next|
    && 0 <= s.next[x] < |s.next| && t.slab == s.slab[x := w] && t.next[x] == NULL && t.tag[x] == ty && t.bits == s.bits
    && (forall r :: 0 <= r < |s.next| && r != x ==> t.next[r] == if r == s.prev[x] then s.next[x] else s.next[r])
    && (forall r :: 0 <= r < |s.next| && r != x ==> t.prev[r] == if r == s.next[x] then s.prev[x] else s.prev[r])
    && (forall r :: 0 <= r < |s.next| && r != x ==> t.tag[r] == if r == s.next[x] then s.tag[x] else s.tag[r])
  }

  lemma TakeKeeps(s: Snap, t: Snap, i: int)
    requires Inv(s) && 0 <= i < |s.lists[FREE]|
    requires var x := s.lists[FREE][i];
      && 0 <= x < |s.slab| && Took(s, t, x, s.slab[x] + PAGE_START, PAGE_TYPE) && t.owner == s.owner
      && t.runs == s.runs[x := BusyRun(s.slab[x])]
      && |t.lists| == LISTS && t.lists[FREE] == Drop(s.lists[FREE], i)
      && (forall j :: 0 <= j < LISTS && j != FREE ==> t.lists[j] == s.lists[j])
    ensures Inv(t) && OnlyPage(s, t, s.lists[FREE][i]) && Head(t, s.lists[FREE][i])
  {
    CutReady(s, i, 0);
    CutTags(s, t, i);
    ListedRun(s, i);
    TakeOnly(s, t, s.lists[FREE][i]);
    TookRunHolds(s, t, i);
    RunTaken(s, t, i);
  }

  lemma TookRunHolds(s: Snap, t: Snap, i: int)
    requires Sized(s) && 0 <= i < |s.lists[FREE]| && Sized(t)
    requires var x := s.lists[FREE][i];
      && 0 <= x < |s.slab| && Took(s, t, x, s.slab[x] + PAGE_START, PAGE_TYPE) && t.owner == s.owner
      && t.runs == s.runs[x := BusyRun(s.slab[x])] && s.runs[x] == FreeRun(s.slab[x])
      && (forall r :: 0 <= r < |s.slab| ==> t.tag[r] == s.tag[r])
    requires t.lists[FREE] == Drop(s.lists[FREE], i) && forall j :: 0 <= j < LISTS && j != FREE ==> t.lists[j] == s.lists[j]
    ensures TookRun(s, t, i)
  {
  }

  lemma TakeOnly(s: Snap, t: Snap, x: int)
    requires Sized(s) && 0 <= x < |s.slab| && Took(s, t, x, s.slab[x] + PAGE_START, PAGE_TYPE) && t.owner == s.owner
    requires t.runs == s.runs[x := BusyRun(s.slab[x])] && |t.lists| == LISTS && s.tag[x] == PAGE_TYPE
    requires s.next[x] < |s.slab| ==> s.tag[s.next[x]] == PAGE_TYPE
    ensures Sized(t) && OnlyPage(s, t, x) && forall r :: 0 <= r < |s.slab| ==> t.tag[r] == s.tag[r]
  {}

  /** What the stores of a cut make of one link field: y takes the place of x next to p. */
  lemma CutField(f: seq<int>, x: int, y: int, p: int, value: int)
    requires 0 <= x < |f| && 0 <= y < |f| && 0 <= p < |f| && x != y && p != x && p != y
    ensures var f' := f[y := value][p := y][x := NULL];
      && f'[x] == NULL && f'[y] == value
      && forall r :: 0 <= r < |f| && r != x && r != y ==> f'[r] == if r == p then y else f[r]
  {}

  ghost predicate CutStores(s: Snap, s': Snap, page: int, pages: nat)
  {
    var rest := page + pages;
    && 0 <= page < |s.slab| && rest < |s.slab| && |s.next| == |s.prev| == |s.tag| == |s.slab| + LISTS
    && |s'.slab| == |s.slab| && |s'.next| == |s'.prev| == |s'.tag| == |s.next|
    && 0 <= s.next[page] < |s.next| && pages < s.slab[page]
    && s'.slab == s.slab[rest := s.slab[page] - pages][page := pages + PAGE_START]
    && s'.next[page] == NULL && s'.next[rest] == s.next[page] && s'.prev[rest] == s.prev[page]
    && (forall r :: 0 <= r < |s.next| && r != page && r != rest ==> s'.next[r] == if r == s.prev[page] then rest else s.next[r])
    && (forall r :: 0 <= r < |s.next| && r != page && r != rest ==> s'.prev[r] == if r == s.next[page] then rest else s.prev[r])
    && (forall r :: 0 <= r < |s.next| && r != page && r != rest && r != s.next[page] ==> s'.tag[r] == s.tag[r])
    && s'.tag[rest] == s.tag[page] && s'.tag[s.next[page]] == PAGE_TYPE && s'.tag[page] == PAGE_TYPE
    && s'.bits == s.bits
  }

  lemma CutStoresHold(s: Snap, s': Snap, page: int, rest: int)
    requires 0 <= page < rest < |s.slab| && rest - page < s.slab[page] && |s.next| == |s.prev| == |s.tag| == |s.slab| + LISTS
    requires var n, p := s.next[page], s.prev[page];
      && 0 <= n < |s.next| && 0 <= p < |s.next| && n != page && p != page && n != rest && p != rest
      && s'.slab == s.slab[rest := s.slab[page] - (rest - page)][page := rest - page + PAGE_START]
      && s'.next == s.next[rest := n][p := rest][page := NULL]
      && s'.prev == s.prev[rest := p][n := rest][page := NULL]
      && s'.tag == s.tag[rest := s.tag[page]][n := PAGE_TYPE][page := PAGE_TYPE] && s'.bits == s.bits
    ensures CutStores(s, s', page, rest - page)
  {
    CutField(s.next, page, rest, s.prev[page], s.next[page]);
    CutField(s.prev, page, rest, s.next[page], s.prev[page]);
  }

  /** The fields after the stores of a cut, with what they now stand for. */
  ghost function CutGhost(s: Snap, r: Snap, i: int, pages: nat): Snap
    requires |s.lists| == LISTS && 0 <= i < |s.lists[FREE]| && |s.runs| == |s.slab|
    requires var x := s.lists[FREE][i]; 0 <= x < |s.slab| && x + pages < |s.slab| && pages < s.slab[x]
  {
    var x := s.lists[FREE][i];
    var y, len, l, o := x + pages, s.slab[x], s.lists[FREE], s.owner;
    r.(runs := s.runs[x := BusyRun(pages)][y := FreeRun(len - pages)],
       owner := seq(|o|, j requires 0 <= j < |o| => if y <= j < x + len then y else o[j]),
       lists := s.lists[FREE := l[i := y]])
  }

  lemma CutKeeps(s: Snap, t: Snap, i: int, pages: nat)
    requires Inv(s) && 0 <= i < |s.lists[FREE]| && 1 <= pages
    requires var x := s.lists[FREE][i]; CutStores(s, t, x, pages) && t == CutGhost(s, t, i, pages)
    ensures Inv(t) && OnlyPage(s, t, s.lists[FREE][i]) && Head(t, s.lists[FREE][i])
    ensures t.runs[s.lists[FREE][i]] == BusyRun(pages)
    ensures forall j :: 0 <= j < LISTS && j != FREE ==> t.lists[j] == s.lists[j]
  {
    CutReady(s, i, pages);
    CutTags(s, t, i);
    CutOffHolds(s, t, i, pages);
    ListedRun(s, i);
    RunCut(s, t, i, pages);
    CutOnly(s, t, i, pages);
  }

  lemma CutOffHolds(s: Snap, t: Snap, i: int, pages: nat)
    requires Sized(s) && 0 <= i < |s.lists[FREE]| && 1 <= pages
    requires var x := s.lists[FREE][i]; CutStores(s, t, x, pages) && t == CutGhost(s, t, i, pages)
    requires var x := s.lists[FREE][i];
      && s.runs[x] == FreeRun(s.slab[x]) && x + s.slab[x] <= |s.slab| && s.tag[x] == PAGE_TYPE
      && (s.next[x] < |s.slab| ==> s.tag[s.next[x]] == PAGE_TYPE)
    ensures CutOff(s, t, i, pages)
    ensures forall j :: 0 <= j < LISTS && j != FREE ==> t.lists[j] == s.lists[j]
  {}

  lemma CutReady(s: Snap, i: int, pages: nat)
    requires Inv(s) && 0 <= i < |s.lists[FREE]|
    ensures var x := s.lists[FREE][i];
      && 0 <= x < |s.slab| && s.runs[x] == FreeRun(s.slab[x]) && x + s.slab[x] <= |s.slab| && s.tag[x] == PAGE_TYPE
      && 0 <= s.next[x] < |s.next| && 0 <= s.prev[x] < |s.next| && s.next[x] != x && s.prev[x] != x
      && (1 <= pages < s.slab[x] ==> s.next[x] != x + pages && s.prev[x] != x + pages && s.owner[x + pages] == x)
  {
    var x := s.lists[FREE][i];
    ListedRun(s, i);
    Neighbours(s, FREE, i);
    if 1 <= pages < s.slab[x] {
      assert s.owner[x + pages] == x;
      assert Home(s, x + pages) == NULL;
    }
  }

  /** The neighbours of a free run in its list are free runs too, so their tags do not change. */
  lemma CutTags(s: Snap, s': Snap, i: int)
    requires Inv(s) && 0 <= i < |s.lists[FREE]| && 0 <= s.lists[FREE][i] < |s.slab|
    ensures var nx := s.next[s.lists[FREE][i]]; 0 <= nx < |s.slab| ==> s.tag[nx] == PAGE_TYPE
  {
    var x := s.lists[FREE][i];
    Neighbours(s, FREE, i);
    if 0 <= s.next[x] < |s.slab| {
      assert s.next[x] in s.lists[FREE];
      assert Home(s, s.next[x]) == FREE;
      assert PageOk(s, s.next[x]);
    }
  }

  lemma CutOnly(s: Snap, s': Snap, i: int, pages: nat)
    requires Inv(s) && 0 <= i < |s.lists[FREE]| && CutOff(s, s', i, pages) && Head(s, s.lists[FREE][i])
    ensures OnlyPage(s, s', s.lists[FREE][i])
  {}
}
