/** The 32-bit radix trie of src/core/ngx_radix_tree.c, as a map from address prefixes to values. */
module Radix {
  import opened Words

  /** A prefix as the turns taken from the root: true is a set bit, a right turn. */
  type Path = seq<bool>

  /** NGX_RADIX_NO_VALUE */
  const NO_VALUE: int := 0xffff_ffff_ffff_ffff

  /** The turns the walks take for key and mask when n bits are left; bit n - 1 is the next one. */
  function Turns(key: nat, mask: nat, n: nat): (p: Path)
    ensures |p| <= n
  {
    if n == 0 || !Bit(mask, n - 1) then [] else [Bit(key, n - 1)] + Turns(key, mask, n - 1)
  }

  /** The prefix an insert or delete of key/mask speaks about. */
  function PrefixOf(key: nat, mask: nat): (p: Path) {
    Turns(key, mask, 32)
  }

  /** All the low n bits of an address, highest first. */
  function Route(key: nat, n: nat): (p: Path)
    ensures |p| == n
  {
    if n == 0 then [] else [Bit(key, n - 1)] + Route(key, n - 1)
  }

  /** The value of the longest prefix in m among the n shortest prefixes of the route. */
  function Best(m: map<Path, int>, route: Path, n: nat): int
    requires n <= |route| + 1
  {
    if n == 0 then NO_VALUE
    else if route[..n - 1] in m then m[route[..n - 1]]
    else Best(m, route, n - 1)
  }

  function LongestMatch(m: map<Path, int>, key: nat): int {
    Best(m, Route(key, 32), 33)
  }

  // Paths against address/mask pairs.

  /** A netmask: ones, then zeros. */
  ghost predicate Contiguous(mask: nat) {
    forall i: nat, j: nat :: i < j < 32 && Bit(mask, i) ==> Bit(mask, j)
  }

  /** (x & mask) == (key & mask), below bit n */
  ghost predicate Agree(key: nat, mask: nat, x: nat, n: nat) {
    forall i: nat :: i < n && Bit(mask, i) ==> Bit(key, i) == Bit(x, i)
  }

  lemma ConsPrefix(a: bool, p: Path, b: bool, q: Path)
    ensures [a] + p <= [b] + q <==> a == b && p <= q
  {
    var s, t := [a] + p, [b] + q;
    assert s[1..] == p && t[1..] == q;
    if s <= t {
      assert s[0] == t[0] && t[..|s|][1..] == q[..|p|];
    }
  }

  lemma {:induction false} TurnsMatch(key: nat, mask: nat, x: nat, n: nat)
    requires n <= 32 && Contiguous(mask)
    ensures Turns(key, mask, n) <= Route(x, n) <==> Agree(key, mask, x, n)
  {
    if n > 0 && Bit(mask, n - 1) {
      TurnsMatch(key, mask, x, n - 1);
      var p, q := Turns(key, mask, n - 1), Route(x, n - 1);
      ConsPrefix(Bit(key, n - 1), p, Bit(x, n - 1), q);
      if Agree(key, mask, x, n) {
        assert Bit(mask, n - 1);
      }
    } else if n > 0 {
      forall i: nat | i < n ensures !Bit(mask, i) {
        if i < n - 1 && Bit(mask, i) {
          assert false;
        }
      }
    }
  }

  /** A stored prefix is on an address's route exactly when the masked bits agree. */
  lemma PrefixMatches(key: nat, mask: nat, x: nat)
    requires Contiguous(mask)
    ensures PrefixOf(key, mask) <= Route(x, 32) <==> Agree(key, mask, x, 32)
  {
    TurnsMatch(key, mask, x, 32);
  }

  /** Best finds the longest: a prefix in the map with nothing longer in it, or none at all. */
  lemma {:induction false} BestIsLongest(m: map<Path, int>, route: Path, n: nat) returns (k: int)
    requires n <= |route| + 1
    ensures -1 <= k < n
    ensures forall j :: k < j < n ==> route[..j] !in m
    ensures k >= 0 ==> route[..k] in m && Best(m, route, n) == m[route[..k]]
    ensures k < 0 ==> Best(m, route, n) == NO_VALUE
  {
    if n == 0 {
      k := -1;
    } else if route[..n - 1] in m {
      k := n - 1;
    } else {
      k := BestIsLongest(m, route, n - 1);
    }
  }

  function Parent(p: Path): Path
    requires p != []
  {
    p[..|p| - 1]
  }

  lemma ChildParent(p: Path, b: bool)
    ensures p + [b] != [] && Parent(p + [b]) == p && (p + [b])[|p|] == b
  {}

  lemma LastTurn(p: Path)
    ensures p == [] || p == Parent(p) + [false] || p == Parent(p) + [true]
  {
    if p != [] {
      if p[|p| - 1] {
        assert p == Parent(p) + [true];
      } else {
        assert p == Parent(p) + [false];
      }
    }
  }

  // Runs of requests on the plain map.

  datatype Request = Put(key: nat, mask: nat, value: int) | Drop(key: nat, mask: nat)

  /** Insert answers OK exactly for an absent prefix, delete exactly for a present one. */
  function Reply(m: map<Path, int>, r: Request): bool {
    r.Put? <==> PrefixOf(r.key, r.mask) !in m
  }

  function Effect(m: map<Path, int>, r: Request): map<Path, int> {
    match r
    case Put(key, mask, value) => if Reply(m, r) then m[PrefixOf(key, mask) := value] else m
    case Drop(key, mask) => m - {PrefixOf(key, mask)}
  }

  /** What the callers must keep to: real values, and no delete of the empty prefix from a trie without any other. */
  ghost predicate Permitted(m: map<Path, int>, r: Request) {
    match r
    case Put(_, _, value) => value != NO_VALUE
    case Drop(key, mask) => PrefixOf(key, mask) == [] ==> exists q :: q in m && q != []
  }

  ghost predicate Allowed(m: map<Path, int>, requests: seq<Request>)
    decreases |requests|
  {
    requests != [] ==> Permitted(m, requests[0]) && Allowed(Effect(m, requests[0]), requests[1..])
  }

  function Replay(m: map<Path, int>, requests: seq<Request>): map<Path, int>
    decreases |requests|
  {
    if requests == [] then m else Replay(Effect(m, requests[0]), requests[1..])
  }

  function Replies(m: map<Path, int>, requests: seq<Request>): seq<bool>
    decreases |requests|
  {
    if requests == [] then [] else [Reply(m, requests[0])] + Replies(Effect(m, requests[0]), requests[1..])
  }

  /** The longest match in terms of addresses and masks. */
  lemma LongestMaskWins(m: map<Path, int>, key: nat, mask: nat, x: nat)
    requires Contiguous(mask) && PrefixOf(key, mask) in m && Agree(key, mask, x, 32)
    requires forall p :: p in m && p <= Route(x, 32) ==> |p| <= |PrefixOf(key, mask)|
    ensures LongestMatch(m, x) == m[PrefixOf(key, mask)]
  {
    PrefixMatches(key, mask, x);
    var route, p := Route(x, 32), PrefixOf(key, mask);
    assert route[..|p|] == p;
    var k := BestIsLongest(m, route, 33);
    assert route[..k] <= route;
  }

  lemma NoMaskMatches(m: map<Path, int>, x: nat)
    requires forall p :: p in m ==> !(p <= Route(x, 32))
    ensures LongestMatch(m, x) == 0xffff_ffff_ffff_ffff
  {
    var route := Route(x, 32);
    assert forall k :: 0 <= k <= 32 ==> route[..k] <= route;
    var k := BestIsLongest(m, route, 33);
  }

  class Node {
    var left: Node?
    var right: Node?
    var parent: Node?
    var value: int
    ghost var path: Path
    ghost var idle: bool

    constructor ()
      ensures left == null && right == null && parent == null && value == NO_VALUE && path == [] && idle
    {
      left, right, parent, value, path, idle := null, null, null, NO_VALUE, [], true;
    }

    function Child(b: bool): Node?
      reads this
    {
      if b then right else left
    }
  }

  class Tree {
    const root: Node
    var free: Node?

    ghost var at: map<Path, Node>
    ghost var model: map<Path, int>
    ghost var spare: seq<Node>
    ghost var repr: set<Node>

    /** The link from the node at p in direction b. */
    ghost predicate Link(p: Path, b: bool)
      requires p in at
      reads this`at, at[p]
    {
      if at[p].Child(b) == null then p + [b] !in at else p + [b] in at && at[p + [b]] == at[p].Child(b)
    }

    /** What holds at one path: links down and up, and the value the model has for it. */
    ghost predicate Local(p: Path)
      requires p in at
      reads this`at, this`model, this`repr, at[p]
    {
      var n := at[p];
      && n in repr && n.path == p && !n.idle && |p| <= 32
      && Link(p, false) && Link(p, true)
      && (if p == [] then n.parent == null else Parent(p) in at && n.parent == at[Parent(p)])
      && (if n.value == NO_VALUE then p !in model else p in model && model[p] == n.value)
    }

    /** The node at p has a child or a value. */
    ghost predicate Needed(p: Path)
      requires p in at
      reads this`at, at[p]
    {
      at[p].left != null || at[p].right != null || at[p].value != NO_VALUE
    }

    /** The free list, linked through `right`. */
    ghost predicate Spare()
      reads this`free, this`spare, this`repr, spare
    {
      && (forall i :: 0 <= i < |spare| ==> spare[i] in repr && spare[i].idle)
      && (forall i, j :: 0 <= i < j < |spare| ==> spare[i] != spare[j])
      && free == (if |spare| > 0 then spare[0] else null)
      && (forall i {:trigger spare[i].right} :: 0 <= i < |spare| ==>
          spare[i].right == if i + 1 < |spare| then spare[i + 1] else null)
    }

    ghost predicate Linked()
      reads this, at.Values
    {
      && [] in at && at[[]] == root && model.Keys <= at.Keys
      && (forall p {:trigger Local(p)} :: p in at ==> Local(p))
    }

    /** Every node but the root, and perhaps the one at `but`, has a child or a value. */
    ghost predicate NoWaste(but: Path)
      reads this`at, at.Values
    {
      forall p {:trigger Needed(p)} :: p in at && p != [] && p != but ==> Needed(p)
    }

    ghost predicate Wf(but: Path)
      reads this, at.Values, spare
    {
      Linked() && Spare() && NoWaste(but)
    }

    ghost predicate Valid()
      reads this, at.Values, spare
    {
      Wf([])
    }

    /** ngx_radix_tree_create, without preallocation */
    constructor ()
      ensures Valid() && model == map[] && fresh(repr)
    {
      root := new Node();
      free := null;
      new;
      root.idle := false;
      at, model, spare, repr := map[[] := root], map[], [], {root};
      assert Local([]);
    }

    /** ngx_radix_alloc: a node from the free list, or a new one. */
    method Alloc() returns (n: Node)
      requires Spare()
      modifies this`free, this`spare, this`repr
      ensures Spare() && n !in spare && n.idle && n in repr
      ensures if old(spare) != [] then n == old(spare)[0] && spare == old(spare)[1..] && repr == old(repr)
        else fresh(n) && spare == [] && repr == old(repr) + {n}
    {
      if free != null {
        n := free;
        free := free.right;
        spare := spare[1..];
      } else {
        n := new Node();
        repr := repr + {n};
      }
    }

    twostate predicate Hung(new n: Node, new c: Node, new b: bool)
      reads this, n, c, repr
    {
      && c in repr && c != n && old(allocated(c) ==> c.idle) && old(repr) <= repr
      && c.path == n.path + [b] && !c.idle && c.left == null && c.right == null && c.parent == n && c.value == NO_VALUE
      && n.Child(b) == c && old(allocated(n)) && n.Child(!b) == old(n.Child(!b))
      && n.parent == old(n.parent) && n.value == old(n.value) && n.path == old(n.path) && !n.idle
      && at == old(at)[n.path + [b] := c] && model == old(model)
      && (forall x :: x in old(repr) && x != c && x != n ==> unchanged(x))
    }

    /** The stores of one turn of the second loop of ngx_radix32tree_insert. */
    method Hang(n: Node, b: bool) returns (c: Node)
      requires Spare() && n in repr && !n.idle && n.Child(b) == null
      modifies this`free, this`spare, this`repr, this`at, repr
      ensures Spare()
      ensures repr == old(repr) || (repr == old(repr) + {c} && fresh(c))
      ensures Hung(n, c, b)
    {
      c := Alloc();
      c.right, c.left, c.parent, c.value := null, null, n, NO_VALUE;
      c.path, c.idle := n.path + [b], false;
      if b {
        n.right := c;
      } else {
        n.left := c;
      }
      at := at[n.path + [b] := c];
    }

    twostate lemma HungLocal(new n: Node, new c: Node, new b: bool, new r: Path)
      requires Hung(n, c, b) && |n.path| < 32 && old(n.Child(b)) == null
      requires old(Linked()) && n.path in old(at) && old(at)[n.path] == n
      requires r in at
      ensures Local(r)
      ensures old(NoWaste(n.path)) && r != [] && r != n.path + [b] ==> Needed(r)
    {
      var q := n.path + [b];
      assert old(Local(n.path));
      ChildParent(n.path, b);
      ChildParent(r, false);
      ChildParent(r, true);
      if r == q {
        assert forall x :: q + [x] in old(at) ==> old(Local(q + [x]));
      } else {
        assert old(Local(r));
        assert r in old(at) && old(NoWaste(n.path)) && r != [] && r != n.path ==> old(Needed(r));
      }
    }

    twostate lemma HungAll(new n: Node, new c: Node, new b: bool)
      requires Hung(n, c, b) && |n.path| < 32 && old(n.Child(b)) == null
      requires old(Linked()) && n.path in old(at) && old(at)[n.path] == n && old(NoWaste(n.path))
      ensures Linked() && NoWaste(c.path)
    {
      forall r | r in at ensures Local(r) {
        HungLocal(n, c, b, r);
      }
      forall r | r in at && r != [] && r != c.path ensures Needed(r) {
        HungLocal(n, c, b, r);
      }
      ChildParent(n.path, b);
    }

    /** One turn of the second loop of ngx_radix32tree_insert: a new child for the node at p. */
    method AddChild(n: Node, b: bool) returns (c: Node)
      requires Wf(n.path) && n.path in at && at[n.path] == n && |n.path| < 32 && n.Child(b) == null
      modifies this`free, this`spare, this`repr, this`at, repr
      ensures Wf(c.path) && c.path == old(n.path) + [b] && c.Child(false) == null && c.Child(true) == null
      ensures at == old(at)[old(n.path) + [b] := c] && model == old(model)
      ensures fresh(repr - old(repr))
    {
      assert Local(n.path);
      c := Hang(n, b);
      HungAll(n, c, b);
    }

    /** A node is reached only through the nodes at its prefixes. */
    lemma {:induction false} Closed(p: Path, k: nat)
      requires Linked() && p in at && k <= |p|
      ensures p[..k] in at
      decreases |p| - k
    {
      if k == |p| {
        assert p[..k] == p;
      } else {
        Closed(p, k + 1);
        assert Local(p[..k + 1]);
        assert Parent(p[..k + 1]) == p[..k];
      }
    }

    twostate predicate Assigned(new n: Node)
      reads this, n
    {
      && old(allocated(n)) && at == old(at) && repr == old(repr) && n.path in at && at[n.path] == n
      && n.left == old(n.left) && n.right == old(n.right) && n.parent == old(n.parent)
      && n.path == old(n.path) && n.idle == old(n.idle)
      && model == (if n.value == NO_VALUE then old(model) - {n.path} else old(model)[n.path := n.value])
      && (n.value == NO_VALUE ==> n.left != null || n.right != null)
    }

    twostate lemma AssignedLocal(new n: Node, new r: Path)
      requires old(allocated(n)) && old(Linked()) && old(NoWaste(n.path)) && Assigned(n)
      requires r in at && (r != n.path ==> unchanged(at[r]))
      ensures Local(r) && (r != [] ==> Needed(r))
    {
      assert old(Local(r)) && old(Local(n.path));
      assert r != [] && r != n.path ==> old(Needed(r));
    }

    twostate lemma AssignedAll(new n: Node)
      requires old(allocated(n)) && old(Linked()) && old(NoWaste(n.path)) && Assigned(n)
      requires forall x {:trigger x in at.Values} :: x in at.Values && x != n ==> unchanged(x)
      ensures Linked() && NoWaste([])
    {
      forall r | r in at ensures Local(r) && (r != [] ==> Needed(r)) {
        assert at[r] in at.Values && old(Local(r)) && old(Local(n.path));
        AssignedLocal(n, r);
      }
    }

    /** node->value = value, for a node at its path. */
    method SetValue(n: Node, value: int)
      requires Linked() && Spare() && NoWaste(n.path) && n.path in at && at[n.path] == n
      requires value == NO_VALUE ==> n.left != null || n.right != null
      modifies n`value, this`model
      ensures Valid()
      ensures model == if value == NO_VALUE then old(model) - {n.path} else old(model)[n.path := value]
    {
      assert Local(n.path);
      n.value := value;
      model := if value == NO_VALUE then model - {n.path} else model[n.path := value];
      AssignedAll(n);
    }

    /** The first loop of ngx_radix32tree_insert: down the existing nodes; n mask bits are left. */
    method Descend(key: nat, mask: nat) returns (node: Node, next: Node?, n: nat)
      requires Valid()
      ensures node.path in at && at[node.path] == node && |node.path| + n == 32
      ensures node.path + Turns(key, mask, n) == PrefixOf(key, mask)
      ensures if next != null then node.path == PrefixOf(key, mask) else n > 0 && Bit(mask, n - 1) && node.Child(Bit(key, n - 1)) == null
    {
      n, node, next := 32, root, root;
      assert Local([]);
      assert [] + Turns(key, mask, 32) == PrefixOf(key, mask);
      while n > 0 && Bit(mask, n - 1)
        invariant |node.path| + n == 32 && next != null
        invariant node.path in at && at[node.path] == node
        invariant node.path + Turns(key, mask, n) == PrefixOf(key, mask)
      {
        assert Local(node.path);
        var b := Bit(key, n - 1);
        next := if b then node.right else node.left;
        if next == null {
          break;
        }
        assert Link(node.path, b) && Local(node.path + [b]);
        n, node := n - 1, next;
      }
    }

    /** The second loop of ngx_radix32tree_insert. */
    method Grow(top: Node, key: nat, mask: nat, bits: nat) returns (node: Node)
      requires Valid() && top.path in at && at[top.path] == top && |top.path| + bits == 32
      requires bits > 0 && Bit(mask, bits - 1) && top.Child(Bit(key, bits - 1)) == null
      modifies this`free, this`spare, this`repr, this`at, repr
      ensures Wf(node.path) && model == old(model) && fresh(repr - old(repr))
      ensures node.path in at && at[node.path] == node && node.path == old(top.path) + Turns(key, mask, bits)
    {
      node := top;
      var n := bits;
      while n > 0 && Bit(mask, n - 1)
        invariant n <= 32 && |node.path| + n == 32
        invariant node.path in at && at[node.path] == node
        invariant node.path + Turns(key, mask, n) == old(top.path) + Turns(key, mask, bits)
        invariant n > 0 && Bit(mask, n - 1) ==> node.Child(Bit(key, n - 1)) == null
        invariant Wf(node.path) && model == old(model) && fresh(repr - old(repr))
      {
        Step(node.path, key, mask, n);
        assert Local(node.path);
        node := AddChild(node, Bit(key, n - 1));
        n := n - 1;
      }
    }

    /** ngx_radix32tree_insert: BUSY exactly when the prefix has a value already. */
    method Insert(key: nat, mask: nat, value: int) returns (ok: bool)
      requires Valid() && value != NO_VALUE
      modifies this`free, this`spare, this`repr, this`at, this`model, repr
      ensures Valid() && fresh(repr - old(repr))
      ensures ok <==> PrefixOf(key, mask) !in old(model)
      ensures model == if ok then old(model)[PrefixOf(key, mask) := value] else old(model)
    {
      var node, next, n := Descend(key, mask);
      assert Local(node.path);
      if next != null {
        if node.value != NO_VALUE {
          return false;
        }
        SetValue(node, value);
        return true;
      }
      NotThere(node.path, key, mask, n);
      node := Grow(node, key, mask, n);
      assert Local(node.path);
      SetValue(node, value);
      return true;
    }

    /** A walk that meets a missing child has found that the prefix is not there. */
    lemma NotThere(p: Path, key: nat, mask: nat, n: nat)
      requires Linked() && p in at && n > 0 && Bit(mask, n - 1) && at[p].Child(Bit(key, n - 1)) == null
      ensures p + Turns(key, mask, n) !in at
    {
      var q := p + Turns(key, mask, n);
      assert Local(p);
      assert q[..|p| + 1] == p + [Bit(key, n - 1)];
      if q in at {
        Closed(q, |p| + 1);
      }
    }

    /** Below a missing child nothing is there. */
    lemma NothingBelow(route: Path, d: nat)
      requires Linked() && d <= |route| && route[..d] !in at
      ensures forall e :: d <= e <= |route| ==> route[..e] !in at
    {
      forall e | d <= e <= |route| ensures route[..e] !in at {
        assert route[..e][..d] == route[..d];
        if route[..e] in at {
          Closed(route[..e], d);
        }
      }
    }

    lemma Depth(p: Path)
      requires Linked() && p in at
      ensures |p| <= 32
    {
      assert Local(p);
    }

    /** The trie is 32 levels deep. */
    lemma NothingAtBottom(p: Path, b: bool)
      requires Linked() && p in at && |p| == 32
      ensures at[p].Child(b) == null
    {
      assert Local(p);
      assert Link(p, b);
      if p + [b] in at {
        Depth(p + [b]);
      }
    }

    /** ngx_radix32tree_find */
    method Find(key: nat) returns (value: int)
      requires Valid()
      ensures value == LongestMatch(model, key)
    {
      ghost var route := Route(key, 32);
      var n := 32;
      var node: Node? := root;
      value := NO_VALUE;
      ghost var d := 0;
      assert Local([]);
      while node != null
        invariant n == if d <= 32 then 32 - d else 0
        invariant 0 <= d <= 33 && value == Best(model, route, d)
        invariant node != null ==> d <= 32 && route[..d] in at && at[route[..d]] == node
        invariant node == null ==> forall e :: d <= e <= 32 ==> route[..e] !in at
        decreases 33 - d
      {
        assert Local(route[..d]);
        if node.value != NO_VALUE {
          value := node.value;
        }
        var b := n > 0 && Bit(key, n - 1);
        assert Link(route[..d], b);
        node := if b then node.right else node.left;
        if d < 32 {
          RouteAt(key, 32, d);
          assert route[..d + 1] == route[..d] + [b];
          if node == null {
            NothingBelow(route, d + 1);
          }
        } else {
          NothingAtBottom(route[..d], b);
        }
        d := d + 1;
        n := if n > 0 then n - 1 else 0;
      }
      BestSkips(model, route, d, 33);
    }

    twostate predicate Pruned(new n: Node, new c: Node)
      reads this, n, c, repr
    {
      && old(allocated(n)) && old(allocated(c)) && c != n && old(repr) == repr && c.idle && c in repr && n in repr
      && c.path == old(c.path) && c.path != [] && c.path in old(at)
      && n.Child(!c.path[|c.path| - 1]) == old(n.Child(!c.path[|c.path| - 1])) && n.Child(c.path[|c.path| - 1]) == null
      && n.parent == old(n.parent) && n.value == old(n.value) && n.path == old(n.path) && n.idle == old(n.idle)
      && at == old(at) - {c.path} && model == old(model) - {c.path}
      && (forall x :: x in repr && x != c && x != n ==> unchanged(x))
    }

    twostate lemma PrunedLocal(new n: Node, new c: Node, new r: Path)
      requires Pruned(n, c) && old(Linked()) && old(at)[c.path] == c && old(c.parent) == n
      requires old(c.left) == null && old(c.right) == null
      requires r in at
      ensures Local(r)
      ensures old(NoWaste(c.path)) && r != [] && r != n.path ==> Needed(r)
    {
      assert old(Local(r)) && old(Local(c.path)) && old(Local(Parent(c.path)));
      ChildParent(r, false);
      ChildParent(r, true);
      var b := c.path[|c.path| - 1];
      assert c.path == Parent(c.path) + [b];
      assert c.path + [false] !in old(at) && c.path + [true] !in old(at) by {
        assert old(Link(c.path, false)) && old(Link(c.path, true));
      }
      LastTurn(r);
      assert old(NoWaste(c.path)) && r != [] && r != n.path ==> old(Needed(r));
    }

    twostate lemma PrunedAll(new n: Node, new c: Node)
      requires Pruned(n, c) && old(Linked()) && old(at)[c.path] == c && old(c.parent) == n && old(NoWaste(c.path))
      requires old(c.left) == null && old(c.right) == null
      ensures Linked() && NoWaste(n.path) && n.path == Parent(c.path) && n.path in at && at[n.path] == n
    {
      assert old(Local(c.path)) && old(Local(Parent(c.path)));
      forall r | r in at ensures Local(r) && (r != [] && r != n.path ==> Needed(r)) {
        PrunedLocal(n, c, r);
      }
    }

    /** A node is the child of its parent in the direction of its last turn, and not in the other. */
    lemma ParentOf(p: Path) returns (b: bool)
      requires Linked() && p in at && p != []
      ensures b == p[|p| - 1] && Parent(p) in at && at[p].parent == at[Parent(p)] && at[p] != at[Parent(p)]
      ensures at[Parent(p)].Child(b) == at[p] && at[Parent(p)].Child(!b) != at[p]
    {
      b := p[|p| - 1];
      var q := Parent(p);
      assert Local(p);
      assert Local(q);
      assert p == q + [b];
      assert Link(q, b) && Link(q, !b);
      if q + [!b] in at {
        assert Local(q + [!b]);
        assert (q + [!b])[|q|] == !b;
      }
    }

    /** The stores of one turn of the loop of ngx_radix32tree_delete. */
    method Cut(c: Node, n: Node, ghost b: bool)
      requires Spare() && c in repr && !c.idle && n in repr && n != c && !n.idle
      requires c.parent == n && c.path != [] && c.path in at && b == c.path[|c.path| - 1] && n.Child(b) == c && n.Child(!b) != c
      modifies this`free, this`spare, this`at, this`model, n`left, n`right, c`right, c`idle
      ensures Spare() && Pruned(n, c)
    {
      if n.right == c {
        n.right := null;
      } else {
        n.left := null;
      }
      c.right := free;
      free := c;
      c.idle := true;
      spare := [c] + spare;
      at := at - {c.path};
      model := model - {c.path};
    }

    /** One turn of the loop of ngx_radix32tree_delete: a childless node goes to the free list. */
    method Prune(c: Node) returns (n: Node)
      requires Wf(c.path) && c.path != [] && c.path in at && at[c.path] == c && c.left == null && c.right == null
      modifies this`free, this`spare, this`at, this`model, repr
      ensures Wf(n.path) && at == old(at) - {old(c.path)} && model == old(model) - {old(c.path)}
      ensures n.path in at && at[n.path] == n && n.path == Parent(old(c.path))
    {
      assert Local(c.path) && Local(Parent(c.path));
      ghost var b := ParentOf(c.path);
      n := c.parent;
      Cut(c, n, b);
      PrunedAll(n, c);
    }

    /** Following children from a node below the root ends at a value. */
    lemma {:induction false} SomethingBelow(p: Path) returns (q: Path)
      requires Valid() && p in at && p != []
      ensures q in model && q != []
      decreases 32 - |p|
    {
      assert Local(p);
      assert Needed(p);
      q := p;
      if at[p].left != null || at[p].right != null {
        var b := at[p].left == null;
        assert Link(p, b);
        assert Local(p + [b]);
        q := SomethingBelow(p + [b]);
      }
    }

    /** The root is childless exactly when no prefix but the empty one has a value. */
    lemma RootChildless()
      requires Valid()
      ensures root.left == null && root.right == null <==> forall q :: q in model ==> q == []
    {
      assert Local([]);
      if root.left != null || root.right != null {
        var b := root.left == null;
        assert Link([], b);
        var q := SomethingBelow([] + [b]);
      } else {
        forall q | q in model ensures q == [] {
          LastTurn(if q == [] then q else q[..1]);
          assert Link([], false) && Link([], true);
          if q != [] {
            Closed(q, 1);
          }
        }
      }
    }

    /** The walk of ngx_radix32tree_delete to the node of the prefix, if there is one. */
    method Locate(key: nat, mask: nat) returns (node: Node?)
      requires Valid()
      ensures node == null <==> PrefixOf(key, mask) !in at
      ensures node != null ==> at[PrefixOf(key, mask)] == node && node.path == PrefixOf(key, mask)
    {
      var n := 32;
      node := root;
      assert Local([]);
      assert [] + Turns(key, mask, 32) == PrefixOf(key, mask);
      while node != null && n > 0 && Bit(mask, n - 1)
        invariant 0 <= n <= 32
        invariant node == null ==> PrefixOf(key, mask) !in at
        invariant node != null ==>
          && node.path in at && at[node.path] == node
          && node.path + Turns(key, mask, n) == PrefixOf(key, mask)
        decreases n
      {
        assert Local(node.path);
        var b := Bit(key, n - 1);
        assert Link(node.path, b);
        if node.Child(b) == null {
          NotThere(node.path, key, mask, n);
        } else {
          assert Local(node.path + [b]);
          Step(node.path, key, mask, n);
        }
        node := if b then node.right else node.left;
        n := n - 1;
      }
      if node != null {
        assert node.path + [] == node.path;
      }
    }

    /**
     * The delete loop starts at a childless node and reads through its parent. That node has no parent exactly
     * when the empty prefix is to be deleted, present or not, and no other prefix has a value.
     */
    lemma DeleteFaultsIff(key: nat, mask: nat)
      requires Valid()
      ensures var p := PrefixOf(key, mask);
        p in at && at[p].left == null && at[p].right == null && at[p].parent == null <==> p == [] && forall q :: q in model ==> q == []
    {
      var p := PrefixOf(key, mask);
      RootChildless();
      if p in at {
        assert Local(p);
      }
    }

    /**
     * ngx_radix32tree_delete. The source dereferences the root's null parent when asked to delete
     * the empty prefix from a trie that holds no other one; the caller must not ask for that.
     */
    method Delete(key: nat, mask: nat) returns (ok: bool)
      requires Valid()
      requires PrefixOf(key, mask) == [] ==> exists q :: q in model && q != []
      modifies this`free, this`spare, this`at, this`model, repr
      ensures Valid() && repr == old(repr)
      ensures ok <==> PrefixOf(key, mask) in old(model)
      ensures model == old(model) - {PrefixOf(key, mask)}
    {
      var node := Locate(key, mask);
      if node == null {
        return false;
      }
      ghost var target := node.path;
      assert Local(target);
      if node.right != null || node.left != null {
        if node.value != NO_VALUE {
          SetValue(node, NO_VALUE);
          return true;
        }
        return false;
      }
      RootChildless();
      assert Needed(target);
      var top := Prune(node);
      while true
        invariant Wf(top.path) && top.path in at && at[top.path] == top
        invariant repr == old(repr) && model == old(model) - {target}
        decreases |top.path|
      {
        assert Local(top.path);
        if top.right != null || top.left != null || top.value != NO_VALUE || top.parent == null {
          break;
        }
        top := Prune(top);
      }
      return true;
    }

    /** No node is in the trie and on the free list at once, so Alloc never hands out a node in use. */
    lemma FreeListApart(p: Path, i: int)
      requires Valid() && p in at && 0 <= i < |spare|
      ensures at[p] != spare[i]
    {
      assert Local(p);
    }

    /** A node below the root that has no children carries a value. */
    lemma LeavesCarryValues(p: Path)
      requires Valid() && p in at && p != [] && at[p].left == null && at[p].right == null
      ensures p in model && model[p] == at[p].value
    {
      assert Needed(p) && Local(p);
    }

    method Do(r: Request) returns (ok: bool)
      requires Valid() && Permitted(model, r)
      modifies this`free, this`spare, this`repr, this`at, this`model, repr
      ensures Valid() && fresh(repr - old(repr))
      ensures model == Effect(old(model), r) && ok == Reply(old(model), r)
    {
      match r {
        case Put(key, mask, value) => ok := Insert(key, mask, value);
        case Drop(key, mask) => ok := Delete(key, mask);
      }
    }

    /** Any run of inserts and deletes keeps the trie a faithful copy of the plain map. */
    method Run(requests: seq<Request>) returns (replies: seq<bool>)
      requires Valid() && Allowed(model, requests)
      modifies this`free, this`spare, this`repr, this`at, this`model, repr
      ensures Valid() && fresh(repr - old(repr))
      ensures model == Replay(old(model), requests) && replies == Replies(old(model), requests)
    {
      replies := [];
      var i := 0;
      while i < |requests|
        invariant 0 <= i <= |requests| && Valid() && fresh(repr - old(repr))
        invariant Allowed(model, requests[i..])
        invariant Replay(model, requests[i..]) == Replay(old(model), requests)
        invariant replies + Replies(model, requests[i..]) == Replies(old(model), requests)
      {
        assert requests[i..][1..] == requests[i + 1..];
        var ok := Do(requests[i]);
        replies := replies + [ok];
        i := i + 1;
      }
      assert replies + [] == replies;
    }
  }

  lemma Step(p: Path, key: nat, mask: nat, n: nat)
    requires n > 0 && Bit(mask, n - 1)
    ensures p + Turns(key, mask, n) == p + [Bit(key, n - 1)] + Turns(key, mask, n - 1)
  {}

  lemma {:induction false} RouteAt(key: nat, n: nat, i: nat)
    requires i < n
    ensures Route(key, n)[i] == Bit(key, n - 1 - i)
  {
    if i > 0 {
      RouteAt(key, n - 1, i - 1);
    }
  }

  lemma {:induction false} BestSkips(m: map<Path, int>, route: Path, d: nat, n: nat)
    requires d <= n <= |route| + 1
    requires forall e :: d <= e < n ==> route[..e] !in m
    ensures Best(m, route, n) == Best(m, route, d)
  {
    if d < n {
      BestSkips(m, route, d, n - 1);
    }
  }
}
