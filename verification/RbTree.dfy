/** The in-place red-black tree of src/core/ngx_rbtree.[ch]. */
module RbTree {
  import opened Words

  class Node {
    var key: int
    var left: Node?
    var right: Node?
    var parent: Node?
    var red: bool

    // Where the node stands in the in-order sequence of its tree: its own index, and the
    // indices of the nearest ancestors to its left and right (-1 and the length at the ends).
    ghost var lo: int
    ghost var pos: int
    ghost var hi: int
    // Black nodes on every path from this node, inclusive, down to the sentinel.
    ghost var bh: nat

    constructor (key: int)
      ensures this.key == key
    {
      this.key := key;
      left, right, parent, red := null, null, null, false;
    }
  }

  class Tree {
    var root: Node
    const sentinel: Node
    // Which of the two insert functions the tree was initialised with.
    const timer: bool
    ghost var order: seq<Node>

    constructor (sentinel: Node, timer: bool)
      modifies sentinel
      ensures this.sentinel == sentinel && this.timer == timer
      ensures order == [] && Valid()
    {
      this.sentinel, this.timer := sentinel, timer;
      root := sentinel;
      order := [];
      new;
      sentinel.red := false;
    }

    ghost predicate In(n: Node)
      reads `order, n`pos
    {
      0 <= n.pos < |order| && order[n.pos] == n
    }

    ghost function Span(n: Node): int
      reads n`lo, n`hi
    {
      n.hi - n.lo
    }

    ghost predicate Place(n: Node)
      reads `order, `root, n`lo, n`pos, n`hi
    {
      In(n) && -1 <= n.lo < n.pos < n.hi <= |order| && (n == root ==> n.lo == -1 && n.hi == |order|)
    }

    ghost predicate LeftLink(n: Node)
      reads `order, n`left, n`lo, n`pos, order`pos, order`parent, order`lo, order`hi
    {
      && n.left != null
      && (if n.left == sentinel then n.lo + 1 == n.pos
          else n.left in order && In(n.left) && n.left.parent == n && n.left.lo == n.lo && n.left.hi == n.pos)
    }

    ghost predicate RightLink(n: Node)
      reads `order, n`right, n`hi, n`pos, order`pos, order`parent, order`lo, order`hi
    {
      && n.right != null
      && (if n.right == sentinel then n.pos + 1 == n.hi
          else n.right in order && In(n.right) && n.right.parent == n && n.right.lo == n.pos && n.right.hi == n.hi)
    }

    ghost predicate UpLink(n: Node)
      reads `order, `root, n`parent, order`pos, order`left, order`right
    {
      n != root ==> n.parent in order && In(n.parent) && (n.parent.left == n || n.parent.right == n)
    }

    ghost predicate Shape(n: Node)
      reads `order, `root, n`left, n`right, n`parent, n`lo, n`pos, n`hi, order`left, order`right, order`parent, order`lo, order`pos, order`hi
    {
      Place(n) && LeftLink(n) && RightLink(n) && UpLink(n)
    }

    /** The links form one binary tree whose in-order traversal is `order`. */
    ghost predicate Linked()
      reads `order, `root, order`left, order`right, order`parent, order`lo, order`pos, order`hi
    {
      && sentinel !in order
      && (forall i :: 0 <= i < |order| ==> order[i].pos == i)
      && (if order == [] then root == sentinel else root in order && In(root))
      && (forall n {:trigger Shape(n)} :: n in order ==> Shape(n))
    }

    /** The part of Shape that colour arguments need. */
    ghost predicate Kids(n: Node)
      reads `order, `root, n`left, n`right, order`parent
    {
      && (n.left == sentinel || (n.left in order && n.left != n && n.left != root && n.left.parent == n))
      && (n.right == sentinel || (n.right in order && n.right != n && n.right != root && n.right.parent == n))
      && (n.left == n.right ==> n.left == sentinel)
    }

    lemma KidsOf(n: Node)
      requires Linked() && n in order
      ensures Kids(n)
    {
      assert Shape(n) && Shape(root);
    }

    ghost function Bh(n: Node): nat
      reads n`bh
    {
      if n == sentinel then 0 else n.bh
    }

    ghost predicate Colour(n: Node, v: Node?)
      reads `order, sentinel`red, sentinel`bh, n`left, n`right, n`red, n`bh, order`red, order`bh
    {
      && (n.left == sentinel || n.left in order) && (n.right == sentinel || n.right in order)
      && Bh(n.left) == Bh(n.right) && n.bh == Bh(n.left) + (if n.red then 0 else 1)
      && (n.red && n.left.red ==> n.left == v)
      && (n.red && n.right.red ==> n.right == v)
    }

    /** Equal black heights everywhere, and no red node under a red one except v. */
    ghost predicate Coloured(v: Node?)
      reads `order, sentinel`red, sentinel`bh, order`left, order`right, order`red, order`bh
    {
      !sentinel.red && forall n {:trigger Colour(n, v)} :: n in order ==> Colour(n, v)
    }

    ghost predicate Valid()
      reads `order, `root, root`red, sentinel`red, sentinel`bh, order`red, order`bh, order`left, order`right, order`parent, order`lo, order`pos, order`hi
    {
      Linked() && Coloured(null) && !root.red
    }

    /** Exactly what rotating x under its right child did to the fields. */
    twostate predicate LeftRotated(x: Node)
      requires old(x.right) != null
      reads this, order
    {
      var y := old(x.right);
      var b := old(y.left);
      && order == old(order)
      && root == (if old(root) == x then y else old(root))
      && (forall n {:trigger n.left} :: n in order ==>
            n.left == if n == y then x else if old(root) != x && n == old(x.parent) && old(n.left) == x then y else old(n.left))
      && (forall n {:trigger n.right} :: n in order ==>
            n.right == if n == x then b else if old(root) != x && n == old(x.parent) && old(n.right) == x then y else old(n.right))
      && (forall n {:trigger n.parent} :: n in order ==>
            n.parent == if n == x then y else if n == y then old(x.parent) else if n == b then x else old(n.parent))
      && (forall n {:trigger n.lo} :: n in order ==> n.lo == if n == y then old(x.lo) else old(n.lo))
      && (forall n {:trigger n.hi} :: n in order ==>
            n.hi == if n == y then old(x.hi) else if n == x then old(y.pos) else old(n.hi))
      && (forall n {:trigger n.pos} :: n in order ==> n.pos == old(n.pos))
    }

    twostate lemma LeftRotateShape(x: Node)
      requires old(Linked()) && x in order && old(Shape(x)) && old(x.right) != sentinel
      requires LeftRotated(x)
      ensures forall n {:trigger Shape(n)} :: n in order ==> Shape(n)
    {
      var y := old(x.right);
      assert old(Shape(y));
      forall n | n in order ensures Shape(n) {
        assert old(Shape(n));
        if n == x {
        } else if n == y {
        } else if n == old(y.left) {
        } else {
        }
      }
    }


    method LeftRotateFields(x: Node)
      requires x in order && x.right != null && x.right in order && sentinel !in order
      requires var y := x.right; var b := y.left;
        && b != null && (b != sentinel ==> b in order)
        && x != y && b != x && b != y
        && (x != root ==>
            && x.parent in order && x.parent != x && x.parent != y && x.parent != b
            && (x.parent.left == x || x.parent.right == x) && x.parent.left != x.parent.right)
      modifies this`root, order`left, order`right, order`parent, order`lo, order`hi
      ensures LeftRotated(x)
    {
      var temp := x.right;
      x.right := temp.left;

      if temp.left != sentinel {
        temp.left.parent := x;
      }

      temp.parent := x.parent;

      if x == root {
        root := temp;
      } else if x == x.parent.left {
        x.parent.left := temp;
      } else {
        x.parent.right := temp;
      }

      temp.left := x;
      x.parent := temp;
      temp.lo := x.lo;
      temp.hi := x.hi;
      x.hi := temp.pos;
    }

    method LeftRotate(x: Node)
      requires Linked() && x in order && Shape(x) && x.right != sentinel
      modifies this`root, order`left, order`right, order`parent, order`lo, order`hi
      ensures LeftRotated(x)
      ensures Linked()
    {
      assert Shape(x.right);
      assert x != root ==> Shape(x.parent);
      assert x.right.left != sentinel ==> Shape(x.right.left);
      LeftRotateFields(x);
      LeftRotateShape(x);
    }

    /** Exactly what rotating x under its left child did to the fields. */
    twostate predicate RightRotated(x: Node)
      requires old(x.left) != null
      reads this, order
    {
      var y := old(x.left);
      var b := old(y.right);
      && order == old(order)
      && root == (if old(root) == x then y else old(root))
      && (forall n {:trigger n.right} :: n in order ==>
            n.right == if n == y then x else if old(root) != x && n == old(x.parent) && old(n.right) == x then y else old(n.right))
      && (forall n {:trigger n.left} :: n in order ==>
            n.left == if n == x then b else if old(root) != x && n == old(x.parent) && old(n.left) == x then y else old(n.left))
      && (forall n {:trigger n.parent} :: n in order ==>
            n.parent == if n == x then y else if n == y then old(x.parent) else if n == b then x else old(n.parent))
      && (forall n {:trigger n.hi} :: n in order ==> n.hi == if n == y then old(x.hi) else old(n.hi))
      && (forall n {:trigger n.lo} :: n in order ==>
            n.lo == if n == y then old(x.lo) else if n == x then old(y.pos) else old(n.lo))
      && (forall n {:trigger n.pos} :: n in order ==> n.pos == old(n.pos))
    }

    twostate lemma RightRotateShape(x: Node)
      requires old(Linked()) && x in order && old(Shape(x)) && old(x.left) != sentinel
      requires RightRotated(x)
      ensures forall n {:trigger Shape(n)} :: n in order ==> Shape(n)
    {
      var y := old(x.left);
      assert old(Shape(y));
      forall n | n in order ensures Shape(n) {
        assert old(Shape(n));
        if n == x {
        } else if n == y {
        } else if n == old(y.right) {
        } else {
        }
      }
    }


    method RightRotateFields(x: Node)
      requires x in order && x.left != null && x.left in order && sentinel !in order
      requires var y := x.left; var b := y.right;
        && b != null && (b != sentinel ==> b in order)
        && x != y && b != x && b != y
        && (x != root ==>
            && x.parent in order && x.parent != x && x.parent != y && x.parent != b
            && (x.parent.right == x || x.parent.left == x) && x.parent.right != x.parent.left)
      modifies this`root, order`right, order`left, order`parent, order`hi, order`lo
      ensures RightRotated(x)
    {
      var temp := x.left;
      x.left := temp.right;

      if temp.right != sentinel {
        temp.right.parent := x;
      }

      temp.parent := x.parent;

      if x == root {
        root := temp;
      } else if x == x.parent.right {
        x.parent.right := temp;
      } else {
        x.parent.left := temp;
      }

      temp.right := x;
      x.parent := temp;
      temp.hi := x.hi;
      temp.lo := x.lo;
      x.lo := temp.pos;
    }

    method RightRotate(x: Node)
      requires Linked() && x in order && Shape(x) && x.left != sentinel
      modifies this`root, order`right, order`left, order`parent, order`hi, order`lo
      ensures RightRotated(x)
      ensures Linked()
    {
      assert Shape(x.left);
      assert x != root ==> Shape(x.parent);
      assert x.left.right != sentinel ==> Shape(x.left.right);
      RightRotateFields(x);
      RightRotateShape(x);
    }

    // ---------------------------------------------------------------- insertion

    /** The order of the tree's insert function: does key a go to the left of key b? */
    predicate Less(a: int, b: int)
    {
      if timer then Before(a, b) else a < b
    }

    lemma {:induction false} HiBoundHasLeft(n: Node, k: int)
      requires Linked() && n in order && n.hi == k && 0 <= k < |order|
      ensures Shape(order[k]) && order[k].left != sentinel
      decreases n.lo + 1
    {
      assert Shape(n);
      assert n != root;
      assert Shape(n.parent);
      if n.parent.left != n {
        HiBoundHasLeft(n.parent, k);
      }
    }

    lemma {:induction false} LoBoundHasRight(n: Node, k: int)
      requires Linked() && n in order && n.lo == k && 0 <= k < |order|
      ensures Shape(order[k]) && order[k].right != sentinel
      decreases |order| - n.hi
    {
      assert Shape(n);
      assert n != root;
      assert Shape(n.parent);
      if n.parent.right != n {
        LoBoundHasRight(n.parent, k);
      }
    }

    ghost function Up(v: int, k: int): int { if v >= k then v + 1 else v }

    /** What hanging the new leaf under its parent did to the fields. */
    twostate predicate Attached(nodes: seq<Node>, new node: Node)
      reads this, nodes, node
    {
      var k, p := node.pos, node.parent;
      && nodes == old(order) && 0 <= k <= |nodes|
      && order == nodes[..k] + [node] + nodes[k..]
      && root == old(root)
      && node.left == sentinel && node.right == sentinel && node.lo == k - 1 && node.hi == k + 1
      && p in old(order)
      && (k == old(p.pos) || k == old(p.pos) + 1)
      && old(if k == p.pos then p.left else p.right) == sentinel
      && (forall n {:trigger n.left} :: n in nodes ==>
            n.left == if n == p && k == old(n.pos) then node else old(n.left))
      && (forall n {:trigger n.right} :: n in nodes ==>
            n.right == if n == p && k == old(n.pos) + 1 then node else old(n.right))
      && (forall n {:trigger n.parent} :: n in nodes ==> n.parent == old(n.parent))
      && (forall n {:trigger n.lo} :: n in nodes ==> n.lo == Up(old(n.lo), k))
      && (forall n {:trigger n.pos} :: n in nodes ==> n.pos == Up(old(n.pos), k))
      && (forall n {:trigger n.hi} :: n in nodes ==> n.hi == Up(old(n.hi), k))
    }

    /** No other empty slot lies between the same two neighbours as slot k beside p. */
    ghost predicate OnlySlot(p: Node, k: int)
      reads `order, p`pos, order`lo, order`hi
    {
      && (k == p.pos && 0 < k <= |order| ==> order[k - 1].hi != k)
      && (k == p.pos + 1 && 0 <= k < |order| ==> order[k].lo != k - 1)
    }

    lemma SlotIsUnique(p: Node, k: int)
      requires Linked() && p in order && Shape(p) && (k == p.pos || k == p.pos + 1)
      requires (if k == p.pos then p.left else p.right) == sentinel
      ensures OnlySlot(p, k)
    {
      if k == p.pos && 0 < k && order[k - 1].hi == k {
        HiBoundHasLeft(order[k - 1], k);
      }
      if k == p.pos + 1 && k < |order| && order[k].lo == k - 1 {
        LoBoundHasRight(order[k], k - 1);
      }
    }

    twostate lemma AttachedIn(new node: Node)
      requires old(Linked()) && node !in old(order) && node != sentinel && Attached(old(order), node)
      ensures forall n :: n in order <==> n in old(order) || n == node
      ensures forall i :: 0 <= i < |order| ==> order[i].pos == i
    {
      var k := node.pos;
      forall i | 0 <= i < |order| ensures order[i].pos == i {
        if i < k {
          assert order[i] == old(order)[i];
        } else if k < i {
          assert order[i] == old(order)[i - 1];
        }
      }
    }

    twostate lemma AttachLeftLink(new node: Node)
      requires old(Linked()) && node !in old(order) && node != sentinel && Attached(old(order), node)
      requires var k, p := node.pos, node.parent; old(OnlySlot(p, k))
      ensures forall n {:trigger LeftLink(n)} :: n in order ==> LeftLink(n)
    {
      AttachedIn(node);
      var p := node.parent;
      assert old(Shape(p));
      forall n | n in order ensures LeftLink(n) {
        if n != node {
          assert old(Shape(n));
        }
      }
    }

    twostate lemma AttachRightLink(new node: Node)
      requires old(Linked()) && node !in old(order) && node != sentinel && Attached(old(order), node)
      requires var k, p := node.pos, node.parent; old(OnlySlot(p, k))
      ensures forall n {:trigger RightLink(n)} :: n in order ==> RightLink(n)
    {
      AttachedIn(node);
      var p := node.parent;
      assert old(Shape(p));
      forall n | n in order ensures RightLink(n) {
        if n != node {
          assert old(Shape(n));
        }
      }
    }

    twostate lemma AttachUpLink(new node: Node)
      requires old(Linked()) && node !in old(order) && node != sentinel && Attached(old(order), node)
      ensures forall n {:trigger UpLink(n)} :: n in order ==> UpLink(n)
    {
      AttachedIn(node);
      forall n | n in order ensures UpLink(n) {
        if n != node {
          assert old(Shape(n));
        }
      }
    }

    twostate lemma AttachShape(new node: Node)
      requires old(Linked()) && node !in old(order) && node != sentinel && Attached(old(order), node)
      requires var k, p := node.pos, node.parent; old(OnlySlot(p, k))
      ensures Linked()
    {
      AttachedIn(node);
      AttachLeftLink(node);
      AttachRightLink(node);
      AttachUpLink(node);
      forall n | n in order ensures Shape(n) {
        assert LeftLink(n) && RightLink(n) && UpLink(n);
        assert Place(n) by {
          if n != node {
            assert old(Shape(n));
          }
        }
      }
    }

    ghost method ShiftUp(k: int)
      modifies order`lo, order`pos, order`hi
      ensures forall n {:trigger n.lo} :: n in order ==> n.lo == Up(old(n.lo), k)
      ensures forall n {:trigger n.pos} :: n in order ==> n.pos == Up(old(n.pos), k)
      ensures forall n {:trigger n.hi} :: n in order ==> n.hi == Up(old(n.hi), k)
    {
      forall n | n in order {
        n.lo := Up(n.lo, k);
      }
      forall n | n in order {
        n.hi := Up(n.hi, k);
      }
      forall n | n in order {
        n.pos := Up(n.pos, k);
      }
    }

    /** The common tail of both insert functions. */
    method Hook(temp: Node, node: Node, goLeft: bool)
      requires temp != node
      modifies temp`left, temp`right, node`parent, node`left, node`right, node`red
      ensures temp.left == (if goLeft then node else old(temp.left))
      ensures temp.right == (if goLeft then old(temp.right) else node)
      ensures node.parent == temp && node.left == sentinel && node.right == sentinel && node.red
    {
      if goLeft {
        temp.left := node;
      } else {
        temp.right := node;
      }
      node.parent := temp;
      node.left := sentinel;
      node.right := sentinel;
      node.red := true;
    }

    method Attach(temp: Node, node: Node, goLeft: bool)
      requires temp in order && 0 <= temp.pos < |order| && node !in order
      requires (if goLeft then temp.left else temp.right) == sentinel
      modifies this`order, temp`left, temp`right, node`parent, node`left, node`right, node`red
      modifies node`lo, node`pos, node`hi, order`lo, order`pos, order`hi
      ensures node.pos == old(if goLeft then temp.pos else temp.pos + 1)
      ensures node.parent == temp && node.red
      ensures Attached(old(order), node)
    {
      ghost var k := if goLeft then temp.pos else temp.pos + 1;
      Hook(temp, node, goLeft);
      ShiftUp(k);
      node.pos := k;
      node.lo := k - 1;
      node.hi := k + 1;
      order := order[..k] + [node] + order[k..];
    }

    /** The search for the key ends between its neighbours at k. */
    ghost predicate Between(key: int, k: int)
      reads `order, order`key
    {
      && 0 <= k <= |order|
      && (k > 0 ==> !Less(key, order[k - 1].key))
      && (k < |order| ==> Less(key, order[k].key))
    }

    /** The new node stands at k, between the neighbours the search found. */
    twostate predicate InsertedAt(new node: Node, k: int)
      reads this, order, node
    {
      var key := node.key;
      old(Between(key, k)) && order == old(order)[..k] + [node] + old(order)[k..]
    }

    twostate lemma AttachColour(new node: Node)
      requires old(Linked() && Coloured(null)) && node !in old(order) && node != sentinel && Attached(old(order), node)
      requires !sentinel.red && node.bh == 0 && node.red
      requires forall n {:trigger n.red} {:trigger n.bh} :: n in old(order) ==> n.red == old(n.red) && n.bh == old(n.bh)
      ensures Coloured(node)
    {
      AttachedIn(node);
      forall n | n in order ensures Colour(n, node) {
        if n != node {
          assert old(Colour(n, null));
        }
      }
    }

    method AddLeaf(temp: Node, node: Node, goLeft: bool)
      requires Linked() && Coloured(null) && temp in order && Shape(temp) && node !in order && node != sentinel
      requires (if goLeft then temp.left else temp.right) == sentinel
      modifies this`order, temp`left, temp`right, node`parent, node`left, node`right, node`red
      modifies node`lo, node`pos, node`hi, node`bh, order`lo, order`pos, order`hi
      ensures var k := old(if goLeft then temp.pos else temp.pos + 1);
        order == old(order)[..k] + [node] + old(order)[k..]
      ensures node.parent == temp && node.red && node in order
      ensures Linked()
      ensures Coloured(node)
    {
      SlotIsUnique(temp, if goLeft then temp.pos else temp.pos + 1);
      node.bh := 0;
      Attach(temp, node, goLeft);
      AttachShape(node);
      AttachColour(node);
    }

    method SeekValue(node: Node)
      returns (temp: Node, goLeft: bool, ghost k: int)
      requires !timer && Linked() && order != []
      ensures temp in order && Shape(temp) && (if goLeft then temp.left else temp.right) == sentinel
      ensures k == (if goLeft then temp.pos else temp.pos + 1)
      ensures Between(node.key, k)
    {
      temp, goLeft := root, false;
      assert Shape(temp);
      while true
        invariant temp in order && Shape(temp)
        invariant temp.lo >= 0 ==> !Less(node.key, order[temp.lo].key)
        invariant temp.hi < |order| ==> Less(node.key, order[temp.hi].key)
        decreases temp.hi - temp.lo
      {
        goLeft := node.key < temp.key;
        var p := if goLeft then temp.left else temp.right;
        if p == sentinel {
          break;
        }
        assert Shape(p);
        temp := p;
      }
      k := if goLeft then temp.pos else temp.pos + 1;
    }

    method SeekTimerValue(node: Node)
      returns (temp: Node, goLeft: bool, ghost k: int)
      requires timer && Linked() && order != []
      ensures temp in order && Shape(temp) && (if goLeft then temp.left else temp.right) == sentinel
      ensures k == (if goLeft then temp.pos else temp.pos + 1)
      ensures Between(node.key, k)
    {
      temp, goLeft := root, false;
      assert Shape(temp);
      while true
        invariant temp in order && Shape(temp)
        invariant temp.lo >= 0 ==> !Less(node.key, order[temp.lo].key)
        invariant temp.hi < |order| ==> Less(node.key, order[temp.hi].key)
        decreases temp.hi - temp.lo
      {
        goLeft := Before(node.key, temp.key);
        var p := if goLeft then temp.left else temp.right;
        if p == sentinel {
          break;
        }
        assert Shape(p);
        temp := p;
      }
      k := if goLeft then temp.pos else temp.pos + 1;
    }

    /** The search loop of whichever insert function the tree was initialised with. */
    method Seek(node: Node) returns (temp: Node, goLeft: bool, ghost k: int)
      requires Linked() && order != []
      ensures temp in order && Shape(temp) && (if goLeft then temp.left else temp.right) == sentinel
      ensures k == (if goLeft then temp.pos else temp.pos + 1)
      ensures Between(node.key, k)
    {
      if timer {
        temp, goLeft, k := SeekTimerValue(node);
      } else {
        temp, goLeft, k := SeekValue(node);
      }
    }

    /** The first node of a tree is its black root. */
    method InsertFirst(node: Node)
      requires order == [] && !sentinel.red && node != sentinel
      modifies `root, `order, node`parent, node`left, node`right, node`red, node`lo, node`pos, node`hi, node`bh
      ensures Valid() && order == [node]
    {
      node.parent := null;
      node.left := sentinel;
      node.right := sentinel;
      node.red := false;
      root := node;
      node.lo := -1;
      node.pos := 0;
      node.hi := 1;
      node.bh := 1;
      order := [node];
    }

    // The three repair steps of the insertion loop (node and its parent are both red).

    ghost predicate RedPair(node: Node)
      reads `order, `root, root`red, sentinel`red, sentinel`bh, order`red, order`bh, node`red
      reads order`left, order`right, order`parent, order`lo, order`pos, order`hi, node`parent
    {
      && Linked() && Coloured(node) && node in order && node.red
      && (root.red ==> root == node)
    }

    /** The grandparent exists and is black. */
    lemma RedPairGrandparent(node: Node)
      requires RedPair(node) && node != root && node.parent in order && node.parent.red
      ensures Shape(node) && Shape(node.parent) && node.parent != root && Shape(node.parent.parent)
      ensures Colour(node, node) && Colour(node.parent, node) && Colour(node.parent.parent, node)
      ensures !node.parent.parent.red && node.parent.parent in order
    {}

    twostate predicate LinksKept()
      reads `order, `root, order`left, order`right, order`parent, order`lo, order`pos, order`hi
    {
      && order == old(order) && root == old(root)
      && (forall n {:trigger n.left} :: n in order ==> n.left == old(n.left))
      && (forall n {:trigger n.right} :: n in order ==> n.right == old(n.right))
      && (forall n {:trigger n.parent} :: n in order ==> n.parent == old(n.parent))
    }

    twostate predicate PushedUp(g: Node)
      reads `order, order`red, order`bh, g`left, g`right
    {
      && order == old(order)
      && (forall n {:trigger n.red} :: n in order ==>
            n.red == if n == g then true else if n == g.left || n == g.right then false else old(n.red))
      && (forall n {:trigger n.bh} :: n in order ==>
            n.bh == if n == g.left || n == g.right then old(n.bh) + 1 else old(n.bh))
    }

    method PushUp(p: Node, temp: Node, g: Node)
      requires p in order && temp in order && g in order && p != temp && p != g && temp != g
      requires (p == g.left && temp == g.right) || (p == g.right && temp == g.left)
      modifies order`red, order`bh
      ensures PushedUp(g)
    {
      p.red := false;
      temp.red := false;
      g.red := true;
      p.bh := p.bh + 1;
      temp.bh := temp.bh + 1;
    }

    twostate lemma PushUpColours(node: Node)
      requires old(RedPair(node)) && old(node != root && node.parent in order && node.parent.red)
      requires old(node.parent.parent in order && node.parent != root && Shape(node.parent.parent))
      requires var g := old(node.parent.parent);
        old(!g.red && g.left in order && g.right in order && g.left.red && g.right.red) && PushedUp(g)
      requires LinksKept() && !sentinel.red
      ensures Coloured(old(node.parent.parent))
    {
      var g := old(node.parent.parent);
      forall n | n in order ensures Colour(n, g) {
        assert old(Shape(n)) && old(Colour(n, node));
        if n == g {
        } else if n == g.left || n == g.right {
        } else {
        }
      }
    }

    /** The uncle is red: push the redness up two levels. */
    method InsertRecolour(node: Node, temp: Node)
      requires RedPair(node) && node != root && node.parent in order && node.parent.red
      requires node.parent.parent in order && temp.red
      requires var g := node.parent.parent;
        (temp == g.left && node.parent == g.right) || (temp == g.right && node.parent == g.left)
      modifies order`red, order`bh
      ensures RedPair(node.parent.parent)
    {
      RedPairGrandparent(node);
      PushUp(node.parent, temp, node.parent.parent);
      PushUpColours(node);
    }

    twostate predicate ColoursKept()
      reads `order, order`red, order`bh
    {
      && order == old(order)
      && (forall n {:trigger n.red} :: n in order ==> n.red == old(n.red))
      && (forall n {:trigger n.bh} :: n in order ==> n.bh == old(n.bh))
    }

    /** p and g exchanged their colours. */
    twostate predicate Swapped(p: Node, g: Node)
      reads `order, order`red, order`bh
    {
      && order == old(order)
      && (forall n {:trigger n.red} :: n in order ==>
            n.red == if n == g then true else if n == p then false else old(n.red))
      && (forall n {:trigger n.bh} :: n in order ==>
            n.bh == if n == p then old(n.bh) + 1 else if n == g then old(n.bh) - 1 else old(n.bh))
    }

    method SwapColours(p: Node, g: Node)
      requires p in order && g in order && p != g && g.bh > 0
      modifies order`red, order`bh
      ensures Swapped(p, g)
    {
      p.red := false;
      g.red := true;
      p.bh := p.bh + 1;
      g.bh := g.bh - 1;
    }

    twostate lemma InnerLeftColours(node: Node)
      requires old(RedPair(node) && node != root && node.parent in order && node.parent.red && node == node.parent.right)
      requires var p := old(node.parent); LeftRotated(p) && ColoursKept() && !sentinel.red
      ensures Coloured(old(node.parent))
    {
      var p := old(node.parent);
      assert old(Shape(p)) && old(Shape(node)) && old(Colour(p, node)) && old(Colour(node, node));
      assert old(node.left) != node && old(node.right) != node;
      assert old(!node.left.red && !node.right.red && Bh(node.left) == Bh(p.left) == p.bh == node.bh);
      forall n | n in order ensures Colour(n, p) {
        assert old(Shape(n)) && old(Colour(n, node));
        if n == node {
        } else if n == p {
        } else {
        }
      }
    }

    /** The uncle is black and node is an inner grandchild: make it an outer one. */
    method InsertInnerLeft(node: Node) returns (next: Node)
      requires RedPair(node) && node != root && node.parent in order && node.parent.red && node == node.parent.right
      requires node.parent.parent in order
      modifies this`root, order`left, order`right, order`parent, order`lo, order`hi
      ensures RedPair(next) && next != root && next == old(node.parent) && next.parent == node && node.red && node.left == next
      ensures node != root && node.parent == old(node.parent.parent)
      ensures node.parent in order && (if old(node.parent == node.parent.parent.left) then node == node.parent.left
                                       else node == node.parent.right)
      ensures old(node.parent == node.parent.parent.left) ==> node.parent.right == old(node.parent.parent.right)
      ensures old(node.parent == node.parent.parent.right) ==> node.parent.left == old(node.parent.parent.left)
    {
      RedPairGrandparent(node);
      next := node.parent;
      LeftRotate(next);
      InnerLeftColours(node);
    }

    twostate lemma OuterLeftColours(node: Node)
      requires old(RedPair(node) && node != root && node.parent in order && node.parent.red && node == node.parent.left)
      requires old(node.parent.parent in order && node.parent != root && node.parent == node.parent.parent.left)
      requires var p := old(node.parent); var g := old(p.parent);
        RightRotated(g) && Swapped(p, g) && !sentinel.red
      requires var w := old(node.parent.parent.right); w != null && old(!w.red)
      ensures Coloured(node)
    {
      var p := old(node.parent);
      var g := old(p.parent);
      assert old(Shape(p)) && old(Shape(node)) && old(Shape(g)) && old(Colour(p, node)) && old(Colour(g, node));
      forall n | n in order ensures Colour(n, node) {
        assert old(Shape(n)) && old(Colour(n, node));
        if n == g {
        } else if n == p {
        } else {
        }
      }
    }

    /** The uncle is black and node is an outer grandchild: one rotation ends the repair. */
    method InsertOuterLeft(node: Node)
      requires RedPair(node) && node != root && node.parent in order && node.parent.red && node == node.parent.left
      requires node.parent.parent in order && node.parent == node.parent.parent.left
      requires var w := node.parent.parent.right; w != null && !w.red
      modifies this`root, order`left, order`right, order`parent, order`lo, order`hi, order`red, order`bh
      ensures RedPair(node) && node != root && node.parent in order && !node.parent.red
    {
      RedPairGrandparent(node);
      SwapColours(node.parent, node.parent.parent);
      RightRotate(node.parent.parent);
      OuterLeftColours(node);
    }

    twostate lemma InnerRightColours(node: Node)
      requires old(RedPair(node) && node != root && node.parent in order && node.parent.red && node == node.parent.left)
      requires var p := old(node.parent); RightRotated(p) && ColoursKept() && !sentinel.red
      ensures Coloured(old(node.parent))
    {
      var p := old(node.parent);
      assert old(Shape(p)) && old(Shape(node)) && old(Colour(p, node)) && old(Colour(node, node));
      assert old(node.right) != node && old(node.left) != node;
      assert old(!node.right.red && !node.left.red && Bh(node.right) == Bh(p.right) == p.bh == node.bh);
      forall n | n in order ensures Colour(n, p) {
        assert old(Shape(n)) && old(Colour(n, node));
        if n == node {
        } else if n == p {
        } else {
        }
      }
    }

    /** The uncle is black and node is an inner grandchild: make it an outer one. */
    method InsertInnerRight(node: Node) returns (next: Node)
      requires RedPair(node) && node != root && node.parent in order && node.parent.red && node == node.parent.left
      requires node.parent.parent in order
      modifies this`root, order`right, order`left, order`parent, order`hi, order`lo
      ensures RedPair(next) && next != root && next == old(node.parent) && next.parent == node && node.red && node.right == next
      ensures node != root && node.parent == old(node.parent.parent)
      ensures node.parent in order && (if old(node.parent == node.parent.parent.right) then node == node.parent.right
                                       else node == node.parent.left)
      ensures old(node.parent == node.parent.parent.right) ==> node.parent.left == old(node.parent.parent.left)
      ensures old(node.parent == node.parent.parent.left) ==> node.parent.right == old(node.parent.parent.right)
    {
      RedPairGrandparent(node);
      next := node.parent;
      RightRotate(next);
      InnerRightColours(node);
    }

    twostate lemma OuterRightColours(node: Node)
      requires old(RedPair(node) && node != root && node.parent in order && node.parent.red && node == node.parent.right)
      requires old(node.parent.parent in order && node.parent != root && node.parent == node.parent.parent.right)
      requires var p := old(node.parent); var g := old(p.parent);
        LeftRotated(g) && Swapped(p, g) && !sentinel.red
      requires var w := old(node.parent.parent.left); w != null && old(!w.red)
      ensures Coloured(node)
    {
      var p := old(node.parent);
      var g := old(p.parent);
      assert old(Shape(p)) && old(Shape(node)) && old(Shape(g)) && old(Colour(p, node)) && old(Colour(g, node));
      forall n | n in order ensures Colour(n, node) {
        assert old(Shape(n)) && old(Colour(n, node));
        if n == g {
        } else if n == p {
        } else {
        }
      }
    }

    /** The uncle is black and node is an outer grandchild: one rotation ends the repair. */
    method InsertOuterRight(node: Node)
      requires RedPair(node) && node != root && node.parent in order && node.parent.red && node == node.parent.right
      requires node.parent.parent in order && node.parent == node.parent.parent.right
      requires var w := node.parent.parent.left; w != null && !w.red
      modifies this`root, order`right, order`left, order`parent, order`hi, order`lo, order`red, order`bh
      ensures RedPair(node) && node != root && node.parent in order && !node.parent.red
    {
      RedPairGrandparent(node);
      SwapColours(node.parent, node.parent.parent);
      LeftRotate(node.parent.parent);
      OuterRightColours(node);
    }

    twostate lemma BlackRootColours(node: Node)
      requires old(RedPair(node) && (node == root || (node.parent in order && !node.parent.red)))
      requires LinksKept() && !sentinel.red && root in order
      requires forall n {:trigger n.red} :: n in order ==> n.red == if n == root then false else old(n.red)
      requires forall n {:trigger n.bh} :: n in order ==> n.bh == if n == root && old(n.red) then old(n.bh) + 1 else old(n.bh)
      ensures Coloured(null)
    {
      assert old(Shape(node)) && old(Shape(root));
      forall n | n in order ensures Colour(n, null) {
        assert old(Shape(n)) && old(Colour(n, node));
      }
    }

    method BlackenRoot(node: Node)
      requires RedPair(node) && (node == root || (node.parent in order && !node.parent.red))
      modifies order`red, order`bh
      ensures Valid()
    {
      if root.red {
        root.bh := root.bh + 1;
      }
      root.red := false;
      BlackRootColours(node);
    }

    /** One iteration of the repair loop when the parent is a left child. */
    method InsertStepLeft(node: Node) returns (next: Node, ghost done: bool)
      requires RedPair(node) && node != root && node.parent in order && node.parent.red
      requires node.parent.parent in order && node.parent == node.parent.parent.left
      modifies `root, order`left, order`right, order`parent, order`lo, order`hi, order`red, order`bh
      ensures RedPair(next)
      ensures if done then next != root && next.parent in order && !next.parent.red
              else Span(next) > old(Span(node))
    {
      RedPairGrandparent(node);
      var temp := node.parent.parent.right;
      if temp.red {
        next := node.parent.parent;
        InsertRecolour(node, temp);
        done := false;
      } else {
        next := node;
        if node == node.parent.right {
          next := InsertInnerLeft(node);
        }
        InsertOuterLeft(next);
        done := true;
      }
    }

    /** One iteration of the repair loop when the parent is a right child. */
    method InsertStepRight(node: Node) returns (next: Node, ghost done: bool)
      requires RedPair(node) && node != root && node.parent in order && node.parent.red
      requires node.parent.parent in order && node.parent == node.parent.parent.right
      modifies `root, order`right, order`left, order`parent, order`hi, order`lo, order`red, order`bh
      ensures RedPair(next)
      ensures if done then next != root && next.parent in order && !next.parent.red
              else Span(next) > old(Span(node))
    {
      RedPairGrandparent(node);
      var temp := node.parent.parent.left;
      if temp.red {
        next := node.parent.parent;
        InsertRecolour(node, temp);
        done := false;
      } else {
        next := node;
        if node == node.parent.left {
          next := InsertInnerRight(node);
        }
        InsertOuterRight(next);
        done := true;
      }
    }

    method InsertStep(node: Node) returns (next: Node, ghost done: bool)
      requires RedPair(node) && node != root && node.parent in order && node.parent.red
      modifies `root, order`left, order`right, order`parent, order`lo, order`hi, order`red, order`bh
      ensures RedPair(next)
      ensures if done then next != root && next.parent in order && !next.parent.red
              else Span(next) > old(Span(node))
    {
      RedPairGrandparent(node);
      if node.parent == node.parent.parent.left {
        next, done := InsertStepLeft(node);
      } else {
        next, done := InsertStepRight(node);
      }
    }

    lemma SpanBound(n: Node)
      requires Linked() && n in order
      ensures Span(n) <= |order| + 1 && (n != root ==> n.parent in order)
    {
      assert Shape(n);
    }

    method InsertFixup(node0: Node)
      requires RedPair(node0)
      modifies `root, order`left, order`right, order`parent, order`lo, order`hi, order`red, order`bh
      ensures Valid()
    {
      var node := node0;
      ghost var done := false;
      SpanBound(node);
      while node != root && node.parent.red
        invariant RedPair(node)
        invariant node != root ==> node.parent in order
        invariant Span(node) <= |order| + 1
        invariant done ==> node != root && !node.parent.red
        decreases !done, |order| + 1 - Span(node)
      {
        node, done := InsertStep(node);
        SpanBound(node);
      }
      BlackenRoot(node);
    }

    method AddRedLeaf(node: Node) returns (ghost k: int)
      requires Valid() && order != [] && node !in order && node != sentinel
      modifies `order, order`left, order`right, order`lo, order`pos, order`hi
      modifies node`parent, node`left, node`right, node`red, node`lo, node`pos, node`hi, node`bh
      ensures RedPair(node)
      ensures InsertedAt(node, k)
      ensures forall n :: n in order ==> n in old(order) || n == node
    {
      var temp, goLeft;
      temp, goLeft, k := Seek(node);
      assert root in order && node != root;
      AddLeaf(temp, node, goLeft);
    }

    method Insert(node: Node) returns (ghost k: int)
      requires Valid() && node !in order && node != sentinel
      modifies `root, `order, order`left, order`right, order`parent, order`lo, order`pos, order`hi, order`red, order`bh
      modifies node`parent, node`left, node`right, node`red, node`lo, node`pos, node`hi, node`bh
      ensures Valid()
      ensures InsertedAt(node, k)
    {
      if root == sentinel {
        k := 0;
        InsertFirst(node);
        return;
      }
      k := AddRedLeaf(node);
      InsertFixup(node);
    }

    // ---------------------------------------------------------------- deletion

    ghost function Down(v: int, k: int): int { if v > k then v - 1 else v }
    ghost function DownFrom(v: int, k: int): int { if v >= k then v - 1 else v }

    /** The leftmost node of a subtree. */
    method Min(top: Node) returns (node: Node)
      requires Linked() && top in order
      ensures node in order && node.left == sentinel && node.lo == top.lo && node.pos == top.lo + 1
    {
      node := top;
      assert Shape(node);
      while node.left != sentinel
        invariant node in order && Shape(node) && node.lo == top.lo
        decreases node.hi
      {
        assert Shape(node.left);
        node := node.left;
      }
    }

    ghost predicate NoHi(k: int)
      reads `order, order`hi
    {
      forall n {:trigger n.hi} :: n in order ==> n.hi != k
    }

    ghost predicate NoLo(k: int)
      reads `order, order`lo
    {
      forall n {:trigger n.lo} :: n in order ==> n.lo != k
    }

    lemma NoLeftNoHi(k: int)
      requires Linked() && 0 <= k < |order| && order[k].left == sentinel
      ensures NoHi(k)
    {
      forall n | n in order ensures n.hi != k {
        if n.hi == k {
          HiBoundHasLeft(n, k);
        }
      }
    }

    lemma NoRightNoLo(k: int)
      requires Linked() && 0 <= k < |order| && order[k].right == sentinel
      ensures NoLo(k)
    {
      forall n | n in order ensures n.lo != k {
        if n.lo == k {
          LoBoundHasRight(n, k);
        }
      }
    }

    ghost function Without(s: seq<Node>, k: int): seq<Node>
      requires 0 <= k < |s|
    {
      s[..k] + s[k + 1..]
    }

    /** The only child of a node with at most one child, or the sentinel. */
    ghost function OnlyChild(node: Node): Node?
      reads node`left, node`right
    {
      if node.left == sentinel then node.right else node.left
    }

    /** What replacing node by its only child did to the fields. */
    twostate predicate SplicedOut(nodes: seq<Node>, node: Node)
      reads `order, `root, nodes, node
    {
      var k, temp := old(node.pos), old(OnlyChild(node));
      && nodes == old(order) && 0 <= k < |nodes| && order == Without(nodes, k) && temp != null
      && root == (if old(root) == node then temp else old(root))
      && (forall n {:trigger n.left} :: n in nodes && n != node ==>
            n.left == if old(root) != node && n == old(node.parent) && old(n.left) == node then temp else old(n.left))
      && (forall n {:trigger n.right} :: n in nodes && n != node ==>
            n.right == if old(root) != node && n == old(node.parent) && old(n.right) == node then temp else old(n.right))
      && (forall n {:trigger n.parent} :: n in nodes && n != node ==>
            n.parent == if old(root) != node && n == temp then old(node.parent) else old(n.parent))
      && (forall n {:trigger n.lo} :: n in nodes && n != node ==> n.lo == DownFrom(old(n.lo), k))
      && (forall n {:trigger n.pos} :: n in nodes && n != node ==> n.pos == Down(old(n.pos), k))
      && (forall n {:trigger n.hi} :: n in nodes && n != node ==> n.hi == Down(old(n.hi), k))
    }

    twostate lemma SplicedIn(node: Node)
      requires old(Linked()) && node in old(order) && SplicedOut(old(order), node)
      ensures forall n :: n in order <==> n in old(order) && n != node
      ensures forall i :: 0 <= i < |order| ==> order[i].pos == i
    {
      var k := old(node.pos);
      assert old(Shape(node));
      assert old(order)[k] == node;
      forall i | 0 <= i < |order| ensures order[i].pos == i {
        assert order[i] == old(order)[if i < k then i else i + 1];
      }
      forall n | n in old(order) && n != node ensures n in order {
        assert old(Shape(n));
        assert order[Down(old(n.pos), k)] == n;
      }
    }

    twostate lemma SplicedLeftLink(node: Node)
      requires old(Linked()) && node in old(order) && SplicedOut(old(order), node)
      requires old(node.left == sentinel || node.right == sentinel)
      requires old(node.left == sentinel ==> NoHi(node.pos)) && old(node.right == sentinel ==> NoLo(node.pos))
      ensures forall n {:trigger LeftLink(n)} :: n in order ==> LeftLink(n)
    {
      SplicedIn(node);
      assert old(Shape(node));
      forall n | n in order ensures LeftLink(n) {
        assert old(Shape(n));
      }
    }


    twostate lemma SplicedRightLink(node: Node)
      requires old(Linked()) && node in old(order) && SplicedOut(old(order), node)
      requires old(node.right == sentinel || node.left == sentinel)
      requires old(node.right == sentinel ==> NoLo(node.pos)) && old(node.left == sentinel ==> NoHi(node.pos))
      ensures forall n {:trigger RightLink(n)} :: n in order ==> RightLink(n)
    {
      SplicedIn(node);
      assert old(Shape(node));
      forall n | n in order ensures RightLink(n) {
        assert old(Shape(n));
      }
    }

    twostate lemma SplicedUpLink(node: Node)
      requires old(Linked()) && node in old(order) && SplicedOut(old(order), node)
      requires old(node.left == sentinel || node.right == sentinel)
      ensures forall n {:trigger UpLink(n)} :: n in order ==> UpLink(n)
    {
      SplicedIn(node);
      assert old(Shape(node));
      assert old(node != root) ==> old(Shape(node.parent));
      forall n | n in order ensures UpLink(n) {
        assert old(Shape(n));
        if n != root {
          assert n.parent in order;
        }
      }
    }

    twostate lemma SplicedShape(node: Node)
      requires old(Linked()) && node in old(order) && SplicedOut(old(order), node)
      requires old(node.left == sentinel || node.right == sentinel)
      requires old(node.left == sentinel ==> NoHi(node.pos)) && old(node.right == sentinel ==> NoLo(node.pos))
      ensures Linked()
    {
      SplicedIn(node);
      SplicedLeftLink(node);
      SplicedRightLink(node);
      SplicedUpLink(node);
      assert old(Shape(node));
      forall n | n in order ensures Shape(n) {
        assert LeftLink(n) && RightLink(n) && UpLink(n);
        assert old(Shape(n));
        assert Place(n);
      }
    }

    /** What replacing node by its in-order successor did to the fields. */
    twostate predicate MovedUp(nodes: seq<Node>, node: Node)
      reads `order, `root, nodes
    {
      var k := old(node.pos);
      && nodes == old(order) && 0 <= k < |nodes| - 1 && order == Without(nodes, k)
      && var subst := nodes[k + 1]; var temp := old(subst.right); var q := old(subst.parent);
      && temp != null
      && root == (if old(root) == node then subst else old(root))
      && (forall n {:trigger n.left} :: n in nodes && n != node ==>
            n.left == if n == subst then old(node.left)
                      else if n == q then temp
                      else if old(root) != node && n == old(node.parent) && old(n.left) == node then subst
                      else old(n.left))
      && (forall n {:trigger n.right} :: n in nodes && n != node ==>
            n.right == if n == subst then (if q == node then temp else old(node.right))
                       else if old(root) != node && n == old(node.parent) && old(n.right) == node then subst
                       else old(n.right))
      && (forall n {:trigger n.parent} :: n in nodes && n != node ==>
            n.parent == if n == subst then old(node.parent)
                        else if n == temp then (if q == node then subst else q)
                        else if n == old(node.left) || n == old(node.right) then subst
                        else old(n.parent))
      && (forall n {:trigger n.lo} :: n in nodes && n != node ==>
            n.lo == if n == subst then old(node.lo) else Down(old(n.lo), k))
      && (forall n {:trigger n.pos} :: n in nodes && n != node ==> n.pos == Down(old(n.pos), k))
      && (forall n {:trigger n.hi} :: n in nodes && n != node ==>
            n.hi == if n == subst then Down(old(node.hi), k) else Down(old(n.hi), k))
    }

    /** node has two children and its successor, the leftmost node on its right, has no left child. */
    ghost predicate HasSuccessor(node: Node)
      reads `order, `root, order`left, order`right, order`parent, order`lo, order`pos, order`hi
    {
      && Linked() && node in order && Shape(node) && node.left != sentinel && node.right != sentinel
      && node.pos + 1 < |order| && Shape(order[node.pos + 1])
      && order[node.pos + 1].left == sentinel && order[node.pos + 1].lo == node.pos && NoHi(node.pos + 1)
    }

    twostate lemma MovedIn(node: Node)
      requires old(HasSuccessor(node)) && MovedUp(old(order), node)
      ensures forall n :: n in order <==> n in old(order) && n != node
      ensures forall i :: 0 <= i < |order| ==> order[i].pos == i
    {
      var k := old(node.pos);
      assert old(order)[k] == node;
      forall i | 0 <= i < |order| ensures order[i].pos == i {
        assert order[i] == old(order)[if i < k then i else i + 1];
      }
      forall n | n in old(order) && n != node ensures n in order {
        assert old(Shape(n));
        assert order[Down(old(n.pos), k)] == n;
      }
    }

    /** The nodes around node and its successor are pairwise different. */
    lemma SuccessorApart(node: Node)
      requires HasSuccessor(node)
      ensures var subst := order[node.pos + 1]; var q := subst.parent;
        && subst in order && q in order && Shape(q) && (q == node || q.left == subst) && (q == node ==> node.right == subst)
        && subst != node && subst != q && subst != node.left && subst.right != node.left && subst.right != subst
        && subst.right != q && subst.right != node && (q != node ==> subst != node.right && subst.right != node.right && q != node.left)
        && subst != root && subst.right != root && (node != root ==> node.parent in order && node.parent != subst && node.parent != q && node.parent != node)
    {
      var subst := order[node.pos + 1];
      var q := subst.parent;
      assert subst in order && Shape(subst) && Shape(q) && Shape(node.left) && Shape(node.right);
      if subst.right != sentinel {
        assert Shape(subst.right);
      }
      if node != root {
        assert Shape(node.parent);
      }
    }

    twostate lemma MovedLeftLinkAt(new n: Node, new node: Node)
      requires node in old(order) && old(HasSuccessor(node)) && MovedUp(old(order), node) && n in order && n in old(order) && n != node
      requires n != old(order[node.pos + 1]) && n != old(order[node.pos + 1].parent) && old(n.left) != node
      ensures LeftLink(n)
    {
      MovedIn(node);
      var subst, m := old(order[node.pos + 1]), old(n.left);
      assert old(SuccessorApart(node); true) && old(Shape(n));
      assert n.left == m;
      if m != sentinel {
        assert m != subst && m != old(subst.right) && m != old(node.left) && m != old(node.right);
      }
    }

    twostate lemma MovedLeftLinkTop(node: Node)
      requires old(HasSuccessor(node)) && MovedUp(old(order), node)
      ensures var subst := old(order[node.pos + 1]); var q := old(subst.parent);
        subst in order && LeftLink(subst) && (q != node ==> q in order && LeftLink(q))
    {
      MovedIn(node);
      var subst := old(order[node.pos + 1]);
      assert old(SuccessorApart(node); true) && old(Shape(node)) && old(Shape(subst));
    }

    twostate lemma MovedLeftLink(node: Node)
      requires old(HasSuccessor(node)) && MovedUp(old(order), node)
      ensures forall n {:trigger LeftLink(n)} :: n in order ==> LeftLink(n)
    {
      MovedIn(node);
      MovedLeftLinkTop(node);
      var subst := old(order[node.pos + 1]);
      forall n | n in order ensures LeftLink(n) {
        if n != subst && n != old(subst.parent) {
          if old(n.left) == node {
            assert old(Shape(n)) && old(SuccessorApart(node); true);
          } else {
            MovedLeftLinkAt(n, node);
          }
        }
      }
    }

    twostate lemma MovedRightLinkAt(new n: Node, new node: Node)
      requires node in old(order) && old(HasSuccessor(node)) && MovedUp(old(order), node) && n in order && n in old(order) && n != node
      requires n != old(order[node.pos + 1]) && old(n.right) != node
      ensures RightLink(n)
    {
      MovedIn(node);
      var subst, m := old(order[node.pos + 1]), old(n.right);
      assert old(SuccessorApart(node); true) && old(Shape(n));
      assert n.right == m;
      if m != sentinel {
        assert m != subst && m != old(subst.right) && m != old(node.left) && m != old(node.right);
      }
    }

    twostate lemma MovedRightLinkTop(node: Node)
      requires old(HasSuccessor(node)) && MovedUp(old(order), node)
      ensures var subst := old(order[node.pos + 1]); subst in order && RightLink(subst)
    {
      MovedIn(node);
      var subst := old(order[node.pos + 1]);
      assert old(SuccessorApart(node); true) && old(Shape(node)) && old(Shape(subst));
    }

    twostate lemma MovedRightLink(node: Node)
      requires old(HasSuccessor(node)) && MovedUp(old(order), node)
      ensures forall n {:trigger RightLink(n)} :: n in order ==> RightLink(n)
    {
      MovedIn(node);
      MovedRightLinkTop(node);
      forall n | n in order ensures RightLink(n) {
        if n != old(order[node.pos + 1]) {
          if old(n.right) == node {
            assert old(Shape(n)) && old(SuccessorApart(node); true);
          } else {
            MovedRightLinkAt(n, node);
          }
        }
      }
    }

    twostate lemma MovedUpLink(node: Node)
      requires old(HasSuccessor(node)) && MovedUp(old(order), node)
      ensures forall n {:trigger UpLink(n)} :: n in order ==> UpLink(n)
    {
      MovedIn(node);
      var subst := old(order[node.pos + 1]);
      var q := old(subst.parent);
      assert old(SuccessorApart(node); true);
      forall n | n in order ensures UpLink(n) {
        assert old(Shape(n));
        if n == subst {
        } else if n == old(subst.right) {
        } else if n == old(node.left) || n == old(node.right) {
        } else {
          assert n.parent == old(n.parent);
          if n != root {
            assert n.parent != node && n.parent != subst;
          }
        }
      }
    }

    twostate lemma MovedPlace(node: Node)
      requires old(HasSuccessor(node)) && MovedUp(old(order), node)
      ensures forall n {:trigger Place(n)} :: n in order ==> Place(n)
    {
      MovedIn(node);
      forall n | n in order ensures Place(n) {
        assert old(Shape(n));
      }
    }

    twostate lemma MovedShape(node: Node)
      requires old(HasSuccessor(node)) && MovedUp(old(order), node)
      ensures Linked()
    {
      MovedIn(node);
      MovedPlace(node);
      MovedLeftLink(node);
      MovedRightLink(node);
      MovedUpLink(node);
      forall n | n in order ensures Shape(n) {
        assert Place(n) && LeftLink(n) && RightLink(n) && UpLink(n);
      }
    }

    ghost method ShiftDown(k: int)
      modifies order`lo, order`pos, order`hi
      ensures forall n {:trigger n.lo} :: n in order ==> n.lo == Down(old(n.lo), k)
      ensures forall n {:trigger n.pos} :: n in order ==> n.pos == Down(old(n.pos), k)
      ensures forall n {:trigger n.hi} :: n in order ==> n.hi == Down(old(n.hi), k)
    {
      forall n | n in order {
        n.lo := Down(n.lo, k);
      }
      forall n | n in order {
        n.hi := Down(n.hi, k);
      }
      forall n | n in order {
        n.pos := Down(n.pos, k);
      }
    }

    ghost method ShiftDownFrom(k: int)
      modifies order`lo, order`pos, order`hi
      ensures forall n {:trigger n.lo} :: n in order ==> n.lo == DownFrom(old(n.lo), k)
      ensures forall n {:trigger n.pos} :: n in order ==> n.pos == Down(old(n.pos), k)
      ensures forall n {:trigger n.hi} :: n in order ==> n.hi == Down(old(n.hi), k)
    {
      forall n | n in order {
        n.lo := DownFrom(n.lo, k);
      }
      forall n | n in order {
        n.hi := Down(n.hi, k);
      }
      forall n | n in order {
        n.pos := Down(n.pos, k);
      }
    }

    /** subst is node itself: its child takes its place. */
    method SpliceFields(node: Node, temp: Node)
      requires node in order && sentinel !in order && 0 <= node.pos < |order| && temp == OnlyChild(node) && temp != node
      requires temp == sentinel || temp in order
      requires node != root ==>
        && node.parent in order && node.parent != node && node.parent != temp
        && (node.parent.left == node || node.parent.right == node) && node.parent.left != node.parent.right
      modifies `root, `order, order`left, order`right, order`parent, order`lo, order`pos, order`hi, sentinel`parent
      ensures SplicedOut(old(order), node)
      ensures old(node != root) ==> temp.parent == old(node.parent)
    {
      ghost var k := node.pos;
      if node == root {
        root := temp;
      } else {
        if node == node.parent.left {
          node.parent.left := temp;
        } else {
          node.parent.right := temp;
        }
        temp.parent := node.parent;
      }
      ShiftDownFrom(k);
      order := Without(order, k);
    }

    /** subst leaves its place to its right child. */
    method DetachSuccessor(node: Node, subst: Node, temp: Node)
      requires subst in order && sentinel !in order && subst.parent in order && (temp == sentinel || temp in order)
      requires subst.parent.left == subst || subst.parent.right == subst
      modifies order`left, order`right, order`parent, sentinel`parent
      ensures var q := old(subst.parent);
        && (forall n {:trigger n.left} :: n in order ==>
              n.left == if n == q && old(n.left) == subst then temp else old(n.left))
        && (forall n {:trigger n.right} :: n in order ==>
              n.right == if n == q && old(n.left) != subst then temp else old(n.right))
        && (forall n {:trigger n.parent} :: n in order ==>
              n.parent == if n == temp then (if q == node then subst else q) else old(n.parent))
        && temp.parent == (if q == node then subst else q)
    {
      if subst == subst.parent.left {
        subst.parent.left := temp;
      } else {
        subst.parent.right := temp;
      }

      if subst.parent == node {
        temp.parent := subst;
      } else {
        temp.parent := subst.parent;
      }
    }

    /** The neighbours of node are pointed at subst, which already has node's links. */
    method Redirect(node: Node, subst: Node)
      requires subst in order && sentinel !in order && node != subst
      requires subst.left != null && (subst.left == sentinel || subst.left in order) && subst.left != subst
      requires subst.right != null && (subst.right == sentinel || subst.right in order) && subst.right != subst
      requires node != root ==>
        && node.parent in order && node.parent != subst
        && (node.parent.left == node || node.parent.right == node) && node.parent.left != node.parent.right
      modifies `root, order`left, order`right, order`parent
      ensures root == if old(root) == node then subst else old(root)
      ensures forall n {:trigger n.left} :: n in order ==>
        n.left == if old(root) != node && n == old(node.parent) && old(n.left) == node then subst else old(n.left)
      ensures forall n {:trigger n.right} :: n in order ==>
        n.right == if old(root) != node && n == old(node.parent) && old(n.right) == node then subst else old(n.right)
      ensures forall n {:trigger n.parent} :: n in order ==>
        n.parent == if n == old(subst.left) || n == old(subst.right) then subst else old(n.parent)
    {
      if node == root {
        root := subst;
      } else {
        if node == node.parent.left {
          node.parent.left := subst;
        } else {
          node.parent.right := subst;
        }
      }

      if subst.left != sentinel {
        subst.left.parent := subst;
      }

      if subst.right != sentinel {
        subst.right.parent := subst;
      }
    }

    /** subst takes over the links and the colour of node. */
    method TakePlace(node: Node, subst: Node)
      requires node in order && subst in order && node != subst && sentinel !in order
      requires node.left != null && (node.left == sentinel || node.left in order) && node.left != node && node.left != subst
      requires node.right != null && (node.right == sentinel || node.right in order) && node.right != node && node.right != subst
      requires node != root ==>
        && node.parent in order && node.parent != node && node.parent != subst
        && (node.parent.left == node || node.parent.right == node) && node.parent.left != node.parent.right
      modifies `root, order`left, order`right, order`parent, order`red, order`bh
      ensures root == if old(root) == node then subst else old(root)
      ensures forall n {:trigger n.left} :: n in order ==>
        n.left == if n == subst then old(node.left)
                  else if old(root) != node && n == old(node.parent) && old(n.left) == node then subst
                  else old(n.left)
      ensures forall n {:trigger n.right} :: n in order ==>
        n.right == if n == subst then old(node.right)
                   else if old(root) != node && n == old(node.parent) && old(n.right) == node then subst
                   else old(n.right)
      ensures forall n {:trigger n.parent} :: n in order ==>
        n.parent == if n == subst then old(node.parent)
                    else if n == old(node.left) || n == old(node.right) then subst else old(n.parent)
      ensures forall n {:trigger n.red} :: n in order ==> n.red == if n == subst then old(node.red) else old(n.red)
      ensures forall n {:trigger n.bh} :: n in order ==> n.bh == if n == subst then old(node.bh) else old(n.bh)
    {
      subst.left := node.left;
      subst.right := node.right;
      subst.parent := node.parent;
      subst.red := node.red;
      subst.bh := node.bh;

      Redirect(node, subst);
    }

    /** What the stores that move a successor up rely on. */
    ghost predicate Detachable(node: Node, subst: Node, temp: Node)
      reads this, node, subst, subst.parent, node.parent
    {
      && node in order && sentinel !in order && 0 <= node.pos < |order| - 1 && subst == order[node.pos + 1]
      && temp == subst.right && subst.left == sentinel && (temp == sentinel || temp in order)
      && subst in order && node.left in order && node.right in order && node.left != node.right
      && var q := subst.parent;
      && q in order && (q == node || q.left == subst) && (q == node ==> node.right == subst)
      && subst != node && subst != q && subst != node.left && subst.right != node.left && subst.right != subst
      && subst.right != q && subst.right != node && (q != node ==> subst != node.right && subst.right != node.right && q != node.left)
      && subst != root && node != node.left && node != node.right
      && (node != root ==>
            && node.parent in order && node.parent != subst && node.parent != q && node.parent != node
            && node.parent != node.left && node.parent != node.right && node.parent != temp
            && (node.parent.left == node || node.parent.right == node) && node.parent.left != node.parent.right)
    }

    lemma SuccessorDetachable(node: Node)
      requires HasSuccessor(node)
      ensures var subst := order[node.pos + 1]; subst.right != null && Detachable(node, subst, subst.right)
    {
      SuccessorApart(node);
      assert Shape(node.left) && Shape(node.right);
      if node != root {
        assert Shape(node.parent);
      }
      var temp := order[node.pos + 1].right;
      if temp != sentinel {
        assert Shape(temp);
      }
    }

    method MoveUpFields(node: Node, subst: Node, temp: Node)
      requires Detachable(node, subst, temp)
      modifies `root, `order, order`left, order`right, order`parent, order`red, order`bh, order`lo, order`pos, order`hi, sentinel`parent
      ensures MovedUp(old(order), node)
      ensures temp.parent == (if old(subst.parent) == node then subst else old(subst.parent))
      ensures MovedColours(old(order), node)
    {
      ghost var k, lo, hi := node.pos, node.lo, node.hi;
      DetachSuccessor(node, subst, temp);
      TakePlace(node, subst);
      ShiftDown(k);
      subst.lo := lo;
      subst.hi := Down(hi, k);
      order := Without(order, k);
    }

    /** As Colour, but the given side of p has one black node too few. */
    ghost predicate ShortColour(n: Node, v: Node, p: Node, side: Side)
      reads `order, sentinel`red, sentinel`bh, n`left, n`right, n`red, n`bh, order`red, order`bh
    {
      && (n.left == sentinel || n.left in order) && (n.right == sentinel || n.right in order)
      && Bh(n.left) + (if n == p && side == OnLeft then 1 else 0) == Bh(n.right) + (if n == p && side == OnRight then 1 else 0)
      && n.bh == Bh(n.left) + (if n == p && side == OnLeft then 1 else 0) + (if n.red then 0 else 1)
      && (n.red && n.left.red ==> n.left == v || n == v)
      && (n.red && n.right.red ==> n.right == v || n == v)
    }

    ghost predicate Short(v: Node, p: Node, side: Side)
      reads `order, sentinel`red, sentinel`bh, order`left, order`right, order`red, order`bh
    {
      !sentinel.red && forall n {:trigger ShortColour(n, v, p, side)} :: n in order ==> ShortColour(n, v, p, side)
    }

    /** The loop invariant of the deletion repair: the side of temp is one black node short. */
    ghost predicate DoubleBlack(temp: Node, side: Side)
      reads `order, `root, root`red, temp`parent, sentinel`red, sentinel`bh, order`red, order`bh
      reads order`left, order`right, order`parent, order`lo, order`pos, order`hi
    {
      && Linked() && (temp == sentinel || temp in order) && temp != root && root in order && !root.red
      && temp.parent in order && (if side == OnLeft then temp.parent.left else temp.parent.right) == temp
      && Short(temp, temp.parent, side)
    }

    /** The sibling is a real node, so testing temp == temp.parent.left finds temp's side. */
    lemma SiblingIsReal(temp: Node, side: Side)
      requires DoubleBlack(temp, side)
      ensures var p := temp.parent; var w := if side == OnLeft then p.right else p.left;
        && Shape(p) && ShortColour(p, temp, p, side) && w in order && Shape(w) && ShortColour(w, temp, p, side)
        && w != p && (temp == p.left <==> side == OnLeft)
        && w.left != null && w.right != null
    {}

    lemma SpanGrows(n: Node)
      requires Linked() && n in order
      ensures n != root ==> n.parent in order && Span(n.parent) > Span(n)
      ensures Span(n) <= |order| + 1
    {
      assert Shape(n);
      if n != root {
        assert Shape(n.parent);
      }
    }

    /** Splicing out a red node keeps the colours. */
    twostate lemma SplicedRed(node: Node)
      requires old(Valid()) && node in old(order) && SplicedOut(old(order), node) && old(node.red)
      requires old(node.left == sentinel || node.right == sentinel) && !sentinel.red
      requires forall n {:trigger n.red} :: n in old(order) ==> n.red == old(n.red)
      requires forall n {:trigger n.bh} :: n in old(order) ==> n.bh == old(n.bh)
      ensures Coloured(null)
    {
      SplicedIn(node);
      assert old(Shape(node)) && old(Colour(node, null));
      forall n | n in order ensures Colour(n, null) {
        assert old(KidsOf(n); Kids(n)) && old(Colour(n, null));
      }
    }

    ghost function SideOf(node: Node): Side
      requires node.parent != null
      reads node, node.parent
    {
      if node.parent.left == node then OnLeft else OnRight
    }

    /** Splicing out a black node leaves its side one black node short. */
    twostate lemma SplicedBlack(node: Node)
      requires old(Valid()) && node in old(order) && SplicedOut(old(order), node) && old(!node.red && node != root)
      requires old(node.left == sentinel || node.right == sentinel) && !sentinel.red
      requires old(node.parent in order && OnlyChild(node) != null)
      requires forall n {:trigger n.red} :: n in old(order) ==> n.red == old(n.red)
      requires forall n {:trigger n.bh} :: n in old(order) ==> n.bh == old(n.bh)
      ensures Short(old(OnlyChild(node)), old(node.parent), old(SideOf(node)))
    {
      var p, temp := old(node.parent), old(OnlyChild(node));
      var side := old(SideOf(node));
      SplicedIn(node);
      assert old(Shape(node)) && old(Colour(node, null)) && old(Shape(p));
      forall n | n in order ensures ShortColour(n, temp, p, side) {
        assert old(KidsOf(n); Kids(n)) && old(Colour(n, null));
      }
    }

    /** The successor takes over the colour of the node it replaces. */
    twostate predicate MovedColours(nodes: seq<Node>, node: Node)
      reads nodes
    {
      && node in nodes && 0 <= old(node.pos) < |nodes| - 1
      && var subst := nodes[old(node.pos) + 1];
      && (forall n {:trigger n.red} :: n in nodes ==> n.red == if n == subst then old(node.red) else old(n.red))
      && (forall n {:trigger n.bh} :: n in nodes ==> n.bh == if n == subst then old(node.bh) else old(n.bh))
    }

    /** Moving a red successor up keeps the colours. */
    twostate lemma MovedRed(node: Node)
      requires old(Valid() && HasSuccessor(node) && order[node.pos + 1].red) && MovedUp(old(order), node) && !sentinel.red
      requires MovedColours(old(order), node)
      ensures Coloured(null)
    {
      var subst := old(order[node.pos + 1]);
      MovedIn(node);
      assert old(SuccessorApart(node); true);
      assert old(Colour(node, null)) && old(Colour(subst, null));
      forall n | n in order ensures Colour(n, null) {
        assert old(KidsOf(n); Kids(n)) && old(Colour(n, null));
        if n == subst {
        } else if n == old(subst.parent) {
        } else {
        }
      }
    }

    /** Where the right child of the moved successor hangs now. */
    ghost function GapParent(node: Node): Node?
      requires 0 <= node.pos < |order| - 1
      reads `order, node`pos, order`parent
    {
      var subst := order[node.pos + 1];
      if subst.parent == node then subst else subst.parent
    }

    ghost function GapSide(node: Node): Side
      requires 0 <= node.pos < |order| - 1
      reads `order, node`pos, order`parent
    {
      if order[node.pos + 1].parent == node then OnRight else OnLeft
    }

    /** Moving a black successor up keeps the colours of the place it moved to. */
    twostate lemma MovedBlackTop(node: Node)
      requires old(Valid() && HasSuccessor(node) && !order[node.pos + 1].red) && MovedUp(old(order), node) && !sentinel.red
      requires MovedColours(old(order), node)
      ensures var subst := old(order[node.pos + 1]);
        && old(subst.right) != null && old(GapParent(node)) != null && subst in order
        && ShortColour(subst, old(subst.right), old(GapParent(node)), old(GapSide(node)))
    {
      var subst := old(order[node.pos + 1]);
      MovedIn(node);
      assert old(SuccessorApart(node); true);
      assert old(Colour(node, null)) && old(Colour(subst, null)) && old(KidsOf(node); Kids(node));
    }

    /** It leaves its old place one black node short. */
    twostate lemma MovedBlack(node: Node)
      requires old(Valid() && HasSuccessor(node) && !order[node.pos + 1].red) && MovedUp(old(order), node) && !sentinel.red
      requires MovedColours(old(order), node)
      ensures old(order[node.pos + 1].right) != null && old(GapParent(node)) != null
      ensures Short(old(order[node.pos + 1].right), old(GapParent(node)), old(GapSide(node)))
    {
      var subst := old(order[node.pos + 1]);
      MovedBlackTop(node);
      MovedIn(node);
      assert old(SuccessorApart(node); true);
      assert old(Colour(subst, null));
      var temp, p, side := old(subst.right), old(GapParent(node)), old(GapSide(node));
      forall n | n in order ensures ShortColour(n, temp, p, side) {
        assert old(KidsOf(n); Kids(n)) && old(Colour(n, null));
        if n != subst && n != old(subst.parent) {
        }
      }
    }

    /** Case 1, the sibling is red: rotate so that the new sibling is black. */
    twostate lemma RedSiblingLeftColours(temp: Node)
      requires old(DoubleBlack(temp, OnLeft)) && Linked() && !sentinel.red && temp.parent == old(temp.parent)
      requires var p := old(temp.parent); var w := old(p.right);
        w in order && old(w.red) && LeftRotated(p) && Swapped(w, p)
      ensures DoubleBlack(temp, OnLeft) && temp.parent.right in order && !temp.parent.right.red && temp.parent.red
    {
      var p := old(temp.parent);
      var w := old(p.right);
      assert old(SiblingIsReal(temp, OnLeft); true);
      assert old(ShortColour(w, temp, p, OnLeft)) && old(ShortColour(p, temp, p, OnLeft));
      forall n | n in order ensures ShortColour(n, temp, p, OnLeft) {
        assert old(KidsOf(n); Kids(n)) && old(ShortColour(n, temp, p, OnLeft));
        if n == p {
        } else if n == w {
        } else {
        }
      }
    }

    method RedSiblingLeft(temp: Node, w: Node)
      requires DoubleBlack(temp, OnLeft) && temp.parent.right == w && w.red
      modifies `root, order`left, order`right, order`parent, order`lo, order`hi, order`red, order`bh
      ensures temp.red == old(temp.red)
      ensures DoubleBlack(temp, OnLeft) && temp.parent == old(temp.parent) && temp.parent.right in order && !temp.parent.right.red && temp.parent.red
    {
      SiblingIsReal(temp, OnLeft);
      SwapColours(w, temp.parent);
      LeftRotate(temp.parent);
      RedSiblingLeftColours(temp);
    }

    /** Case 3, the sibling's inner child is red and its outer one black: make the outer one red. */
    twostate lemma InnerNephewLeftColours(temp: Node)
      requires old(DoubleBlack(temp, OnLeft)) && Linked() && !sentinel.red && temp.parent == old(temp.parent)
      requires var p := old(temp.parent); var w := old(p.right); w in order && var v := old(w.left);
        v in order && old(!w.red && v.red) && old(w.right) != null && old(!w.right.red) && RightRotated(w) && Swapped(v, w)
      ensures DoubleBlack(temp, OnLeft) && temp.parent.right == old(temp.parent.right.left) && temp.parent.right.right == old(temp.parent.right)
      ensures !temp.parent.right.red && temp.parent.right.right.red
    {
      var p := old(temp.parent);
      var w := old(p.right);
      var v := old(w.left);
      assert old(SiblingIsReal(temp, OnLeft); true);
      assert old(ShortColour(w, temp, p, OnLeft)) && old(ShortColour(p, temp, p, OnLeft)) && old(Shape(v) && ShortColour(v, temp, p, OnLeft));
      forall n | n in order ensures ShortColour(n, temp, p, OnLeft) {
        assert old(KidsOf(n); Kids(n)) && old(ShortColour(n, temp, p, OnLeft));
        if n == p {
        } else if n == w {
        } else if n == v {
        } else {
        }
      }
    }

    method InnerNephewLeft(temp: Node, w: Node)
      requires DoubleBlack(temp, OnLeft) && temp.parent.right == w && w in order && !w.red
      requires w.left in order && w.left.red && w.right != null && !w.right.red
      modifies `root, order`left, order`right, order`parent, order`lo, order`hi, order`red, order`bh
      ensures temp.red == old(temp.red)
      ensures DoubleBlack(temp, OnLeft) && temp.parent == old(temp.parent)
      ensures temp.parent.right in order && !temp.parent.right.red && temp.parent.right.right in order && temp.parent.right.right.red
    {
      SiblingIsReal(temp, OnLeft);
      assert Shape(w.left) && temp != w && temp != w.left && (temp != sentinel ==> temp != w.left.right);
      SwapColours(w.left, w);
      RightRotate(w);
      InnerNephewLeftColours(temp);
    }

    /** Case 2, both nephews are black: the sibling turns red and the shortage is its parent's. */
    twostate predicate Sunk(temp: Node, new side: Side)
      reads this, sentinel, order
    {
      && old(DoubleBlack(temp, side)) && LinksKept() && !sentinel.red && !old(temp.red)
      && var p := old(temp.parent); var w := if side == OnLeft then old(p.right) else old(p.left);
      && w in old(order) && old(!w.red && w.left != null && w.right != null) && old(!w.left.red && !w.right.red)
      && (forall n {:trigger n.red} :: n in order ==> n.red == if n == w then true else old(n.red))
      && (forall n {:trigger n.bh} :: n in order ==> n.bh == if n == w || n == p then old(n.bh) - 1 else old(n.bh))
    }

    method Sink(temp: Node, w: Node, ghost side: Side)
      requires DoubleBlack(temp, side) && (if side == OnLeft then temp.parent.right else temp.parent.left) == w
      requires w in order && !w.red && !temp.red && w.left != null && w.right != null && !w.left.red && !w.right.red
      modifies order`red, order`bh
      ensures Sunk(temp, side) && root.red == old(root.red)
    {
      SiblingIsReal(temp, side);
      ghost var p := temp.parent;
      w.red := true;
      w.bh := w.bh - 1;
      p.bh := p.bh - 1;
    }

    twostate lemma SunkAtRoot(temp: Node, new side: Side)
      requires Sunk(temp, side) && old(temp.parent) == root
      ensures Coloured(null)
    {
      assert old(SiblingIsReal(temp, side); true);
      forall n | n in order ensures Colour(n, null) {
        assert old(KidsOf(n); Kids(n)) && old(ShortColour(n, temp, temp.parent, side));
      }
    }

    twostate lemma SunkGrandparent(temp: Node, new side: Side)
      requires Sunk(temp, side) && old(temp.parent) != root
      ensures var p := old(temp.parent); var g := p.parent;
        g in order && g != p && g != temp && ShortColour(g, p, g, SideOf(p))
    {
      var p := old(temp.parent);
      assert old(SiblingIsReal(temp, side); true) && old(Shape(p));
      var g := p.parent;
      assert old(Shape(g)) && old(KidsOf(g); Kids(g)) && old(ShortColour(g, temp, p, side));
    }

    twostate lemma SunkBelowRoot(temp: Node, new side: Side)
      requires Sunk(temp, side) && old(temp.parent) != root
      ensures var p := old(temp.parent); p.parent != null && Short(p, p.parent, SideOf(p))
    {
      var p := old(temp.parent);
      SunkGrandparent(temp, side);
      assert old(SiblingIsReal(temp, side); true);
      forall n | n in order ensures ShortColour(n, p, p.parent, SideOf(p)) {
        assert old(KidsOf(n); Kids(n)) && old(ShortColour(n, temp, p, side));
        if n != p.parent && n != p {
        }
      }
    }

    method BlackNephews(temp: Node, w: Node, ghost side: Side)
      requires DoubleBlack(temp, side) && (if side == OnLeft then temp.parent.right else temp.parent.left) == w
      requires w in order && !w.red && !temp.red && w.left != null && w.right != null && !w.left.red && !w.right.red
      modifies order`red, order`bh
      ensures Linked() && root in order && !root.red
      ensures temp.parent.red == old(temp.parent.red)
      ensures var p := temp.parent; p in order && (if p == root then Coloured(null) else p.parent in order && DoubleBlack(p, SideOf(p)))
    {
      SiblingIsReal(temp, side);
      Sink(temp, w, side);
      if temp.parent == root {
        SunkAtRoot(temp, side);
      } else {
        SunkBelowRoot(temp, side);
      }
    }

    /** Case 4, the sibling's outer child is red: one rotation ends the repair. */
    twostate predicate LiftedLeft(temp: Node)
      reads this, sentinel, order
    {
      && old(DoubleBlack(temp, OnLeft)) && !sentinel.red && !old(temp.red)
      && var p := old(temp.parent); var w := old(p.right); w in old(order) && old(!w.red) && var v := old(w.right);
      && v in old(order) && old(v.red) && LeftRotated(p)
      && (forall n {:trigger n.red} :: n in order ==>
            n.red == if n == w then old(p.red) else if n == p || n == v then false else old(n.red))
      && (forall n {:trigger n.bh} :: n in order ==>
            n.bh == if n == w then old(p.bh) else if n == p then old(w.bh) else if n == v then old(n.bh) + 1 else old(n.bh))
    }

    twostate lemma LiftedLeftPath(temp: Node)
      requires LiftedLeft(temp)
      ensures var p := old(temp.parent); var w := old(p.right); var v := old(w.right);
        w != null && v != null && Colour(p, null) && Colour(w, null) && Colour(v, null)
    {
      var p := old(temp.parent);
      var w := old(p.right);
      var v := old(w.right);
      assert old(SiblingIsReal(temp, OnLeft); true);
      assert old(ShortColour(w, temp, p, OnLeft)) && old(ShortColour(p, temp, p, OnLeft)) && old(Shape(v) && ShortColour(v, temp, p, OnLeft));
      assert old(KidsOf(p); Kids(p)) && old(KidsOf(w); Kids(w)) && old(KidsOf(v); Kids(v));
    }

    twostate lemma LiftedLeftColours(temp: Node)
      requires LiftedLeft(temp)
      ensures Coloured(null) && !root.red
    {
      var p := old(temp.parent);
      LiftedLeftPath(temp);
      assert old(SiblingIsReal(temp, OnLeft); true);
      forall n | n in order ensures Colour(n, null) {
        assert old(KidsOf(n); Kids(n)) && old(ShortColour(n, temp, p, OnLeft));
      }
    }

    method PaintOuterNephewLeft(p: Node, w: Node)
      requires p in order && w in order && p != w && w.right in order && w.right != p && w.right != w
      modifies order`red, order`bh
      ensures forall n {:trigger n.red} :: n in order ==>
        n.red == if n == w then old(p.red) else if n == p || n == w.right then false else old(n.red)
      ensures forall n {:trigger n.bh} :: n in order ==>
        n.bh == if n == w then old(p.bh) else if n == p then old(w.bh) else if n == w.right then old(n.bh) + 1 else old(n.bh)
    {
      ghost var h := w.bh;
      w.red := p.red;
      p.red := false;
      w.right.red := false;
      w.bh := p.bh;
      p.bh := h;
      w.right.bh := w.right.bh + 1;
    }

    method OuterNephewLeft(temp: Node, w: Node)
      requires DoubleBlack(temp, OnLeft) && temp.parent.right == w && w in order && !w.red && !temp.red
      requires w.right in order && w.right.red
      modifies `root, order`left, order`right, order`parent, order`lo, order`hi, order`red, order`bh
      ensures Valid() && root in order
    {
      SiblingIsReal(temp, OnLeft);
      assert Shape(w.right);
      PaintOuterNephewLeft(temp.parent, w);
      LeftRotate(temp.parent);
      LiftedLeftColours(temp);
    }

    /** Cases 2 to 4: the sibling of temp is black. */
    method DeleteBlackSiblingLeft(temp: Node, w0: Node) returns (next: Node)
      requires DoubleBlack(temp, OnLeft) && !temp.red && temp.parent.right == w0 && w0 in order && !w0.red
      modifies `root, order`left, order`right, order`parent, order`lo, order`hi, order`red, order`bh
      ensures Linked() && next in order
      ensures if next == root then Valid() else next.parent in order && DoubleBlack(next, SideOf(next))
      ensures next != root ==> next == old(temp.parent) && next.red == old(temp.parent.red) && Span(next) == old(Span(temp.parent))
    {
      SiblingIsReal(temp, OnLeft);
      var w := w0;
      if !w.left.red && !w.right.red {
        BlackNephews(temp, w, OnLeft);
        next := temp.parent;
      } else {
        if !w.right.red {
          InnerNephewLeft(temp, w);
          w := temp.parent.right;
        }
        OuterNephewLeft(temp, w);
        next := root;
      }
    }

    /** One iteration of the repair loop when temp is a left child. */
    method DeleteStepLeft(temp: Node) returns (next: Node)
      requires DoubleBlack(temp, OnLeft) && !temp.red
      modifies `root, order`left, order`right, order`parent, order`lo, order`hi, order`red, order`bh
      ensures Linked() && next in order
      ensures if next == root then Valid() else next.parent in order && DoubleBlack(next, SideOf(next))
      ensures next != root && !next.red ==> Span(next.parent) > old(Span(temp.parent))
    {
      SiblingIsReal(temp, OnLeft);
      var w := temp.parent.right;
      if w.red {
        RedSiblingLeft(temp, w);
        w := temp.parent.right;
      }
      next := DeleteBlackSiblingLeft(temp, w);
      SpanGrows(next);
    }



    /** Case 1, the sibling is red: rotate so that the new sibling is black. */
    twostate lemma RedSiblingRightColours(temp: Node)
      requires old(DoubleBlack(temp, OnRight)) && Linked() && !sentinel.red && temp.parent == old(temp.parent)
      requires var p := old(temp.parent); var w := old(p.left);
        w in order && old(w.red) && RightRotated(p) && Swapped(w, p)
      ensures DoubleBlack(temp, OnRight) && temp.parent.left in order && !temp.parent.left.red && temp.parent.red
    {
      var p := old(temp.parent);
      var w := old(p.left);
      assert old(SiblingIsReal(temp, OnRight); true);
      assert old(ShortColour(w, temp, p, OnRight)) && old(ShortColour(p, temp, p, OnRight));
      forall n | n in order ensures ShortColour(n, temp, p, OnRight) {
        assert old(KidsOf(n); Kids(n)) && old(ShortColour(n, temp, p, OnRight));
        if n == p {
        } else if n == w {
        } else {
        }
      }
    }

    method RedSiblingRight(temp: Node, w: Node)
      requires DoubleBlack(temp, OnRight) && temp.parent.left == w && w.red
      modifies `root, order`right, order`left, order`parent, order`hi, order`lo, order`red, order`bh
      ensures temp.red == old(temp.red)
      ensures DoubleBlack(temp, OnRight) && temp.parent == old(temp.parent) && temp.parent.left in order && !temp.parent.left.red && temp.parent.red
    {
      SiblingIsReal(temp, OnRight);
      SwapColours(w, temp.parent);
      RightRotate(temp.parent);
      RedSiblingRightColours(temp);
    }

    /** Case 3, the sibling's inner child is red and its outer one black: make the outer one red. */
    twostate lemma InnerNephewRightColours(temp: Node)
      requires old(DoubleBlack(temp, OnRight)) && Linked() && !sentinel.red && temp.parent == old(temp.parent)
      requires var p := old(temp.parent); var w := old(p.left); w in order && var v := old(w.right);
        v in order && old(!w.red && v.red) && old(w.left) != null && old(!w.left.red) && LeftRotated(w) && Swapped(v, w)
      ensures DoubleBlack(temp, OnRight) && temp.parent.left == old(temp.parent.left.right) && temp.parent.left.left == old(temp.parent.left)
      ensures !temp.parent.left.red && temp.parent.left.left.red
    {
      var p := old(temp.parent);
      var w := old(p.left);
      var v := old(w.right);
      assert old(SiblingIsReal(temp, OnRight); true);
      assert old(ShortColour(w, temp, p, OnRight)) && old(ShortColour(p, temp, p, OnRight)) && old(Shape(v) && ShortColour(v, temp, p, OnRight));
      forall n | n in order ensures ShortColour(n, temp, p, OnRight) {
        assert old(KidsOf(n); Kids(n)) && old(ShortColour(n, temp, p, OnRight));
        if n == p {
        } else if n == w {
        } else if n == v {
        } else {
        }
      }
    }

    method InnerNephewRight(temp: Node, w: Node)
      requires DoubleBlack(temp, OnRight) && temp.parent.left == w && w in order && !w.red
      requires w.right in order && w.right.red && w.left != null && !w.left.red
      modifies `root, order`right, order`left, order`parent, order`hi, order`lo, order`red, order`bh
      ensures temp.red == old(temp.red)
      ensures DoubleBlack(temp, OnRight) && temp.parent == old(temp.parent)
      ensures temp.parent.left in order && !temp.parent.left.red && temp.parent.left.left in order && temp.parent.left.left.red
    {
      SiblingIsReal(temp, OnRight);
      assert Shape(w.right) && temp != w && temp != w.right && (temp != sentinel ==> temp != w.right.left);
      SwapColours(w.right, w);
      LeftRotate(w);
      InnerNephewRightColours(temp);
    }

    /** Case 4, the sibling's outer child is red: one rotation ends the repair. */
    twostate predicate LiftedRight(temp: Node)
      reads this, sentinel, order
    {
      && old(DoubleBlack(temp, OnRight)) && !sentinel.red && !old(temp.red)
      && var p := old(temp.parent); var w := old(p.left); w in old(order) && old(!w.red) && var v := old(w.left);
      && v in old(order) && old(v.red) && RightRotated(p)
      && (forall n {:trigger n.red} :: n in order ==>
            n.red == if n == w then old(p.red) else if n == p || n == v then false else old(n.red))
      && (forall n {:trigger n.bh} :: n in order ==>
            n.bh == if n == w then old(p.bh) else if n == p then old(w.bh) else if n == v then old(n.bh) + 1 else old(n.bh))
    }

    twostate lemma LiftedRightPath(temp: Node)
      requires LiftedRight(temp)
      ensures var p := old(temp.parent); var w := old(p.left); var v := old(w.left);
        w != null && v != null && Colour(p, null) && Colour(w, null) && Colour(v, null)
    {
      var p := old(temp.parent);
      var w := old(p.left);
      var v := old(w.left);
      assert old(SiblingIsReal(temp, OnRight); true);
      assert old(ShortColour(w, temp, p, OnRight)) && old(ShortColour(p, temp, p, OnRight)) && old(Shape(v) && ShortColour(v, temp, p, OnRight));
      assert old(KidsOf(p); Kids(p)) && old(KidsOf(w); Kids(w)) && old(KidsOf(v); Kids(v));
    }

    twostate lemma LiftedRightColours(temp: Node)
      requires LiftedRight(temp)
      ensures Coloured(null) && !root.red
    {
      var p := old(temp.parent);
      LiftedRightPath(temp);
      assert old(SiblingIsReal(temp, OnRight); true);
      forall n | n in order ensures Colour(n, null) {
        assert old(KidsOf(n); Kids(n)) && old(ShortColour(n, temp, p, OnRight));
      }
    }

    method PaintOuterNephewRight(p: Node, w: Node)
      requires p in order && w in order && p != w && w.left in order && w.left != p && w.left != w
      modifies order`red, order`bh
      ensures forall n {:trigger n.red} :: n in order ==>
        n.red == if n == w then old(p.red) else if n == p || n == w.left then false else old(n.red)
      ensures forall n {:trigger n.bh} :: n in order ==>
        n.bh == if n == w then old(p.bh) else if n == p then old(w.bh) else if n == w.left then old(n.bh) + 1 else old(n.bh)
    {
      ghost var h := w.bh;
      w.red := p.red;
      p.red := false;
      w.left.red := false;
      w.bh := p.bh;
      p.bh := h;
      w.left.bh := w.left.bh + 1;
    }

    method OuterNephewRight(temp: Node, w: Node)
      requires DoubleBlack(temp, OnRight) && temp.parent.left == w && w in order && !w.red && !temp.red
      requires w.left in order && w.left.red
      modifies `root, order`right, order`left, order`parent, order`hi, order`lo, order`red, order`bh
      ensures Valid() && root in order
    {
      SiblingIsReal(temp, OnRight);
      assert Shape(w.left);
      PaintOuterNephewRight(temp.parent, w);
      RightRotate(temp.parent);
      LiftedRightColours(temp);
    }

    /** Cases 2 to 4: the sibling of temp is black. */
    method DeleteBlackSiblingRight(temp: Node, w0: Node) returns (next: Node)
      requires DoubleBlack(temp, OnRight) && !temp.red && temp.parent.left == w0 && w0 in order && !w0.red
      modifies `root, order`right, order`left, order`parent, order`hi, order`lo, order`red, order`bh
      ensures Linked() && next in order
      ensures if next == root then Valid() else next.parent in order && DoubleBlack(next, SideOf(next))
      ensures next != root ==> next == old(temp.parent) && next.red == old(temp.parent.red) && Span(next) == old(Span(temp.parent))
    {
      SiblingIsReal(temp, OnRight);
      var w := w0;
      if !w.right.red && !w.left.red {
        BlackNephews(temp, w, OnRight);
        next := temp.parent;
      } else {
        if !w.left.red {
          InnerNephewRight(temp, w);
          w := temp.parent.left;
        }
        OuterNephewRight(temp, w);
        next := root;
      }
    }

    /** One iteration of the repair loop when temp is a right child. */
    method DeleteStepRight(temp: Node) returns (next: Node)
      requires DoubleBlack(temp, OnRight) && !temp.red
      modifies `root, order`right, order`left, order`parent, order`hi, order`lo, order`red, order`bh
      ensures Linked() && next in order
      ensures if next == root then Valid() else next.parent in order && DoubleBlack(next, SideOf(next))
      ensures next != root && !next.red ==> Span(next.parent) > old(Span(temp.parent))
    {
      SiblingIsReal(temp, OnRight);
      var w := temp.parent.left;
      if w.red {
        RedSiblingRight(temp, w);
        w := temp.parent.left;
      }
      next := DeleteBlackSiblingRight(temp, w);
      SpanGrows(next);
    }

    twostate lemma ShortPaidBack(temp: Node)
      requires old(temp != root && temp.red && temp.parent in order && DoubleBlack(temp, SideOf(temp))) && LinksKept() && !sentinel.red
      requires forall n {:trigger n.red} :: n in order ==> n.red == if n == temp then false else old(n.red)
      requires forall n {:trigger n.bh} :: n in order ==> n.bh == if n == temp then old(n.bh) + 1 else old(n.bh)
      ensures Coloured(null)
    {
      var p, side := old(temp.parent), old(SideOf(temp));
      forall n | n in order ensures Colour(n, null) {
        assert old(KidsOf(n); Kids(n)) && old(ShortColour(n, temp, p, side));
      }
    }

    /** A red temp, painted black, pays the shortage back. */
    method BlackenTemp(temp: Node)
      requires if temp == root then Valid() && temp in order
               else temp.parent in order && DoubleBlack(temp, SideOf(temp)) && temp.red
      modifies order`red, order`bh
      ensures Valid()
    {
      if temp != root {
        temp.bh := temp.bh + 1;
        temp.red := false;
        ShortPaidBack(temp);
      } else {
        temp.red := false;
      }
    }

    method DeleteStep(temp: Node, ghost side: Side) returns (next: Node)
      requires DoubleBlack(temp, side) && !temp.red
      modifies `root, order`left, order`right, order`parent, order`lo, order`hi, order`red, order`bh
      ensures Linked() && next in order
      ensures if next == root then Valid() else next.parent in order && DoubleBlack(next, SideOf(next))
      ensures next != root && !next.red ==> Span(next.parent) > old(Span(temp.parent))
    {
      SiblingIsReal(temp, side);
      if temp == temp.parent.left {
        next := DeleteStepLeft(temp);
      } else {
        next := DeleteStepRight(temp);
      }
    }

    method DeleteFixup(temp0: Node, ghost side0: Side)
      requires DoubleBlack(temp0, side0)
      modifies `root, order`left, order`right, order`parent, order`lo, order`hi, order`red, order`bh
      ensures Valid()
    {
      var temp := temp0;
      ghost var side := side0;
      SiblingIsReal(temp, side);
      SpanGrows(temp.parent);
      while temp != root && !temp.red
        invariant if temp == root then Valid() && temp in order else DoubleBlack(temp, side)
        invariant temp != root ==> temp.parent in order && (temp.red ==> side == SideOf(temp))
        invariant temp != root ==> Span(temp.parent) <= |order| + 1
        decreases if temp == root || temp.red then 0 else |order| + 2 - Span(temp.parent)
      {
        temp := DeleteStep(temp, side);
        if temp != root {
          side := SideOf(temp);
          SpanGrows(temp.parent);
        }
      }
      BlackenTemp(temp);
    }

    /** Replace node by its only child. */
    method UnlinkShape(node: Node, temp: Node)
      requires Linked() && node in order && temp == OnlyChild(node)
      requires node.left == sentinel || node.right == sentinel
      modifies `root, `order, order`left, order`right, order`parent, order`lo, order`pos, order`hi, sentinel`parent
      ensures Linked() && order == Without(old(order), old(node.pos)) && node !in order
      ensures forall n :: n in order <==> n in old(order) && n != node
      ensures SplicedOut(old(order), node)
      ensures old(node != root) ==> temp.parent == old(node.parent)
    {
      assert Shape(node);
      if node != root {
        assert Shape(node.parent);
      }
      if temp != sentinel {
        assert Shape(temp);
      }
      if node.left == sentinel {
        NoLeftNoHi(node.pos);
      }
      if node.right == sentinel {
        NoRightNoLo(node.pos);
      }
      SpliceFields(node, temp);
      SplicedIn(node);
      SplicedShape(node);
    }

    /** Replace a node that is not the root by its only child. */
    method Unlink(node: Node, temp: Node) returns (ghost side: Side)
      requires Valid() && node in order && node != root && temp == OnlyChild(node)
      requires node.left == sentinel || node.right == sentinel
      modifies `root, `order, order`left, order`right, order`parent, order`lo, order`pos, order`hi, sentinel`parent
      ensures forall n :: n in order ==> n in old(order)
      ensures Linked() && order == Without(old(order), old(node.pos)) && node !in order
      ensures if old(node.red) then Valid() else DoubleBlack(temp, side)
    {
      assert Shape(node) && Shape(root);
      side := SideOf(node);
      UnlinkShape(node, temp);
      if node.red {
        SplicedRed(node);
      } else {
        SplicedBlack(node);
      }
    }

    twostate lemma RootSpliced(node: Node)
      requires old(Valid()) && node in old(order) && SplicedOut(old(order), node) && old(node == root) && !sentinel.red
      requires forall n {:trigger n.red} :: n in old(order) ==> n.red == old(n.red)
      requires forall n {:trigger n.bh} :: n in old(order) ==> n.bh == old(n.bh)
      ensures Coloured(null)
    {
      SplicedIn(node);
      forall n | n in order ensures Colour(n, null) {
        assert old(KidsOf(n); Kids(n)) && old(Colour(n, null));
      }
    }

    twostate lemma RootPainted()
      requires old(Linked() && Coloured(null)) && LinksKept() && root in order && !sentinel.red
      requires forall n {:trigger n.red} :: n in order ==> n.red == if n == root then false else old(n.red)
      requires forall n {:trigger n.bh} :: n in order ==> n.bh == if n == root && old(n.red) then old(n.bh) + 1 else old(n.bh)
      ensures Coloured(null)
    {
      forall n | n in order ensures Colour(n, null) {
        assert old(KidsOf(n); Kids(n)) && old(Colour(n, null));
      }
    }

    /** The node to unlink is the root, with at most one child, which becomes the black root. */
    method DeleteRoot(node: Node, temp: Node)
      requires Valid() && node in order && node == root && temp == OnlyChild(node)
      requires node.left == sentinel || node.right == sentinel
      modifies `root, `order, order`left, order`right, order`parent, order`lo, order`pos, order`hi, order`red, order`bh
      modifies sentinel`parent, sentinel`red
      ensures forall n :: n in order ==> n in old(order)
      ensures Valid() && order == Without(old(order), old(node.pos)) && node !in order
    {
      UnlinkShape(node, temp);
      RootSpliced(node);
      PaintRoot();
    }

    method PaintRoot()
      requires Linked() && Coloured(null)
      modifies order`red, order`bh, sentinel`red
      ensures Valid()
    {
      if root != sentinel && root.red {
        root.bh := root.bh + 1;
      }
      root.red := false;
      if root != sentinel {
        RootPainted();
      }
    }

    lemma SuccessorIsMin(node: Node, subst: Node)
      requires Linked() && node in order && node.left != sentinel && node.right in order && node.right != sentinel
      requires subst in order && subst.left == sentinel && subst.lo == node.right.lo
      ensures HasSuccessor(node) && subst == order[node.pos + 1] && subst != node && subst != root
      ensures subst.right != null && subst.right != node
    {
      assert Shape(node) && Shape(subst);
      NoLeftNoHi(subst.pos);
      SuccessorApart(node);
    }

    method MoveUpShape(node: Node, subst: Node, temp: Node)
      requires HasSuccessor(node) && subst == order[node.pos + 1] && temp == subst.right
      modifies `root, `order, order`left, order`right, order`parent, order`red, order`bh, order`lo, order`pos, order`hi, sentinel`parent
      ensures Linked() && order == Without(old(order), old(node.pos)) && node !in order
      ensures forall n :: n in order <==> n in old(order) && n != node
      ensures MovedUp(old(order), node)
      ensures temp.parent == old(GapParent(node)) && temp.parent in order && temp != root && root in order
      ensures old(root.red) == root.red
      ensures temp == (if old(subst.parent) == node then temp.parent.right else temp.parent.left)
      ensures MovedColours(old(order), node)
    {
      SuccessorApart(node);
      SuccessorDetachable(node);
      MoveUpFields(node, subst, temp);
      MovedIn(node);
      MovedShape(node);
    }

    method MoveUpRed(node: Node, subst: Node, temp: Node)
      requires Valid() && HasSuccessor(node) && subst == order[node.pos + 1] && temp == subst.right && subst.red
      modifies `root, `order, order`left, order`right, order`parent, order`red, order`bh, order`lo, order`pos, order`hi, sentinel`parent
      ensures forall n :: n in order ==> n in old(order)
      ensures Linked() && order == Without(old(order), old(node.pos)) && node !in order
      ensures Valid()
    {
      MoveUpShape(node, subst, temp);
      MovedRed(node);
    }

    method MoveUpBlack(node: Node, subst: Node, temp: Node) returns (ghost side: Side)
      requires Valid() && HasSuccessor(node) && subst == order[node.pos + 1] && temp == subst.right && !subst.red
      modifies `root, `order, order`left, order`right, order`parent, order`red, order`bh, order`lo, order`pos, order`hi, sentinel`parent
      ensures forall n :: n in order ==> n in old(order)
      ensures Linked() && order == Without(old(order), old(node.pos)) && node !in order
      ensures DoubleBlack(temp, side)
    {
      side := GapSide(node);
      MoveUpShape(node, subst, temp);
      MovedBlack(node);
    }

    /** Replace node, which has two children, by its successor. */
    method MoveUp(node: Node, subst: Node, temp: Node) returns (ghost side: Side)
      requires Valid() && HasSuccessor(node) && subst == order[node.pos + 1] && temp == subst.right
      modifies `root, `order, order`left, order`right, order`parent, order`red, order`bh, order`lo, order`pos, order`hi, sentinel`parent
      ensures forall n :: n in order ==> n in old(order)
      ensures Linked() && order == Without(old(order), old(node.pos)) && node !in order
      ensures if old(subst.red) then Valid() else DoubleBlack(temp, side)
    {
      if subst.red {
        MoveUpRed(node, subst, temp);
        side := OnLeft;
      } else {
        side := MoveUpBlack(node, subst, temp);
      }
    }

    /** What Delete may unlink: node itself, with at most one child, or the successor of node. */
    ghost predicate Replaceable(node: Node, subst: Node, temp: Node)
      reads `order, `root, order`left, order`right, order`parent, order`lo, order`pos, order`hi
    {
      && node in order && In(node)
      && (if subst == node then temp == OnlyChild(node) && (node.left == sentinel || node.right == sentinel)
          else HasSuccessor(node) && subst == order[node.pos + 1] && subst in order && temp == subst.right && subst != root)
      && temp != node
    }

    method Choose(node: Node) returns (subst: Node, temp: Node)
      requires Linked() && node in order
      ensures Replaceable(node, subst, temp)
    {
      assert Shape(node);
      if node.left == sentinel {
        temp := node.right;
        subst := node;
      } else if node.right == sentinel {
        temp := node.left;
        subst := node;
      } else {
        subst := Min(node.right);
        SuccessorIsMin(node, subst);
        // Min stops at a node without a left child, so the source's other choice is never taken.
        temp := subst.right;
      }
    }

    method Replace(node: Node, subst: Node, temp: Node) returns (ghost side: Side)
      requires Valid() && Replaceable(node, subst, temp) && subst != root
      modifies `root, `order, order`left, order`right, order`parent, order`red, order`bh, order`lo, order`pos, order`hi, sentinel`parent
      ensures forall n :: n in order ==> n in old(order)
      ensures Linked() && order == Without(old(order), old(node.pos)) && node !in order
      ensures if old(subst.red) then Valid() else DoubleBlack(temp, side)
    {
      if subst == node {
        side := Unlink(node, temp);
      } else {
        side := MoveUp(node, subst, temp);
      }
    }

    method Repair(node: Node, temp: Node, ghost side: Side)
      requires node !in order && node != sentinel && temp != node && DoubleBlack(temp, side)
      modifies `root, order`left, order`right, order`parent, order`lo, order`hi, order`red, order`bh
      modifies node`left, node`right, node`parent, node`key
      ensures Valid()
      ensures node.left == null && node.right == null && node.parent == null && node.key == 0
    {
      ForgetShort(node, temp, side);
      DeleteFixup(temp, side);
    }

    /** The rest of a deletion when the unlinked node is not the root. */
    method DeleteBelowRoot(node: Node, subst: Node, temp: Node)
      requires Valid() && Replaceable(node, subst, temp) && subst != root
      modifies `root, `order, order`left, order`right, order`parent, order`lo, order`pos, order`hi, order`red, order`bh
      modifies node`key, sentinel`parent
      ensures Valid()
      ensures order == Without(old(order), old(node.pos))
      ensures node !in order && node.left == null && node.right == null && node.parent == null && node.key == 0
    {
      var red := subst.red;
      ghost var side := Replace(node, subst, temp);
      if red {
        Forget(node);
      } else {
        Repair(node, temp, side);
      }
    }

    method Delete(node: Node)
      requires Valid() && node in order
      modifies `root, `order, order`left, order`right, order`parent, order`lo, order`pos, order`hi, order`red, order`bh
      modifies node`key, sentinel`parent, sentinel`red
      ensures Valid()
      ensures old(In(node)) && order == Without(old(order), old(node.pos))
      ensures node !in order && node.left == null && node.right == null && node.parent == null && node.key == 0
    {
      var subst, temp := Choose(node);
      if subst == root {
        DeleteRoot(node, temp);
        Forget(node);
      } else {
        DeleteBelowRoot(node, subst, temp);
      }
    }

    /** The debugging stores that end a deletion do not touch the tree. */
    method Forget(node: Node)
      requires node !in order && node != sentinel && Valid()
      modifies node`left, node`right, node`parent, node`key
      ensures Valid()
      ensures node.left == null && node.right == null && node.parent == null && node.key == 0
    {
      node.left := null;
      node.right := null;
      node.parent := null;
      node.key := 0;
    }

    method ForgetShort(node: Node, temp: Node, ghost side: Side)
      requires node !in order && node != sentinel && temp != node && DoubleBlack(temp, side)
      modifies node`left, node`right, node`parent, node`key
      ensures DoubleBlack(temp, side)
      ensures node.left == null && node.right == null && node.parent == null && node.key == 0
    {
      node.left := null;
      node.right := null;
      node.parent := null;
      node.key := 0;
    }

    // ---------------------------------------------------------------- what a valid tree is

    /** The in-order traversal that follows the pointers. */
    ghost function InOrder(n: Node): seq<Node>
      requires Linked() && (n == sentinel || n in order)
      reads `order, `root, order`left, order`right, order`parent, order`lo, order`pos, order`hi
      decreases if n == sentinel then 0 else Span(n)
    {
      if n == sentinel then []
      else
        assert Shape(n);
        assert n.left != sentinel ==> Shape(n.left);
        assert n.right != sentinel ==> Shape(n.right);
        InOrder(n.left) + [n] + InOrder(n.right)
    }

    static lemma SliceAround(s: seq<Node>, a: int, p: int, b: int, l: seq<Node>, r: seq<Node>)
      requires 0 <= a <= p < b <= |s| && l == s[a..p] && r == s[p + 1..b]
      ensures l + [s[p]] + r == s[a..b]
    {
    }

    lemma InOrderUnfolds(n: Node)
      requires Linked() && n in order
      ensures Shape(n) && (n.left != sentinel ==> Shape(n.left)) && (n.right != sentinel ==> Shape(n.right))
      ensures InOrder(n) == InOrder(n.left) + [n] + InOrder(n.right)
    {}

    lemma {:induction false} InOrderIsSlice(n: Node)
      requires Linked() && n in order
      ensures Shape(n) && InOrder(n) == order[n.lo + 1..n.hi]
      decreases Span(n)
    {
      InOrderUnfolds(n);
      if n.left != sentinel {
        InOrderIsSlice(n.left);
      } else {
        assert order[n.lo + 1..n.pos] == [];
      }
      if n.right != sentinel {
        InOrderIsSlice(n.right);
      } else {
        assert order[n.pos + 1..n.hi] == [];
      }
      SliceAround(order, n.lo + 1, n.pos, n.hi, InOrder(n.left), InOrder(n.right));
    }

    /** The ghost sequence is the traversal of the real links from the real root. */
    lemma InOrderIsOrder()
      requires Linked()
      ensures InOrder(root) == order
    {
      if order != [] {
        InOrderIsSlice(root);
      }
    }

    ghost function Height(n: Node): nat
      requires Linked() && (n == sentinel || n in order)
      reads `order, `root, order`left, order`right, order`parent, order`lo, order`pos, order`hi
      decreases if n == sentinel then 0 else Span(n)
    {
      if n == sentinel then 0
      else
        assert Shape(n);
        assert n.left != sentinel ==> Shape(n.left);
        assert n.right != sentinel ==> Shape(n.right);
        1 + (if Height(n.left) > Height(n.right) then Height(n.left) else Height(n.right))
    }

    lemma {:induction false} HeightByBlackHeight(n: Node)
      requires Linked() && Coloured(null) && n in order
      ensures Height(n) <= 2 * n.bh + (if n.red then 1 else 0)
      decreases Span(n)
    {
      assert Shape(n) && Colour(n, null);
      if n.left != sentinel {
        assert Shape(n.left) && Colour(n.left, null);
        HeightByBlackHeight(n.left);
      }
      if n.right != sentinel {
        assert Shape(n.right) && Colour(n.right, null);
        HeightByBlackHeight(n.right);
      }
    }

    lemma {:induction false} SizeByBlackHeight(n: Node)
      requires Linked() && Coloured(null) && n in order
      ensures Pow2(n.bh) <= Span(n)
      decreases Span(n)
    {
      assert Shape(n) && Colour(n, null);
      if n.left != sentinel {
        assert Shape(n.left);
        SizeByBlackHeight(n.left);
      }
      if n.right != sentinel {
        assert Shape(n.right);
        SizeByBlackHeight(n.right);
      }
    }

    /** The height of a valid tree is at most 2 * log2(size + 1). */
    lemma HeightIsLogarithmic()
      requires Valid()
      ensures Pow2(Height(root)) <= (|order| + 1) * (|order| + 1)
    {
      if order != [] {
        assert Shape(root);
        HeightByBlackHeight(root);
        SizeByBlackHeight(root);
        Pow2Monotone(Height(root), 2 * root.bh);
        Pow2Adds(root.bh, root.bh);
        SquareMonotone(Pow2(root.bh), |order| + 1);
      }
    }

    // ---------------------------------------------------------------- plain keys

    static ghost predicate SortedKeys(s: seq<Node>)
      reads s`key
    {
      forall i, j :: 0 <= i < j < |s| ==> s[i].key <= s[j].key
    }

    static lemma InsertionSorted(s: seq<Node>, node: Node, k: int, t: seq<Node>)
      requires SortedKeys(s) && 0 <= k <= |s| && t == s[..k] + [node] + s[k..]
      requires k > 0 ==> s[k - 1].key <= node.key
      requires k < |s| ==> node.key < s[k].key
      ensures SortedKeys(t)
      ensures forall i :: 0 <= i < k ==> s[i].key <= node.key
      ensures forall i :: k <= i < |s| ==> node.key < s[i].key
    {}

    /** With plain keys the new node lands after every key not greater than its own, and the tree stays sorted. */
    method InsertSorted(node: Node) returns (ghost k: int)
      requires !timer && Valid() && SortedKeys(order) && node !in order && node != sentinel
      modifies `root, `order, order`left, order`right, order`parent, order`lo, order`pos, order`hi, order`red, order`bh
      modifies node`parent, node`left, node`right, node`red, node`lo, node`pos, node`hi, node`bh
      ensures Valid() && SortedKeys(order) && 0 <= k <= |old(order)|
      ensures order == old(order)[..k] + [node] + old(order)[k..]
      ensures forall i :: 0 <= i < k ==> old(order)[i].key <= node.key
      ensures forall i :: k <= i < |old(order)| ==> node.key < old(order)[i].key
    {
      ghost var s := order;
      k := Insert(node);
      InsertionSorted(s, node, k, order);
    }
  }

  lemma SquareMonotone(a: nat, b: nat)
    requires a <= b
    ensures a * a <= b * b
  {}

  datatype Side = OnLeft | OnRight

  const WORD: int := 0x1_0000_0000_0000_0000

  /** The signed difference a - b of two machine words is negative. */
  predicate Before(a: int, b: int)
  {
    (a - b) % 0x1_0000_0000_0000_0000 >= 0x8000_0000_0000_0000
  }
}
