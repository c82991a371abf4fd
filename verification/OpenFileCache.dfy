/** The open file cache of src/core/ngx_open_file_cache.c, without vnode events. */
module OpenFileCache {

  type Name = string

  /** NGX_INVALID_FILE */
  const INVALID: int := -1

  class Entry {
    const name: Name
    var created: int
    var accessed: int
    var fd: int
    var uniq: int
    var err: int
    var uses: nat
    var count: nat
    var close: bool
    var isDir: bool
    /** The handles given out on this entry and not yet released. */
    ghost var holders: set<Handle>

    constructor (name: Name)
      ensures this.name == name && fd == INVALID && count == 0 && !close && holders == {} && err == 0 && !isDir && uses == 1
    {
      this.name, created, accessed, fd, uniq, err := name, 0, 0, INVALID, 0, 0;
      uses, count, close, isDir, holders := 1, 0, false, false, {};
    }
  }

  /** What a successful open leaves in the caller's pool: the entry to release and the descriptor in use. */
  class Handle {
    const file: Entry
    const fd: int
    const minUses: nat

    constructor (file: Entry, fd: int, minUses: nat)
      ensures this.file == file && this.fd == fd && this.minUses == minUses
    {
      this.file, this.fd, this.minUses := file, fd, minUses;
    }
  }

  /** What ngx_open_and_stat_file may find: see Possible below. */
  datatype Stat =
    | Failed(err: int)
    | Unchanged
    | Directory(uniq: int)
    | File(fd: int, uniq: int)

  /** The parts of ngx_open_file_info_t the cache looks at. */
  datatype Request = Request(uniq: int, errors: bool, minUses: nat, valid: int)

  /** What of->fd, of->err, of->uniq and of->is_dir say after ngx_open_and_stat_file. */
  datatype Found = Found(fd: int, err: int, uniq: int, isDir: bool)

  function Finding(answer: Stat, fd: int, uniq: int): Found {
    match answer
    case Failed(err) => Found(INVALID, err, uniq, false)
    case Unchanged => Found(fd, 0, uniq, false)
    case Directory(u) => Found(INVALID, 0, u, true)
    case File(f, u) => Found(f, 0, u, false)
  }

  /** rc != NGX_OK && (of->err == 0 || !of->errors): not even the error is worth caching. */
  predicate Hopeless(answer: Stat, of: Request) {
    answer.Failed? && (answer.err == 0 || !of.errors)
  }

  datatype Reply = Error | IsDirectory | Opened(handle: Handle)

  // Lookup under its own names, so that the quantifiers below are used only where they are asked for.
  ghost function Spot(queue: seq<Entry>, i: int): Entry
    requires 0 <= i < |queue|
  {
    queue[i]
  }

  ghost predicate Named(n: Name, tree: map<Name, Entry>) { n in tree }

  /** Tree and queue hold the same entries, except that `out` is in the tree alone. */
  ghost predicate Listed(tree: map<Name, Entry>, queue: seq<Entry>, out: Entry?) {
    && |queue| == |tree| - (if out == null then 0 else 1)
    && (forall i, j {:trigger Spot(queue, i), Spot(queue, j)} :: 0 <= i < j < |queue| ==> Spot(queue, i) != Spot(queue, j))
    && (forall i {:trigger Spot(queue, i)} :: 0 <= i < |queue| ==>
        Spot(queue, i) != out && Spot(queue, i).name in tree && tree[Spot(queue, i).name] == Spot(queue, i))
    && (forall n {:trigger Named(n, tree)} :: Named(n, tree) ==> tree[n].name == n && (tree[n] == out || tree[n] in queue))
    && (out != null ==> out.name in tree && tree[out.name] == out)
  }

  lemma ListedFacts(tree: map<Name, Entry>, queue: seq<Entry>, out: Entry?)
    requires Listed(tree, queue, out)
    ensures forall i, j :: 0 <= i < j < |queue| ==> queue[i] != queue[j]
    ensures forall e :: e in queue ==> e != out && e.name in tree && tree[e.name] == e
    ensures forall n :: n in tree ==> tree[n].name == n && (tree[n] == out || tree[n] in queue)
  {
    assert forall i :: 0 <= i < |queue| ==> queue[i] == Spot(queue, i);
    forall e | e in queue ensures e != out && e.name in tree && tree[e.name] == e {
      var i :| 0 <= i < |queue| && Spot(queue, i) == e;
    }
    forall n | n in tree ensures tree[n].name == n && (tree[n] == out || tree[n] in queue) {
      assert Named(n, tree);
    }
  }

  lemma ListedWithout(tree: map<Name, Entry>, queue: seq<Entry>, k: int)
    requires Listed(tree, queue, null) && 0 <= k < |queue|
    ensures Listed(tree, queue[..k] + queue[k + 1..], queue[k])
  {
    ListedFacts(tree, queue, null);
    var r := queue[..k] + queue[k + 1..];
    assert forall i :: 0 <= i < |r| ==> r[i] == queue[if i < k then i else i + 1];
    WithoutOne(queue, k);
  }

  lemma ListedFirst(tree: map<Name, Entry>, queue: seq<Entry>, e: Entry)
    requires Listed(tree, queue, e)
    ensures Listed(tree, [e] + queue, null)
  {
    ListedFacts(tree, queue, e);
    assert ([e] + queue)[0] == e;
    assert forall x :: x in queue ==> x in [e] + queue;
  }

  lemma ListedDropped(tree: map<Name, Entry>, queue: seq<Entry>, e: Entry)
    requires Listed(tree, queue, e)
    ensures Listed(tree - {e.name}, queue, null)
    ensures forall x: Entry :: x != e ==> (x.name in tree - {e.name} && (tree - {e.name})[x.name] == x <==> x.name in tree && tree[x.name] == x)
  {
    ListedFacts(tree, queue, e);
    var t := tree - {e.name};
    assert t.Keys == tree.Keys - {e.name};
    assert |t| == |t.Keys| && |tree| == |tree.Keys|;
  }

  lemma ListedAdded(tree: map<Name, Entry>, queue: seq<Entry>, e: Entry)
    requires Listed(tree, queue, null) && e.name !in tree
    ensures Listed(tree[e.name := e], queue, e)
  {
    ListedFacts(tree, queue, null);
    var t := tree[e.name := e];
    assert t.Keys == tree.Keys + {e.name};
    assert |t| == |t.Keys| && |tree| == |tree.Keys|;
  }

  /** The queue is in order of the last access, the latest first. */
  ghost predicate Descending(queue: seq<Entry>, clock: int)
    reads queue`accessed
  {
    && (forall i, j :: 0 <= i < j < |queue| ==> queue[i].accessed >= queue[j].accessed)
    && (forall i :: 0 <= i < |queue| ==> queue[i].accessed <= clock)
  }

  lemma WithoutOne(queue: seq<Entry>, k: int)
    requires 0 <= k < |queue|
    ensures var rest := queue[..k] + queue[k + 1..]; forall x :: x in queue && x != queue[k] ==> x in rest
  {
    var rest := queue[..k] + queue[k + 1..];
    forall x | x in queue && x != queue[k] ensures x in rest {
      var i :| 0 <= i < |queue| && queue[i] == x;
      assert rest[if i < k then i else i - 1] == x;
    }
  }

  lemma DescendingWithout(queue: seq<Entry>, k: int, clock: int)
    requires Descending(queue, clock) && 0 <= k < |queue|
    ensures Descending(queue[..k] + queue[k + 1..], clock)
    ensures forall x :: x in queue[..k] + queue[k + 1..] ==> x in queue
  {}

  lemma DroppedAreInactive(queue: seq<Entry>, k: nat, now: int, inactive: int)
    requires k <= |queue| && forall i :: k <= i < |queue| ==> now - queue[i].accessed > inactive
    ensures var rest := queue[..k]; forall x :: x in queue && x !in rest ==> now - x.accessed > inactive
  {
    var rest := queue[..k];
    forall x | x in queue && x !in rest ensures now - x.accessed > inactive {
      var i :| 0 <= i < |queue| && queue[i] == x;
      assert i < k ==> rest[i] == x;
    }
  }

  /** t holds nothing but what t0 holds. */
  ghost predicate Submap(t: map<Name, Entry>, t0: map<Name, Entry>) {
    forall n {:trigger Named(n, t)} :: Named(n, t) ==> n in t0 && t[n] == t0[n]
  }

  lemma SubmapThen(t: map<Name, Entry>, t1: map<Name, Entry>, t0: map<Name, Entry>)
    requires Submap(t, t1) && Submap(t1, t0)
    ensures Submap(t, t0)
  {
    forall n | Named(n, t) ensures n in t0 && t[n] == t0[n] {
      assert Named(n, t1);
    }
  }

  lemma NotNamed(t: map<Name, Entry>, t0: map<Name, Entry>, n: Name)
    requires (t == t0 || Submap(t, t0)) && n !in t0
    ensures n !in t
  {
    if n in t {
      assert Named(n, t);
    }
  }

  lemma SubmapAdded(t: map<Name, Entry>, t0: map<Name, Entry>, n: Name, e: Entry)
    requires t == t0 || Submap(t, t0)
    ensures Submap(t[n := e], t0[n := e])
  {
    var u, u0 := t[n := e], t0[n := e];
    forall k | Named(k, u) ensures k in u0 && u[k] == u0[k] {
      assert k != n ==> Named(k, t);
    }
  }

  class Cache {
    const max: nat
    const inactive: int
    var current: nat
    var tree: map<Name, Entry>
    /** The expire queue, most recently used first. */
    var queue: seq<Entry>

    /** Entries not freed yet; handles not released yet; the open descriptors of the cache, by entry; the time. */
    ghost var alive: set<Entry>
    ghost var handles: set<Handle>
    ghost var owner: map<int, Entry>
    ghost var clock: int
    /** Descriptors that were overwritten while open, and that nothing will ever close. */
    ghost var lost: set<int>

    /** What holds of one entry: its handles are counted, and its descriptors are its own. */
    ghost predicate Sound(e: Entry)
      reads this`owner, this`handles, e`count, e`holders, e`fd, e`err, e`isDir
    {
      && e.count == |e.holders|
      && (e.fd != INVALID ==> e.fd in owner && owner[e.fd] == e)
      && (e.fd == INVALID ==> e.count == 0)
      && (e.err != 0 || e.isDir ==> e.fd == INVALID)
      && (forall h :: h in e.holders ==> h in handles && h.file == e && h.fd in owner && owner[h.fd] == e)
    }

    ghost predicate InTree(e: Entry)
      reads this`tree
    {
      e.name in tree && tree[e.name] == e
    }

    /** An entry is in the tree, or it is marked for closing and waits for its last handle. */
    ghost predicate Placed(e: Entry)
      reads this`tree, e`close, e`count
    {
      if InTree(e) then !e.close else e.close && e.count > 0
    }

    /** An open descriptor is the current one of an entry that is not freed, or lost. */
    ghost predicate Kept(fd: int)
      requires fd in owner
      reads this`alive, this`owner, this`lost, alive`fd
    {
      fd in lost || (owner[fd] in alive && owner[fd].fd == fd)
    }

    ghost predicate AllSound()
      reads this`alive, this`owner, this`handles, this`lost, alive`count, alive`holders, alive`fd, alive`err, alive`isDir
    {
      && INVALID !in owner
      && (forall fd {:trigger Kept(fd)} :: fd in owner ==> Kept(fd))
      && (forall e {:trigger Sound(e)} :: e in alive ==> Sound(e))
      && (forall h {:trigger h in handles} :: h in handles ==> h.file in alive && h in h.file.holders)
    }

    ghost predicate AllPlaced(loose: Entry?)
      reads this`alive, this`tree, alive`close, alive`count
    {
      && (forall n {:trigger Named(n, tree)} :: Named(n, tree) ==> tree[n] in alive)
      && (forall e {:trigger Placed(e)} :: e in alive && e != loose ==> Placed(e))
    }

    /** The state, with `out` off the queue and `loose` not yet where it belongs. */
    ghost predicate Wf(out: Entry?, loose: Entry?)
      reads this, queue`accessed, alive
    {
      && current == |tree| && Listed(tree, queue, out) && Descending(queue, clock)
      && AllSound() && AllPlaced(loose)
    }

    ghost predicate Valid()
      reads this, queue`accessed, alive
    {
      Wf(null, null) && current <= max && max >= 1
    }

    constructor (max: nat, inactive: int, now: int)
      requires max >= 1
      ensures Valid() && this.max == max && tree == map[] && handles == {} && clock == now && alive == {} && lost == {} && owner == map[]
    {
      this.max, this.inactive, current, tree, queue := max, inactive, 0, map[], [];
      alive, handles, owner, clock, lost := {}, {}, map[], now, {};
    }

    /** ngx_close_file: only an open descriptor that no handle uses may be closed. */
    method CloseFile(fd: int)
      requires fd in owner && forall h :: h in handles ==> h.fd != fd
      modifies this`owner
      ensures owner == old(owner) - {fd}
    {
      owner := owner - {fd};
    }

    /** ngx_queue_remove(&file->queue) */
    method Withdraw(e: Entry)
      requires Wf(null, null) && InTree(e)
      modifies this`queue
      ensures Wf(e, null) && |queue| == |old(queue)| - 1 && forall x :: x in old(queue) && x != e ==> x in queue
    {
      ListedFacts(tree, queue, null);
      var k :| 0 <= k < |queue| && queue[k] == e;
      ListedWithout(tree, queue, k);
      DescendingWithout(queue, k, clock);
      WithoutOne(queue, k);
      queue := queue[..k] + queue[k + 1..];
    }

    /** file->accessed = now, and the file goes to the head of the queue. */
    method Readmit(e: Entry, now: int)
      requires Wf(e, null) && clock <= now
      modifies this`queue, this`clock, e`accessed
      ensures Wf(null, null) && queue == [e] + old(queue) && e.accessed == now && clock == now
    {
      ListedFacts(tree, queue, e);
      ListedFirst(tree, queue, e);
      e.accessed := now;
      queue := [e] + queue;
      clock := now;
    }

    /** ngx_rbtree_delete and current--, for an entry off the queue. */
    method Unlink(e: Entry)
      requires Wf(e, null)
      modifies this`tree, this`current
      ensures Wf(null, e) && !InTree(e) && tree == old(tree) - {e.name} && current == old(current) - 1
    {
      ListedDropped(tree, queue, e);
      tree := tree - {e.name};
      current := current - 1;
      forall x | x in alive && x != e ensures Placed(x) {
        assert old(Placed(x)) && (InTree(x) <==> old(InTree(x)));
      }
      forall n | Named(n, tree) ensures tree[n] in alive {
        assert Named(n, old(tree));
      }
    }

    /** The end of ngx_close_cached_file, and of a failed open: without handles, close the descriptor. */
    method CloseUnused(e: Entry)
      requires e in alive && AllSound() && e.count == 0
      modifies this`owner, e`fd
      ensures AllSound() && e.fd == INVALID && owner == old(owner) - {old(e.fd)}
    {
      assert Sound(e);
      if e.fd != INVALID {
        assert forall h :: h in handles ==> Sound(h.file);
        assert forall h :: h in handles ==> h.file != e;
        CloseFile(e.fd);
        e.fd := INVALID;
        forall x | x in alive ensures Sound(x) {
          assert old(Sound(x));
        }
        forall fd | fd in owner ensures Kept(fd) {
          assert old(Kept(fd));
        }
      }
    }

    /** ngx_free(file) */
    method Free(e: Entry)
      requires Wf(null, e) && e in alive && e.count == 0 && e.fd == INVALID && !InTree(e)
      modifies this`alive
      ensures Wf(null, null) && alive == old(alive) - {e}
    {
      assert Sound(e);
      assert forall h :: h in handles ==> Sound(h.file);
      assert forall x :: x in alive ==> Sound(x);
      assert forall x :: x in alive && x != e ==> Placed(x);
      forall n | n in tree ensures tree[n] in alive && tree[n] != e {
        assert Named(n, tree);
      }
      alive := alive - {e};
      forall fd | fd in owner ensures Kept(fd) {
        assert old(Kept(fd));
      }
    }

    /** ngx_close_cached_file for an entry that is marked: with no handle left, it goes. */
    method Bury(e: Entry)
      requires Wf(null, e) && e in alive && e.close && !InTree(e)
      modifies this`owner, this`alive, e`fd
      ensures Wf(null, null)
      ensures alive == if old(e.count) == 0 then old(alive) - {e} else old(alive)
      ensures owner == if old(e.count) == 0 then old(owner) - {old(e.fd)} else old(owner)
      ensures e.fd == if old(e.count) == 0 then INVALID else old(e.fd)
    {
      if e.count > 0 {
        assert Placed(e);
        return;
      }
      CloseUnused(e);
      Free(e);
    }

    method Touch(e: Entry, now: int)
      requires Wf(null, null) && InTree(e) && clock <= now
      modifies this`queue, this`clock, e`accessed
      ensures Wf(null, null) && clock == now && |queue| > 0 && queue[0] == e && e.accessed == now
      ensures |queue| == |old(queue)| && forall x :: x in old(queue) ==> x in queue
    {
      Withdraw(e);
      Readmit(e, now);
    }

    /** ngx_close_cached_file for an entry in the tree: used too seldom, it stays without its descriptor. */
    method Retire(e: Entry, minUses: nat, now: int)
      requires Wf(null, null) && e in alive && InTree(e) && clock <= now
      modifies this`queue, this`clock, this`owner, e`accessed, e`fd
      ensures Wf(null, null) && clock == now && |queue| > 0 && queue[0] == e && e.accessed == now
      ensures |queue| == |old(queue)| && forall x :: x in old(queue) ==> x in queue
      ensures owner == if old(e.count) == 0 && e.uses < minUses then old(owner) - {old(e.fd)} else old(owner)
      ensures e.fd == if old(e.count) == 0 && e.uses < minUses then -1 else old(e.fd)
    {
      Touch(e, now);
      if e.uses >= minUses || e.count > 0 {
        return;
      }
      CloseUnused(e);
    }

    /** An entry that has expired: a file is marked and closed, a directory or an error is freed. */
    method Dispose(e: Entry)
      requires Wf(null, e) && e in alive && !InTree(e)
      modifies this`owner, this`alive, e`close, e`fd
      ensures Wf(null, null) && alive <= old(alive) && owner.Keys <= old(owner.Keys)
    {
      assert Sound(e);
      if e.err == 0 && !e.isDir {
        e.close := true;
        Bury(e);
      } else {
        Free(e);
      }
    }

    method WithdrawLast() returns (e: Entry)
      requires Wf(null, null) && |queue| > 0
      modifies this`queue
      ensures Wf(e, null) && e == old(queue)[|old(queue)| - 1] && queue == old(queue)[..|old(queue)| - 1] && e in alive && !e.close
    {
      var k := |queue| - 1;
      e := queue[k];
      assert e == Spot(queue, k) && queue[..k] + queue[k + 1..] == queue[..k];
      assert Named(e.name, tree) && Placed(e);
      ListedWithout(tree, queue, k);
      DescendingWithout(queue, k, clock);
      queue := queue[..k];
    }

    /** One turn of ngx_expire_old_cached_files: the least recently used entry leaves the cache. */
    method DropLast()
      requires Wf(null, null) && |queue| > 0
      modifies this`queue, this`tree, this`current, this`owner, this`alive, alive`close, alive`fd
      ensures Wf(null, null) && current == old(current) - 1
      ensures queue == old(queue)[..|old(queue)| - 1]
      ensures alive <= old(alive) && owner.Keys <= old(owner.Keys) && Submap(tree, old(tree))
      ensures queue != [] ==> queue[0].fd == old(queue[0].fd)
    {
      var e := WithdrawLast();
      assert queue != [] ==> Spot(queue, 0) != e;
      Unlink(e);
      Dispose(e);
    }

    /** ngx_expire_old_cached_files: with n == 0 the first to go is forced out. */
    method Expire(n: nat, now: int) returns (ghost gone: nat)
      requires Wf(null, null) && n <= 1
      modifies this`queue, this`tree, this`current, this`owner, this`alive, alive`close, alive`fd
      ensures Wf(null, null)
      ensures alive <= old(alive) && owner.Keys <= old(owner.Keys) && Submap(tree, old(tree))
      ensures gone <= 3 - n && gone <= |old(queue)| && queue == old(queue)[..|old(queue)| - gone]
      ensures current == old(current) - gone
      ensures n == 0 && |old(queue)| > 0 ==> gone >= 1
      ensures forall i :: |queue| <= i < |old(queue)| - (1 - n) ==> now - old(queue)[i].accessed > inactive
      ensures gone < 3 - n && queue != [] ==> now - queue[|queue| - 1].accessed <= inactive
      ensures queue != [] ==> queue[0].fd == old(queue[0].fd)
    {
      var k := n;
      ghost var q := queue;
      gone := 0;
      while k < 3
        invariant n <= k <= 3 && gone == k - n
        invariant Wf(null, null)
        invariant alive <= old(alive) && owner.Keys <= old(owner.Keys) && Submap(tree, old(tree))
        invariant gone <= |q| && queue == q[..|q| - gone] && current == old(current) - gone
        invariant forall i :: |q| - gone <= i < |q| - (1 - n) ==> now - q[i].accessed > inactive
        invariant queue != [] ==> queue[0].fd == old(queue[0].fd)
      {
        if queue == [] {
          return;
        }
        assert queue[|queue| - 1] == q[|queue| - 1];
        k := k + 1;
        if k - 1 != 0 && now - queue[|queue| - 1].accessed <= inactive {
          return;
        }
        ghost var before := tree;
        DropLast();
        SubmapThen(tree, before, old(tree));
        gone := gone + 1;
      }
    }

    method Uncount(e: Entry, h: Handle)
      requires AllSound() && e in alive && h in handles && h.file == e
      modifies this`handles, e`count, e`holders
      ensures AllSound() && handles == old(handles) - {h} && e.count == old(e.count) - 1
    {
      assert Sound(e);
      e.count := e.count - 1;
      e.holders := e.holders - {h};
      handles := handles - {h};
      forall x | x in alive ensures Sound(x) {
        assert old(Sound(x));
      }
      forall fd | fd in owner ensures Kept(fd) {
        assert old(Kept(fd));
      }
    }

    /** c->file->count--, and the handle is gone. */
    method LetGo(h: Handle)
      requires Wf(null, null) && h in handles
      modifies this`handles, h.file`count, h.file`holders
      ensures Wf(null, if InTree(h.file) then null else h.file)
      ensures handles == old(handles) - {h} && h.file.count == old(h.file.count) - 1
      ensures h.file in alive && (h.file.close <==> !InTree(h.file))
    {
      var e := h.file;
      assert Placed(e);
      Uncount(e, h);
      forall x | x in alive && x != e ensures Placed(x) {
        assert old(Placed(x));
      }
    }

    /** One handle less, and what ngx_close_cached_file makes of that. */
    method GiveUp(h: Handle, now: int)
      requires Valid() && h in handles && clock <= now
      modifies this`handles, this`queue, this`clock, this`owner, this`alive
      modifies h.file`count, h.file`holders, h.file`accessed, h.file`fd
      ensures Valid() && clock <= now && handles == old(handles) - {h} && h.file.count == old(h.file.count) - 1
      ensures alive == if old(h.file.close && h.file.count == 1) then old(alive) - {h.file} else old(alive)
      ensures owner == if old(h.file.count == 1 && (h.file.close || h.file.uses < h.minUses)) then old(owner) - {old(h.file.fd)} else old(owner)
      ensures h.file.fd == if old(h.file.count == 1 && (h.file.close || h.file.uses < h.minUses)) then -1 else old(h.file.fd)
      ensures if h.file.close then queue == old(queue) else |queue| > 0 && queue[0] == h.file && h.file.accessed == now
      ensures |queue| == |old(queue)| && forall x :: x in old(queue) ==> x in queue
    {
      LetGo(h);
      if h.file.close {
        Bury(h.file);
      } else {
        Retire(h.file, h.minUses, now);
      }
    }

    /** Inactive entries leave from the tail, two at most. */
    method Sweep(now: int)
      requires Valid()
      modifies this`queue, this`tree, this`current, this`owner, this`alive, alive`close, alive`fd
      ensures Valid() && alive <= old(alive) && owner.Keys <= old(owner.Keys) && Submap(tree, old(tree))
      ensures |old(queue)| - 2 <= |queue| <= |old(queue)| && queue == old(queue)[..|queue|]
      ensures forall x :: x in old(queue) && x !in queue ==> now - x.accessed > inactive
      ensures queue != [] && now - queue[|queue| - 1].accessed > inactive ==> |queue| == |old(queue)| - 2
      ensures old(queue) != [] && now - old(queue)[0].accessed <= inactive ==>
        queue != [] && InTree(queue[0]) && queue[0].fd == old(queue[0].fd)
    {
      ghost var q := queue;
      ghost var gone := Expire(1, now);
      DroppedAreInactive(q, |queue|, now, inactive);
      if queue != [] {
        assert Spot(queue, 0) == queue[0] == q[0];
      }
    }

    /**
     * ngx_open_file_cleanup: the last handle of a marked entry frees it; the last one of a file used too seldom
     * closes its descriptor; a file in the tree comes first in the queue. Then inactive entries leave from the
     * tail, as long as there are any, but two at most.
     */
    method Release(h: Handle, now: int)
      requires Valid() && h in handles && clock <= now
      modifies this`handles, this`queue, this`clock, this`tree, this`current, this`owner, this`alive
      modifies alive`count, alive`holders, alive`accessed, alive`fd, alive`close
      ensures Valid() && clock <= now && handles == old(handles) - {h} && alive <= old(alive)
      ensures Submap(tree, old(tree)) && owner.Keys <= old(owner.Keys) && lost == old(lost)
      ensures old(h.file.close && h.file.count == 1) ==> h.file !in alive
      ensures old(h.file.count == 1 && (h.file.close || h.file.uses < h.minUses)) ==> old(h.file.fd) !in owner
      ensures old(!h.file.close) && queue != [] ==> queue[0] == h.file
      ensures |old(queue)| - 2 <= |queue| <= |old(queue)|
      ensures forall x :: x in old(queue) && x !in queue ==> now - x.accessed > inactive
      ensures queue != [] && now - queue[|queue| - 1].accessed > inactive ==> |queue| == |old(queue)| - 2
      ensures inactive >= 0 && old(!h.file.close) ==>
        && InTree(h.file) && h.file.accessed == now && h.file.uses == old(h.file.uses) && h.file.count == old(h.file.count) - 1
        && h.file.fd == if old(h.file.count) == 1 && h.file.uses < h.minUses then -1 else old(h.file.fd)
    {
      GiveUp(h, now);
      Sweep(now);
    }

    /** A new entry in the tree, for a name that is not there. */
    method Create(name: Name) returns (e: Entry)
      requires Wf(null, null) && name !in tree
      modifies this`tree, this`current, this`alive
      ensures Wf(e, null) && fresh(e) && e.name == name && e in alive && InTree(e) && current == old(current) + 1
      ensures e.fd == INVALID && e.err == 0 && !e.isDir && e.count == 0 && e.uses == 1
      ensures alive == old(alive) + {e} && tree == old(tree)[name := e]
    {
      e := new Entry(name);
      ListedAdded(tree, queue, e);
      tree := tree[name := e];
      current := current + 1;
      alive := alive + {e};
      forall x | x in alive && x != e ensures Placed(x) {
        assert old(Placed(x));
      }
      forall fd | fd in owner ensures Kept(fd) {
        assert old(Kept(fd));
      }
      forall n | Named(n, tree) ensures tree[n] in alive {
        assert n != name ==> Named(n, old(tree));
      }
    }

    /** The entry's descriptor, error and kind are replaced. */
    method Replace(e: Entry, fd: int, err: int, uniq: int, isDir: bool, now: int)
      requires AllSound() && e in alive
      requires fd != INVALID ==> fd == e.fd || fd !in owner
      requires (err != 0 || isDir <==> fd == INVALID) && (fd == INVALID ==> e.count == 0)
      modifies this`owner, this`lost, e`fd, e`err, e`isDir, e`uniq, e`created
      ensures AllSound() && e.fd == fd && e.err == err && e.created == now && (err == 0 ==> e.isDir == isDir && e.uniq == uniq)
      ensures owner == if fd == INVALID then old(owner) else old(owner)[fd := e]
      ensures lost == if old(e.fd) in {INVALID, fd} then old(lost) else old(lost) + {old(e.fd)}
    {
      assert Sound(e);
      if e.fd != INVALID && e.fd != fd {
        lost := lost + {e.fd};
      }
      e.fd, e.err, e.created := fd, err, now;
      if err == 0 {
        e.isDir, e.uniq := isDir, uniq;
      }
      if fd != INVALID {
        owner := owner[fd := e];
      }
      forall x | x in alive ensures Sound(x) {
        assert old(Sound(x));
      }
      forall f | f in owner ensures Kept(f) {
        assert f != fd ==> old(Kept(f));
      }
    }

    /** The update label: the entry takes over what was found; its old descriptor is closed, the same or in use. */
    method Adopt(e: Entry, fd: int, err: int, uniq: int, isDir: bool, now: int)
      requires Wf(e, null) && e in alive
      requires fd != INVALID ==> fd == e.fd || fd !in owner
      requires (err != 0 || isDir <==> fd == INVALID) && (fd == INVALID ==> e.count == 0)
      modifies this`owner, this`lost, e`fd, e`err, e`uniq, e`isDir, e`close, e`created
      ensures Wf(e, null) && e.fd == fd && e.err == err && e.created == now && (err == 0 ==> e.isDir == isDir && e.uniq == uniq)
      ensures owner == if fd == INVALID then old(owner) else old(owner)[fd := e]
      ensures lost == if old(e.fd) in {INVALID, fd} then old(lost) else old(lost) + {old(e.fd)}
    {
      if err == 0 {
        KeepOpen(e);
      }
      Replace(e, fd, err, uniq, isDir, now);
    }

    /** file->close = 0, which an entry in the tree has anyway. */
    method KeepOpen(e: Entry)
      requires AllPlaced(null) && e in alive && InTree(e)
      modifies e`close
      ensures AllPlaced(null)
    {
      assert Placed(e);
      e.close := false;
      forall x | x in alive ensures Placed(x) {
        assert old(Placed(x));
      }
    }

    method Count(e: Entry, h: Handle)
      requires AllSound() && e in alive && e.fd != INVALID && h.file == e && h.fd == e.fd && h !in handles
      modifies this`handles, e`count, e`holders
      ensures AllSound() && handles == old(handles) + {h} && e.count == old(e.count) + 1
    {
      assert Sound(e);
      e.count := e.count + 1;
      e.holders := e.holders + {h};
      handles := handles + {h};
      forall x | x in alive ensures Sound(x) {
        assert old(Sound(x));
      }
      forall fd | fd in owner ensures Kept(fd) {
        assert old(Kept(fd));
      }
    }

    /** count++, and the handle for the caller's pool. */
    method Grant(e: Entry, minUses: nat) returns (h: Handle)
      requires Wf(null, null) && e in alive && e.fd != INVALID
      modifies this`handles, e`count, e`holders
      ensures Wf(null, null) && fresh(h) && h.file == e && h.fd == e.fd && h.minUses == minUses && handles == old(handles) + {h}
      ensures e.count == old(e.count) + 1
      ensures h.fd in owner && owner[h.fd] == e
    {
      assert Sound(e);
      h := new Handle(e, e.fd, minUses);
      Count(e, h);
      forall x | x in alive ensures Placed(x) {
        assert old(Placed(x));
      }

    }

    /** The failed label, for an entry off the queue. */
    method Discard(e: Entry)
      requires Wf(e, null) && e in alive
      modifies this`tree, this`current, this`owner, this`alive, e`fd, e`close
      ensures Wf(null, null) && current == old(current) - 1 && alive <= old(alive) && tree == old(tree) - {e.name}
    {
      Unlink(e);
      if e.count == 0 {
        CloseUnused(e);
        Free(e);
      } else {
        Mark(e);
      }
    }

    /** file->close = 1, for an entry with handles that has left the tree. */
    method Mark(e: Entry)
      requires Wf(null, e) && e in alive && !InTree(e) && e.count > 0
      modifies e`close
      ensures Wf(null, null)
    {
      e.close := true;
      forall x | x in alive ensures Placed(x) {
        assert x != e ==> old(Placed(x));
      }
    }

    /** What the file system may answer: a new descriptor is not one of the open ones. */
    ghost predicate Possible(answer: Stat, name: Name)
      reads this`tree, this`owner, if name in tree then {tree[name]} else {}
    {
      && (answer.File? ==> answer.fd != INVALID && answer.fd !in owner)
      && (answer.Unchanged? ==> name in tree && tree[name].fd != INVALID)
    }

    /** The file was changed and has changed back between two system calls: it has a new descriptor, but the old id. */
    ghost predicate ChangedBack(e: Entry, answer: Stat)
      reads e
    {
      e.fd != INVALID && answer.File? && answer.uniq == e.uniq
    }

    /** The entry holds what was found, just now. */
    ghost predicate Holds(e: Entry, f: Found, now: int)
      reads e
    {
      e.fd == f.fd && e.err == f.err && e.created == now && (f.err == 0 ==> e.isDir == f.isDir && e.uniq == f.uniq)
    }

    /** The retest of an entry: it takes over what was found, or leaves the tree to make room for a new one. */
    method Retest(e: Entry, answer: Stat, now: int) returns (kept: bool)
      requires Wf(e, null) && e in alive && InTree(e)
      requires Possible(answer, e.name)
      requires (answer.Failed? ==> answer.err != 0) && (e.fd != INVALID || e.err != 0 || e.isDir)
      modifies this`tree, this`current, this`owner, this`lost, e`fd, e`err, e`uniq, e`isDir, e`close, e`created
      ensures if kept then
          && Wf(e, null) && Holds(e, Finding(answer, old(e.fd), old(e.uniq)), now)
          && tree == old(tree) && current == old(current)
        else
          && Wf(null, null) && tree == old(tree) - {e.name} && current == old(current) - 1
          && Possible(answer, e.name) && !answer.Unchanged?
      ensures kept <==> old(e.count == 0 || answer.Unchanged? || (answer.File? && answer.uniq == e.uniq))
      ensures lost == if old(ChangedBack(e, answer)) then old(lost) + {old(e.fd)} else old(lost)
    {
      var f := Finding(answer, e.fd, e.uniq);
      assert Sound(e);
      kept := true;
      var known := e.isDir || e.err != 0;
      if known || (!f.isDir && f.err == 0 && f.uniq == e.uniq) {
        Adopt(e, f.fd, f.err, f.uniq, f.isDir, now);
        return;
      }
      if e.count == 0 {
        CloseUnused(e);
        Adopt(e, f.fd, f.err, f.uniq, f.isDir, now);
        return;
      }
      Unlink(e);
      Mark(e);
      kept := false;
    }

    /** An entry kept without its descriptor is opened again, any other is retested. */
    method Refresh(e: Entry, answer: Stat, now: int) returns (kept: bool)
      requires Wf(e, null) && e in alive && InTree(e) && Possible(answer, e.name) && (answer.Failed? ==> answer.err != 0)
      modifies this`tree, this`current, this`owner, this`lost, e`fd, e`err, e`uniq, e`isDir, e`close, e`created
      ensures if kept then
          && Wf(e, null) && Holds(e, Finding(answer, old(e.fd), old(e.uniq)), now)
          && tree == old(tree) && current == old(current)
        else
          && Wf(null, null) && tree == old(tree) - {e.name} && current == old(current) - 1
          && Possible(answer, e.name) && !answer.Unchanged?
      ensures kept <==> old(e.count == 0 || answer.Unchanged? || (answer.File? && answer.uniq == e.uniq))
      ensures lost == if old(ChangedBack(e, answer)) then old(lost) + {old(e.fd)} else old(lost)
    {
      if e.fd == INVALID && e.err == 0 && !e.isDir {
        var f := Finding(answer, e.fd, e.uniq);
        assert Sound(e);
        Adopt(e, f.fd, f.err, f.uniq, f.isDir, now);
        kept := true;
      } else {
        kept := Retest(e, answer, now);
      }
    }

    /** In a full cache the least recently used entry goes, and up to two more if they are inactive. */
    method MakeRoom(now: int)
      requires Valid()
      modifies this`queue, this`tree, this`current, this`owner, this`alive, alive`close, alive`fd
      ensures Valid() && current < max && alive <= old(alive) && owner.Keys <= old(owner.Keys)
      ensures if old(current) < max then tree == old(tree) && queue == old(queue) else Submap(tree, old(tree))
      ensures old(current) == max ==>
        && max - 3 <= |queue| < max && queue == old(queue)[..|queue|]
        && (forall i :: |queue| <= i < max - 1 ==> now - old(queue)[i].accessed > inactive)
    {
      if current >= max {
        ghost var gone := Expire(0, now);
      }
    }

    /** A new entry that takes over what was found. */
    method Install(name: Name, answer: Stat, now: int) returns (e: Entry)
      requires Wf(null, null) && name !in tree && Possible(answer, name) && (answer.Failed? ==> answer.err != 0)
      modifies this`tree, this`current, this`owner, this`lost, this`alive
      ensures Wf(e, null) && fresh(e) && e in alive && e.name == name && current == old(current) + 1
      ensures alive == old(alive) + {e} && tree == old(tree)[name := e] && lost == old(lost)
      ensures Holds(e, Finding(answer, INVALID, 0), now) && e.uses == 1 && e.count == 0
    {
      e := Create(name);
      var f := Finding(answer, INVALID, 0);
      Adopt(e, f.fd, f.err, f.uniq, f.isDir, now);
    }

    /** The create label: room is made for a new entry, which takes over what was found. */
    method Enter(name: Name, answer: Stat, now: int) returns (e: Entry)
      requires Valid() && name !in tree && Possible(answer, name) && (answer.Failed? ==> answer.err != 0)
      modifies this`queue, this`tree, this`current, this`owner, this`lost, this`alive, alive`close, alive`fd
      ensures Wf(e, null) && current <= max && e in alive && e.name == name && fresh(e)
      ensures alive <= old(alive) + {e} && lost == old(lost)
      ensures Holds(e, Finding(answer, INVALID, 0), now) && e.uses == 1 && e.count == 0
      ensures Submap(tree, old(tree)[name := e])
      ensures old(current) < max ==> tree == old(tree)[name := e] && queue == old(queue)
      ensures old(current) == max ==>
        && max - 3 <= |queue| < max && queue == old(queue)[..|queue|]
        && (forall i :: |queue| <= i < max - 1 ==> now - old(queue)[i].accessed > inactive)
    {
      MakeRoom(now);
      NotNamed(tree, old(tree), name);
      ghost var before := tree;
      e := Install(name, answer, now);
      SubmapAdded(before, old(tree), name, e);
    }

    /** The found label: the entry goes to the head of the queue, and the caller gets its handle. */
    method Present(e: Entry, minUses: nat, now: int) returns (r: Reply)
      requires Wf(e, null) && current <= max && max >= 1 && e in alive && clock <= now
      requires e.err == 0 && !e.isDir ==> e.fd != INVALID
      modifies this`queue, this`clock, this`handles, e`accessed, e`count, e`holders
      ensures Valid() && clock == now && |queue| > 0 && queue[0] == e && InTree(e)
      ensures handles == if r.Opened? then old(handles) + {r.handle} else old(handles)
      ensures r.Opened? <==> e.err == 0 && !e.isDir
      ensures r.Opened? ==> fresh(r.handle) && r.handle.file == e && r.handle.fd == e.fd && r.handle.minUses == minUses
      ensures r.IsDirectory? <==> e.err == 0 && e.isDir
      ensures e.count == old(e.count) + if r.Opened? then 1 else 0
    {
      Readmit(e, now);
      if e.err != 0 {
        return Error;
      }
      if e.isDir {
        return IsDirectory;
      }
      var h := Grant(e, minUses);
      return Opened(h);
    }

    /** The answer in the cache is recent enough to be given without asking the file system. */
    predicate Recent(e: Entry, of: Request, now: int)
      reads e
    {
      && (e.fd != INVALID || e.err != 0 || e.isDir)
      && (of.uniq == 0 || of.uniq == e.uniq) && now - e.created < of.valid
    }

    /** An entry that is not recent, and is off the queue: what the file system says is taken over. */
    method Revise(e: Entry, of: Request, answer: Stat, now: int) returns (out: Entry?)
      requires Wf(e, null) && current <= max && max >= 1 && e in alive && Possible(answer, e.name) && clock <= now
      modifies this`queue, this`tree, this`current, this`owner, this`lost, this`alive, alive
      ensures current <= max && fresh(alive - old(alive))
      ensures out == null <==> Hopeless(answer, of)
      ensures out == null ==> Wf(null, null) && tree == old(tree) - {e.name} && lost == old(lost)
      ensures out != null ==> Wf(out, null) && out in alive && out.name == e.name
      ensures out != null ==> out.fd == Finding(answer, old(e.fd), old(e.uniq)).fd && out.created == now
      ensures out != null ==> out.err == Finding(answer, old(e.fd), old(e.uniq)).err && (answer.File? ==> out.uniq == answer.uniq)
      ensures out != null && out.err == 0 ==> out.isDir == Finding(answer, old(e.fd), old(e.uniq)).isDir
      ensures out != null ==> tree == old(tree)[e.name := out]
      ensures out != null ==> (out == e <==> old(e.count == 0 || answer.Unchanged? || (answer.File? && answer.uniq == e.uniq)))
      ensures out != null ==> if out == e then e.uses == old(e.uses) && e.count == old(e.count) else fresh(out) && out.uses == 1 && out.count == 0
      ensures out != null ==> lost == if old(ChangedBack(e, answer)) then old(lost) + {old(e.fd)} else old(lost)
    {
      if Hopeless(answer, of) {
        Discard(e);
        return null;
      }
      var kept := Refresh(e, answer, now);
      if kept {
        assert tree == old(tree)[e.name := e];
        return e;
      }
      out := Enter(e.name, answer, now);
      assert old(tree)[e.name := out] == (old(tree) - {e.name})[e.name := out];
    }

    /**
     * The reply to an open of name, and the state after it: the entry of the name comes first in the
     * queue and has the given contents, the handle is its, and nothing else was added to the cache.
     */
    twostate predicate Answered(new r: Reply, new name: Name, new minUses: nat, new fd: int, new err: int, new isDir: bool)
      reads this, if name in tree then {tree[name]} else {}
    {
      && handles == (if r.Opened? then old(handles) + {r.handle} else old(handles))
      && (r.Opened? <==> err == 0 && !isDir) && (r.IsDirectory? <==> err == 0 && isDir)
      && name in tree && |queue| > 0 && queue[0] == tree[name]
      && tree[name].fd == fd && tree[name].err == err && (err == 0 ==> tree[name].isDir == isDir)
      && (r.Opened? ==> fresh(r.handle) && r.handle.file == tree[name] && r.handle.fd == fd && r.handle.minUses == minUses)
      && Submap(tree, old(tree)[name := tree[name]])
    }

    /** An open that finds an entry too old to answer by itself. */
    method OpenStale(e: Entry, of: Request, answer: Stat, now: int) returns (r: Reply)
      requires Wf(e, null) && current <= max && max >= 1 && e in alive && Possible(answer, e.name) && clock <= now
      modifies this`queue, this`tree, this`current, this`owner, this`lost, this`alive, this`handles, this`clock, alive
      ensures Valid() && clock <= now && fresh(alive - old(alive))
      ensures if Hopeless(answer, of) then
          && r == Error && handles == old(handles) && tree == old(tree) - {e.name} && lost == old(lost)
        else
          && Answered(r, e.name, of.minUses, Finding(answer, old(e.fd), 0).fd, Finding(answer, old(e.fd), 0).err, Finding(answer, old(e.fd), 0).isDir)
          && tree[e.name].created == now && (answer.File? ==> tree[e.name].uniq == answer.uniq) && tree == old(tree)[e.name := tree[e.name]]
          && (tree[e.name] == e <==> old(e.count == 0 || answer.Unchanged? || (answer.File? && answer.uniq == e.uniq)))
          && (if tree[e.name] == e then e.uses == old(e.uses) else fresh(tree[e.name]) && tree[e.name].uses == 1)
          && tree[e.name].count == (if tree[e.name] == e then old(e.count) else 0) + (if r.Opened? then 1 else 0)
          && lost == if old(ChangedBack(e, answer)) then old(lost) + {old(e.fd)} else old(lost)
    {
      var out := Revise(e, of, answer, now);
      if out == null {
        return Error;
      }
      r := Present(out, of.minUses, now);
    }

    /** An open that finds an entry, which has been taken off the queue. */
    method OpenKnown(e: Entry, of: Request, answer: Stat, now: int) returns (r: Reply)
      requires Wf(e, null) && current <= max && max >= 1 && e in alive && Possible(answer, e.name) && clock <= now
      modifies this`queue, this`tree, this`current, this`owner, this`lost, this`alive, this`handles, this`clock, alive
      ensures Valid() && clock <= now && fresh(alive - old(alive))
      ensures if old(Recent(e, of, now)) then
          && Answered(r, e.name, of.minUses, old(e.fd), old(e.err), old(e.isDir)) && tree == old(tree) && lost == old(lost)
          && e.uses == old(e.uses) && e.count == old(e.count) + (if r.Opened? then 1 else 0)
          && e.created == old(e.created) && e.uniq == old(e.uniq)
        else if Hopeless(answer, of) then
          && r == Error && handles == old(handles) && tree == old(tree) - {e.name} && lost == old(lost)
        else
          && Answered(r, e.name, of.minUses, Finding(answer, old(e.fd), 0).fd, Finding(answer, old(e.fd), 0).err, Finding(answer, old(e.fd), 0).isDir)
          && tree[e.name].created == now && (answer.File? ==> tree[e.name].uniq == answer.uniq) && tree == old(tree)[e.name := tree[e.name]]
          && (tree[e.name] == e <==> old(e.count == 0 || answer.Unchanged? || (answer.File? && answer.uniq == e.uniq)))
          && (if tree[e.name] == e then e.uses == old(e.uses) else fresh(tree[e.name]) && tree[e.name].uses == 1)
          && tree[e.name].count == (if tree[e.name] == e then old(e.count) else 0) + (if r.Opened? then 1 else 0)
          && lost == if old(ChangedBack(e, answer)) then old(lost) + {old(e.fd)} else old(lost)
    {
      if !Recent(e, of, now) {
        r := OpenStale(e, of, answer, now);
        return;
      }
      assert Sound(e);
      r := Present(e, of.minUses, now);
      assert old(tree)[e.name := e] == tree;
    }

    /** An open that finds no entry. */
    method OpenNew(name: Name, of: Request, answer: Stat, now: int) returns (r: Reply)
      requires Valid() && clock <= now && name !in tree && Possible(answer, name)
      modifies this`queue, this`tree, this`current, this`owner, this`lost, this`alive, this`handles, this`clock, alive
      ensures Valid() && clock <= now && fresh(alive - old(alive)) && lost == old(lost)
      ensures if Hopeless(answer, of) then r == Error && handles == old(handles) && tree == old(tree)
        else
          && Answered(r, name, of.minUses, Finding(answer, INVALID, 0).fd, Finding(answer, INVALID, 0).err, Finding(answer, INVALID, 0).isDir)
          && tree[name].created == now && (answer.File? ==> tree[name].uniq == answer.uniq)
          && fresh(tree[name]) && tree[name].uses == 1 && tree[name].count == (if r.Opened? then 1 else 0)
          && (old(current) < max ==> tree == old(tree)[name := tree[name]])
    {
      if Hopeless(answer, of) {
        return Error;
      }
      var e := Enter(name, answer, now);
      r := Present(e, of.minUses, now);
    }

    /** An entry found in the tree: one more use, and off the queue. */
    method Look(e: Entry)
      requires Wf(null, null) && InTree(e)
      modifies this`queue, e`uses
      ensures Wf(e, null) && e in alive && e.uses == old(e.uses) + 1
    {
      assert Named(e.name, tree);
      e.uses := e.uses + 1;
      Withdraw(e);
    }

    /**
     * ngx_open_cached_file. The invariant holds again afterwards, whatever the file system answers; a recent entry
     * answers by itself, any other open by what the file system says. Every open of an entry counts as a use, and an
     * entry is replaced only if its file changed while handles were out. A descriptor is lost exactly when a stale
     * entry's file was found with its old id and a new descriptor.
     */
    method Open(name: Name, of: Request, answer: Stat, now: int) returns (r: Reply)
      requires Valid() && clock <= now && Possible(answer, name)
      modifies this, alive
      ensures Valid() && clock <= now && fresh(alive - old(alive))
      ensures
        var known := old(name in tree);
        var recent := old(name in tree
          && (tree[name].fd != -1 || tree[name].err != 0 || tree[name].isDir)
          && (of.uniq == 0 || of.uniq == tree[name].uniq) && now - tree[name].created < of.valid);
        if recent then
          var e := old(tree)[name];
          && Answered(r, name, of.minUses, old(e.fd), old(e.err), old(e.isDir)) && tree == old(tree) && lost == old(lost)
          && e.uses == old(e.uses) + 1 && e.count == old(e.count) + (if r.Opened? then 1 else 0)
          && e.created == old(e.created) && e.uniq == old(e.uniq)
        else if answer.Failed? && (answer.err == 0 || !of.errors) then
          r == Error && handles == old(handles) && tree == old(tree) - {name} && lost == old(lost)
        else
          && (match answer
              case Failed(err) => Answered(r, name, of.minUses, -1, err, false)
              case Unchanged => known && Answered(r, name, of.minUses, old(tree[name].fd), 0, false)
              case Directory(uniq) => Answered(r, name, of.minUses, -1, 0, true)
              case File(fd, uniq) => Answered(r, name, of.minUses, fd, 0, false) && tree[name].uniq == uniq)
          && tree[name].created == now
          && (if old(name in tree && (tree[name].count == 0 || answer.Unchanged? || (answer.File? && answer.uniq == tree[name].uniq)))
              then tree[name] == old(tree)[name] && tree[name].uses == old(tree[name].uses) + 1
                   && tree[name].count == old(tree[name].count) + (if r.Opened? then 1 else 0)
              else fresh(tree[name]) && tree[name].uses == 1 && tree[name].count == (if r.Opened? then 1 else 0))
          && (known || old(current) < max ==> tree == old(tree)[name := tree[name]])
          && lost == if old(name in tree && tree[name].fd != -1 && answer.File? && answer.uniq == tree[name].uniq)
               then old(lost) + {old(tree[name].fd)} else old(lost)
    {
      if name in tree {
        var e := tree[name];
        assert Named(name, tree);
        Look(e);
        r := OpenKnown(e, of, answer, now);
      } else {
        r := OpenNew(name, of, answer, now);
      }
    }

    /** Every count is the number of handles given out on the entry and not released. */
    lemma CountIsHandles(e: Entry)
      requires Valid() && e in alive
      ensures e.count == |set h | h in handles && h.file == e|
    {
      assert Sound(e);
      assert e.holders == set h | h in handles && h.file == e;
    }

    /** A handle's descriptor is open and its entry not freed, whether the entry is still in the cache or not. */
    lemma HandlesStayUsable(h: Handle)
      requires Valid() && h in handles
      ensures h.file in alive && h.fd in owner && owner[h.fd] == h.file && h.file.count > 0 && h.file.fd != INVALID
    {
      assert Sound(h.file);
    }

    /** No two entries share a descriptor. */
    lemma DescriptorsApart(d: Entry, e: Entry)
      requires Valid() && d in alive && e in alive && d != e && d.fd != INVALID
      ensures d.fd != e.fd
    {
      assert Sound(d) && Sound(e);
    }

    /** The queue holds exactly the entries of the tree, `current` of them and at most max. */
    lemma Bookkeeping(e: Entry)
      requires Valid()
      ensures current == |tree| == |queue| <= max
      ensures e in queue <==> InTree(e)
      ensures e in queue ==> e in alive && !e.close
    {
      ListedFacts(tree, queue, null);
      if InTree(e) {
        assert Named(e.name, tree) && Placed(e);
      }
    }
  }

  /** With no descriptor lost, those open belong to entries in the tree or to outstanding handles. */
  lemma OpenOnlyInUse(c: Cache, fd: int)
    requires c.Valid() && fd in c.owner && fd !in c.lost
    ensures var e := c.owner[fd]; e in c.alive && e.fd == fd && (c.InTree(e) || exists h :: h in c.handles && h.file == e)
  {
    var e := c.owner[fd];
    assert c.Kept(fd) && c.Sound(e) && c.Placed(e);
    if !c.InTree(e) {
      assert e.holders != {};
      var h :| h in e.holders;
    }
  }

  /** A cache with one open file: descriptor 3, id 7. */
  method OneFile() returns (c: Cache)
    ensures fresh(c) && c.Valid() && c.lost == {} && c.clock <= 0 && 4 !in c.owner && fresh(c.alive)
    ensures "f" in c.tree && c.tree["f"].fd == 3 && c.tree["f"].uniq == 7 && c.tree["f"].created == 0
  {
    c := new Cache(1, 60, 0);
    var r := c.Open("f", Request(0, false, 0, 0), File(3, 7), 0);
    assert r.Opened? && c.handles == {r.handle} && r.handle.file == c.tree["f"];
    assert 4 !in c.owner by {
      if 4 in c.owner {
        OpenOnlyInUse(c, 4);
      }
    }
  }

  /** It does happen: a stale entry is found again under its old id with a new descriptor, and the old one is lost. */
  method ChangedBackLosesOne() returns (c: Cache)
    ensures c.Valid() && c.lost == {3} && "f" in c.tree && c.tree["f"].fd == 4
  {
    c := OneFile();
    var r := c.Open("f", Request(0, false, 0, 0), File(4, 7), 1);
  }

  /** Entry e is in the tree with an open file, made just now, and has been opened and counted so often. */
  ghost predicate Has(c: Cache, e: Entry, uses: nat, count: nat, now: int)
    reads c, c.queue`accessed, c.alive, e
  {
    && c.Valid() && c.clock <= now && c.InTree(e) && e in c.alive && e.uses == uses && e.count == count
    && e.err == 0 && !e.isDir && e.created == now && !e.close
  }

  lemma FoundInTree(c: Cache, name: Name)
    requires c.Valid() && name in c.tree
    ensures var e := c.tree[name]; e.name == name && e in c.alive && !e.close
  {
    assert Named(name, c.tree) && c.Placed(c.tree[name]);
  }

  method OpenFirst(c: Cache, name: Name, of: Request, fd: int, uniq: int, now: int) returns (e: Entry, h: Handle)
    requires c.Valid() && c.clock <= now && name !in c.tree && fd != -1 && fd !in c.owner
    modifies c, c.alive
    ensures fresh(e) && fresh(c.alive - old(c.alive)) && e.name == name && Has(c, e, 1, 1, now) && e.fd == fd
    ensures h in c.handles && h.file == e && h.minUses == of.minUses
  {
    var r := c.Open(name, of, File(fd, uniq), now);
    FoundInTree(c, name);
    return c.tree[name], r.handle;
  }

  method OpenAgain(c: Cache, e: Entry, of: Request, ghost n: nat, now: int) returns (h: Handle)
    requires Has(c, e, n, n, now) && e.fd != -1 && of.uniq == 0 && of.valid > 0
    modifies c, c.alive
    ensures fresh(c.alive - old(c.alive)) && Has(c, e, n + 1, n + 1, now) && e.fd == old(e.fd)
    ensures fresh(h) && c.handles == old(c.handles) + {h} && h.file == e && h.minUses == of.minUses
  {
    var r := c.Open(e.name, of, Unchanged, now);
    FoundInTree(c, e.name);
    return r.handle;
  }

  /** The handles are different ones of the entry, and all of them. */
  ghost predicate HandlesOf(c: Cache, e: Entry, hs: seq<Handle>, minUses: nat)
    reads c`handles
  {
    && (forall i :: 0 <= i < |hs| ==> hs[i] in c.handles && hs[i].file == e && hs[i].minUses == minUses)
    && (forall i, j :: 0 <= i < j < |hs| ==> hs[i] != hs[j])
  }

  /** Open the file of a new name n times: the entry counts the uses and the handles. */
  method OpenOften(c: Cache, name: Name, of: Request, fd: int, uniq: int, n: nat, now: int) returns (e: Entry, hs: seq<Handle>)
    requires c.Valid() && c.clock <= now && name !in c.tree && fd != -1 && fd !in c.owner
    requires 1 <= n && of.uniq == 0 && of.valid > 0
    modifies c, c.alive
    ensures fresh(e) && fresh(c.alive - old(c.alive)) && e.name == name && Has(c, e, n, n, now) && e.fd == fd
    ensures |hs| == n && HandlesOf(c, e, hs, of.minUses)
  {
    var h;
    e, h := OpenFirst(c, name, of, fd, uniq, now);
    hs := [h];
    while |hs| < n
      invariant 1 <= |hs| <= n && fresh(e) && fresh(c.alive - old(c.alive)) && e.name == name
      invariant Has(c, e, |hs|, |hs|, now) && e.fd == fd && HandlesOf(c, e, hs, of.minUses)
    {
      h := OpenAgain(c, e, of, |hs|, now);
      hs := hs + [h];
    }
  }

  method ReleaseOne(c: Cache, e: Entry, h: Handle, ghost n: nat, ghost left: nat, now: int)
    requires Has(c, e, n, left + 1, now) && e.fd != -1 && c.inactive >= 0 && h in c.handles && h.file == e
    modifies c, c.alive
    ensures c.alive <= old(c.alive) && Has(c, e, n, left, now) && c.handles == old(c.handles) - {h}
    ensures e.fd == if left == 0 && n < h.minUses then -1 else old(e.fd)
  {
    c.Release(h, now);
    FoundInTree(c, e.name);
  }

  /**
   * A file opened n times and released as often keeps its descriptor exactly if it was used often enough; the entry
   * stays in the cache in any case.
   */
  method OftenUsedStaysOpen(c: Cache, name: Name, of: Request, fd: int, uniq: int, n: nat, now: int) returns (e: Entry)
    requires c.Valid() && c.clock <= now && name !in c.tree && fd != -1 && fd !in c.owner
    requires 1 <= n && of.uniq == 0 && of.valid > 0 && c.inactive >= 0
    modifies c, c.alive
    ensures e.name == name && Has(c, e, n, 0, now)
    ensures if of.minUses <= n then e.fd == fd && fd in c.owner else e.fd == -1
  {
    var hs;
    e, hs := OpenOften(c, name, of, fd, uniq, n, now);
    while hs != []
      invariant fresh(e) && fresh(c.alive - old(c.alive)) && e.name == name && |hs| <= n
      invariant Has(c, e, n, |hs|, now) && HandlesOf(c, e, hs, of.minUses)
      invariant e.fd == if hs == [] && n < of.minUses then -1 else fd
      decreases |hs|
    {
      ReleaseOne(c, e, hs[0], n, |hs| - 1, now);
      hs := hs[1..];
    }
    assert c.Sound(e);
  }
}
