/** The event timers of src/event/ngx_event_timer.[ch]: a stable priority queue over wrapping milliseconds. */
module Timers {
  import opened RbTree

  const HALF: int := 0x8000_0000_0000_0000
  const TIMER_INFINITE: int := WORD - 1
  const LAZY_DELAY: int := 300

  function Wrap(t: int): (w: int)
    ensures 0 <= w < WORD
  {
    t % 0x1_0000_0000_0000_0000
  }

  /** A machine word read as a signed number. */
  function Signed(w: int): (s: int)
    ensures -HALF <= s < HALF && Wrap(s) == Wrap(w)
  {
    var u := w % 0x1_0000_0000_0000_0000;
    if u >= 0x8000_0000_0000_0000 then u - 0x1_0000_0000_0000_0000 else u
  }

  /** While two times lie within half the key range, their wrapped keys still tell their exact difference. */
  lemma SignedDifference(a: int, b: int)
    requires -HALF <= a - b < HALF
    ensures Signed(Wrap(a) - Wrap(b)) == a - b
    ensures Before(Wrap(a), Wrap(b)) <==> a < b
  {
  }

  /** ngx_abs(diff) < NGX_TIMER_LAZY_DELAY */
  predicate NearKeys(key: int, stored: int)
  {
    -LAZY_DELAY < Signed(key - stored) < LAZY_DELAY
  }

  lemma WrapAdds(t: int, d: int)
    ensures Wrap(Wrap(t) + d) == Wrap(t + d)
  {
  }

  lemma NearTells(a: int, b: int)
    requires -HALF <= a - b < HALF
    ensures NearKeys(Wrap(a), Wrap(b)) <==> -LAZY_DELAY < b - a < LAZY_DELAY
  {
    SignedDifference(a, b);
  }

  class Event {
    const timer: Node
    var timerSet: bool
    var timedout: bool

    constructor (timer: Node)
      ensures this.timer == timer && !timerSet && !timedout
    {
      this.timer, timerSet, timedout := timer, false, false;
    }
  }

  /** Where a timer stands in the queue: its deadline, and when it was put in. */
  datatype Rank = Rank(due: int, stamp: int) {
    predicate Before(other: Rank) {
      due < other.due || (due == other.due && stamp < other.stamp)
    }
  }

  /** What a handler may do: give an event a timer, or delete the one it has. */
  datatype Action = Add(ev: Event, timer: int) | Del(ev: Event)

  function Minus(s: seq<Node>, n: Node): (r: seq<Node>) {
    if s == [] then [] else if s[0] == n then s[1..] else [s[0]] + Minus(s[1..], n)
  }

  lemma {:induction false} MinusAt(s: seq<Node>, k: int)
    requires 0 <= k < |s| && forall i :: 0 <= i < k ==> s[i] != s[k]
    ensures Minus(s, s[k]) == s[..k] + s[k + 1..]
  {
    if k > 0 {
      var t := s[1..];
      MinusAt(t, k - 1);
      assert [s[0]] + (t[..k - 1] + t[k..]) == s[..k] + s[k + 1..];
    }
  }

  lemma {:induction false} MinusAbsent(s: seq<Node>, n: Node)
    requires n !in s
    ensures Minus(s, n) == s
  {
    if s != [] {
      MinusAbsent(s[1..], n);
    }
  }

  lemma CutOut(s: seq<Node>, k: int)
    requires 0 <= k < |s| && forall i :: 0 <= i < |s| && i != k ==> s[i] != s[k]
    ensures var r := s[..k] + s[k + 1..];
      && (forall i {:trigger r[i]} :: 0 <= i < |r| ==> r[i] == s[if i < k then i else i + 1])
      && (forall m :: m in r <==> m in s && m != s[k])
  {
    var r := s[..k] + s[k + 1..];
    forall m | m in s && m != s[k] ensures m in r {
      var i :| 0 <= i < |s| && s[i] == m;
      assert r[if i < k then i else i - 1] == m;
    }
  }

  lemma PutIn(s: seq<Node>, k: int, n: Node)
    requires 0 <= k <= |s|
    ensures var r := s[..k] + [n] + s[k..];
      && (forall i {:trigger r[i]} :: 0 <= i < |r| ==> r[i] == if i < k then s[i] else if i == k then n else s[i - 1])
      && (forall m :: m in r <==> m in s || m == n)
  {
    var r := s[..k] + [n] + s[k..];
    assert r[k] == n;
    forall m | m in s ensures m in r {
      var i :| 0 <= i < |s| && s[i] == m;
      assert r[if i < k then i else i + 1] == m;
    }
  }

  /** The place behind the last timer with a deadline up to t. */
  function Slot(s: seq<Node>, due: map<Node, int>, t: int): (k: nat)
    requires forall n :: n in s ==> n in due
    ensures k <= |s| && (k > 0 ==> due[s[k - 1]] <= t) && (forall i :: k <= i < |s| ==> t < due[s[i]])
  {
    if s == [] then 0 else if due[s[|s| - 1]] <= t then |s| else Slot(s[..|s| - 1], due, t)
  }

  /**
   * The queue that the tree stands for: the timers in order, and without wrap-around the time, the start of the
   * window all times lie in, the deadline of each timer, the one asked for last, and when it was put in.
   */
  datatype Plan = Plan(order: seq<Node>, due: map<Node, int>, asked: map<Node, int>, stamp: map<Node, int>,
                       ticket: int, clock: int, base: int)
  {
    predicate Window(t: int) {
      base <= t < base + HALF
    }

    /** A timer of that many milliseconds set now ends then. */
    function Deadline(timer: int): int {
      clock + timer
    }

    function RankOf(n: Node): Rank
      requires n in due && n in stamp
    {
      Rank(due[n], stamp[n])
    }

    ghost predicate Known() {
      forall n :: n in order ==> n in due && n in asked && n in stamp
    }

    /** First come the earlier deadlines, and on ties the earlier insertions. */
    ghost predicate Sorted()
      requires Known()
    {
      forall i, j :: 0 <= i < j < |order| ==> RankOf(order[i]).Before(RankOf(order[j]))
    }

    ghost predicate Dated(n: Node)
      requires n in due && n in asked && n in stamp
    {
      stamp[n] < ticket && Window(due[n]) && -LAZY_DELAY < due[n] - asked[n] < LAZY_DELAY
    }

    ghost predicate Good() {
      Window(clock) && Known() && Sorted() && forall n :: n in order ==> Dated(n)
    }

    /** The timer leaves, the others keep their places. */
    function Drop(n: Node): (p: Plan) {
      this.(order := Minus(order, n))
    }

    /** The timer comes in behind every deadline up to its own. */
    ghost function Put(n: Node, t: int): (p: Plan)
      requires Known()
    {
      var k := Slot(order, due, t);
      this.(order := order[..k] + [n] + order[k..], due := due[n := t], asked := asked[n := t],
            stamp := stamp[n := ticket], ticket := ticket + 1)
    }

    /** The timer already has a deadline less than LAZY_DELAY away from t. */
    predicate Near(n: Node, t: int) {
      n in order && n in due && -LAZY_DELAY < due[n] - t < LAZY_DELAY
    }

    /** A request for the deadline t moves the timer, unless the one it has is near. */
    ghost function Ask(n: Node, t: int): (p: Plan)
      requires Good()
    {
      if Near(n, t) then this.(asked := asked[n := t])
      else
        DropGood(n);
        Drop(n).Put(n, t)
    }

    lemma CutSorted(k: int)
      requires Known() && Sorted() && 0 <= k < |order|
      ensures var p := this.(order := order[..k] + order[k + 1..]); p.Known() && p.Sorted()
    {
      var p := this.(order := order[..k] + order[k + 1..]);
      forall i, j | 0 <= i < j < |p.order| ensures RankOf(p.order[i]).Before(RankOf(p.order[j])) {
        var a, b := if i < k then i else i + 1, if j < k then j else j + 1;
        assert RankOf(order[a]).Before(RankOf(order[b]));
      }
    }

    lemma DropCuts(n: Node)
      requires Known() && Sorted()
      ensures forall m :: m in Drop(n).order <==> m in order && m != n
      ensures Drop(n).Known() && Drop(n).Sorted()
    {
      if n in order {
        var k :| 0 <= k < |order| && order[k] == n;
        forall i | 0 <= i < |order| && i != k ensures order[i] != order[k] {
          assert RankOf(order[if i < k then i else k]).Before(RankOf(order[if i < k then k else i]));
        }
        MinusAt(order, k);
        CutOut(order, k);
        CutSorted(k);
      } else {
        MinusAbsent(order, n);
      }
    }

    lemma DropGood(n: Node)
      requires Good()
      ensures Drop(n).Good()
      ensures forall m :: m in Drop(n).order <==> m in order && m != n
    {
      DropCuts(n);
      forall m | m in Drop(n).order ensures Drop(n).Dated(m) {
        assert Dated(m);
      }
    }

    lemma LaterBehind(k: int, t: int)
      requires Known() && Sorted() && 0 <= k < |order| && t < due[order[k]]
      ensures forall i :: k <= i < |order| ==> t < due[order[i]]
    {
      forall i | k < i < |order| ensures t < due[order[i]] {
        assert RankOf(order[k]).Before(RankOf(order[i]));
      }
    }

    lemma EarlierBefore(k: int, t: int)
      requires Known() && Sorted() && 0 <= k < |order| && due[order[k]] <= t
      ensures forall i :: 0 <= i <= k ==> due[order[i]] <= t
    {
      forall i | 0 <= i < k ensures due[order[i]] <= t {
        assert RankOf(order[i]).Before(RankOf(order[k]));
      }
    }

    /** What stands at i after an insertion, and its rank. */
    lemma PutAt(n: Node, t: int, i: int)
      requires Known() && n !in order && 0 <= i <= |order|
      ensures var k, p := Slot(order, due, t), Put(n, t); var m := p.order[i];
        && m == (if i < k then order[i] else if i == k then n else order[i - 1])
        && m in p.due && m in p.stamp && p.RankOf(m) == if i == k then Rank(t, ticket) else RankOf(m)
    {
    }

    lemma OrderAt(i: int, j: int)
      requires Good() && 0 <= i < j < |order|
      ensures RankOf(order[i]).Before(RankOf(order[j])) && stamp[order[i]] < ticket
    {
      assert Dated(order[i]);
    }

    lemma PutBefore(n: Node, t: int, i: int, j: int)
      requires Good() && n !in order && 0 <= i < j <= |order| && Put(n, t).Known()
      ensures Put(n, t).RankOf(Put(n, t).order[i]).Before(Put(n, t).RankOf(Put(n, t).order[j]))
    {
      PutAt(n, t, i);
      PutAt(n, t, j);
      var k := Slot(order, due, t);
      if j < k {
        OrderAt(i, j);
      } else if j == k {
        EarlierBefore(k - 1, t);
        assert Dated(order[i]);
      } else if i < k {
        OrderAt(i, j - 1);
      } else if k < i {
        OrderAt(i - 1, j - 1);
      }
    }

    lemma PutSorted(n: Node, t: int)
      requires Good() && n !in order
      ensures Put(n, t).Known() && Put(n, t).Sorted()
      ensures forall m :: m in Put(n, t).order <==> m in order || m == n
    {
      PutIn(order, Slot(order, due, t), n);
      forall i, j | 0 <= i < j < |Put(n, t).order|
        ensures Put(n, t).RankOf(Put(n, t).order[i]).Before(Put(n, t).RankOf(Put(n, t).order[j]))
      {
        PutBefore(n, t, i, j);
      }
    }

    lemma PutGood(n: Node, t: int)
      requires Good() && n !in order && Window(t)
      ensures Put(n, t).Good()
      ensures forall m :: m in Put(n, t).order <==> m in order || m == n
    {
      PutSorted(n, t);
      forall m | m in Put(n, t).order ensures Put(n, t).Dated(m) {
        assert m == n || Dated(m);
      }
    }

    lemma AskGood(n: Node, t: int)
      requires Good() && Window(t)
      ensures Ask(n, t).Good()
      ensures forall m :: m in Ask(n, t).order <==> m in order || m == n
    {
      if !Near(n, t) {
        DropGood(n);
        Drop(n).PutGood(n, t);
      }
    }

    /**
     * What a request means for the queue, which stays sorted by rank: a near timer keeps its place, any other gets
     * the last place among the deadlines up to its own, and no other timer moves.
     */
    lemma AskMovesOne(n: Node, t: int)
      requires Good() && Window(t)
      ensures var p := Ask(n, t);
        && p.Good() && (forall m :: m in p.order <==> m in order || m == n) && p.asked[n] == t
        && (forall m :: m in order && m != n ==> p.RankOf(m) == RankOf(m) && p.asked[m] == asked[m])
        && p.RankOf(n) == (if Near(n, t) then RankOf(n) else Rank(t, ticket))
        && (Near(n, t) ==> p.order == order)
    {
      AskGood(n, t);
    }

    /** First in, first out: of two timers set to the same deadline the one set first stands first. */
    lemma SameDeadlineInTurn(a: Node, b: Node, t: int)
      requires Good() && Window(t) && a != b && !Near(a, t) && !Near(b, t)
      ensures Ask(a, t).Good()
      ensures var p := Ask(a, t).Ask(b, t);
        p.Good() && a in p.order && b in p.order && p.RankOf(a).Before(p.RankOf(b))
    {
      AskMovesOne(a, t);
      Ask(a, t).AskMovesOne(b, t);
    }

    lemma AskAlone(n: Node, t: int)
      requires Good() && order == []
      ensures var p := Ask(n, t); p.order == [n] && p.due == due[n := t] && p.clock == clock && p.base == base
    {
    }

    ghost predicate IsDue(n: Node) {
      n in order && n in due && n in stamp && due[n] <= clock
    }

    ghost function DueSet(): set<Node> {
      set n | n in order && IsDue(n)
    }

    /** The first timer fires. */
    function Fire(): (p: Plan)
      requires order != []
    {
      this.(order := order[1..])
    }

    lemma FireGood()
      requires Good() && order != []
      ensures Fire().Good() && Fire() == Drop(order[0])
      ensures forall m :: m in Fire().order <==> m in order && m != order[0]
    {
      DropGood(order[0]);
    }

    /** The first timer comes before every other one. */
    lemma FirstIsLeast(n: Node)
      requires Good() && n in order && n != order[0]
      ensures RankOf(order[0]).Before(RankOf(n))
    {
      var i :| 0 <= i < |order| && order[i] == n;
    }

    /** The action makes no timer due. */
    predicate Allows(a: Action) {
      a.Add? ==> a.timer > 0 && Window(Deadline(a.timer))
    }

    ghost function Act(a: Action): (p: Plan)
      requires Good()
    {
      match a
      case Add(ev, timer) => Ask(ev.timer, Deadline(timer))
      case Del(ev) => Drop(ev.timer)
    }

    /** Every due timer of this plan was one of p already, with the same rank. */
    ghost predicate DueWithin(p: Plan) {
      forall n {:trigger IsDue(n)} :: n in order && IsDue(n) ==> p.IsDue(n) && RankOf(n) == p.RankOf(n)
    }

    lemma AskDue(n: Node, t: int)
      requires Good() && Window(t) && clock < t
      ensures Ask(n, t).Good() && Ask(n, t).clock == clock && Ask(n, t).base == base && Ask(n, t).DueWithin(this)
      ensures forall m {:trigger Ask(n, t).IsDue(m)} :: IsDue(m) && m != n ==> Ask(n, t).IsDue(m)
    {
      AskGood(n, t);
    }

    lemma DropDue(n: Node)
      requires Good()
      ensures Drop(n).Good() && Drop(n).clock == clock && Drop(n).base == base && Drop(n).DueWithin(this)
      ensures forall m {:trigger Drop(n).IsDue(m)} :: IsDue(m) && m != n ==> Drop(n).IsDue(m)
    {
      DropGood(n);
    }

    lemma ActGood(a: Action)
      requires Good() && Allows(a)
      ensures Act(a).Good() && Act(a).clock == clock && Act(a).base == base && Act(a).DueWithin(this)
      ensures forall n {:trigger Act(a).IsDue(n)} :: IsDue(n) && n != a.ev.timer ==> Act(a).IsDue(n)
    {
      var n := a.ev.timer;
      if a.Add? {
        AskDue(n, Deadline(a.timer));
        assert Act(a) == Ask(n, Deadline(a.timer));
      } else {
        DropDue(n);
        assert Act(a) == Drop(n);
      }
    }

    ghost predicate AllowsAll(h: seq<Action>) {
      forall i :: 0 <= i < |h| ==> Allows(h[i])
    }

    /** A handler acts step by step. */
    ghost function Run(h: seq<Action>): (p: Plan)
      requires Good() && AllowsAll(h)
      ensures p.Good() && p.clock == clock && p.base == base
    {
      if h == [] then this
      else
        var p := Run(h[..|h| - 1]);
        p.ActGood(h[|h| - 1]);
        p.Act(h[|h| - 1])
    }

    lemma RunStep(h: seq<Action>, i: nat)
      requires Good() && AllowsAll(h) && i < |h|
      ensures AllowsAll(h[..i]) && AllowsAll(h[..i + 1]) && Run(h[..i]).Allows(h[i])
      ensures Run(h[..i + 1]) == Run(h[..i]).Act(h[i])
    {
      assert h[..i + 1][..i] == h[..i];
    }

    static predicate Touches(h: seq<Action>, n: Node) {
      exists i :: 0 <= i < |h| && h[i].ev.timer == n
    }

    lemma {:induction false} RunShrinks(h: seq<Action>)
      requires Good() && AllowsAll(h)
      ensures Run(h).DueWithin(this)
      ensures forall n {:trigger Run(h).IsDue(n)} :: IsDue(n) && !Touches(h, n) ==> Run(h).IsDue(n)
    {
      if h != [] {
        var g, a := h[..|h| - 1], h[|h| - 1];
        RunShrinks(g);
        Run(g).ActGood(a);
        forall n | IsDue(n) && !Touches(h, n) ensures Run(h).IsDue(n) {
          assert !Touches(g, n);
          assert Run(g).IsDue(n);
        }
      }
    }
  }

  function HandlerAt(handlers: seq<seq<Action>>, i: nat): (h: seq<Action>) {
    if i < |handlers| then handlers[i] else []
  }

  ghost predicate AllAllowed(p: Plan, handlers: seq<seq<Action>>) {
    forall i :: 0 <= i < |handlers| ==> p.AllowsAll(handlers[i])
  }

  /** One round of the expiry loop: the first timer is due, it fires, and its handler runs. */
  ghost predicate Round(p: Plan, h: seq<Action>, q: Plan) {
    && p.Good() && p.order != [] && p.IsDue(p.order[0]) && p.AllowsAll(h) && p.Fire().Good()
    && q == p.Fire().Run(h)
  }

  ghost predicate RoundAt(trace: seq<Plan>, handlers: seq<seq<Action>>, i: int) {
    0 <= i < |trace| - 1 && Round(trace[i], HandlerAt(handlers, i), trace[i + 1])
  }

  ghost predicate Rounds(trace: seq<Plan>, handlers: seq<seq<Action>>) {
    |trace| > 0 && forall i {:trigger RoundAt(trace, handlers, i)} :: 0 <= i < |trace| - 1 ==> RoundAt(trace, handlers, i)
  }

  /** A round takes the timer that fired out of the due ones, and those its handler deleted or moved. */
  lemma RoundShrinks(p: Plan, h: seq<Action>, q: Plan)
    requires Round(p, h, q)
    ensures q.Good() && q.clock == p.clock && q.base == p.base && q.DueWithin(p) && !q.IsDue(p.order[0])
    ensures forall n {:trigger q.IsDue(n)} :: p.IsDue(n) && n != p.order[0] && !Plan.Touches(h, n) ==> q.IsDue(n)
  {
    p.FireGood();
    p.DropDue(p.order[0]);
    p.Fire().RunShrinks(h);
  }

  lemma SmallerSet(a: set<Node>, b: set<Node>)
    requires a < b
    ensures |a| < |b|
  {
    assert |b - a| > 0 && b == a + (b - a);
  }

  lemma FewerDue(p: Plan, h: seq<Action>, q: Plan)
    requires Round(p, h, q)
    ensures |q.DueSet()| < |p.DueSet()|
  {
    RoundShrinks(p, h, q);
    assert p.order[0] in p.DueSet() && p.order[0] !in q.DueSet();
    SmallerSet(q.DueSet(), p.DueSet());
  }
  ghost predicate FiresAt(trace: seq<Plan>, n: Node, i: int) {
    0 <= i < |trace| - 1 && trace[i].order != [] && trace[i].order[0] == n
  }

  /** The events fired are, round by round, those of the first timers. */
  ghost predicate FiredFirst(trace: seq<Plan>, fired: seq<Event>) {
    |trace| == |fired| + 1 && forall i :: 0 <= i < |fired| ==> FiresAt(trace, fired[i].timer, i)
  }

  lemma RoundsGrow(trace: seq<Plan>, handlers: seq<seq<Action>>, fired: seq<Event>, q: Plan, ev: Event)
    requires Rounds(trace, handlers) && FiredFirst(trace, fired) && AllAllowed(trace[|fired|], handlers)
    requires Round(trace[|fired|], HandlerAt(handlers, |fired|), q) && ev.timer == trace[|fired|].order[0]
    ensures Rounds(trace + [q], handlers) && FiredFirst(trace + [q], fired + [ev]) && AllAllowed(q, handlers)
    ensures |q.DueSet()| < |trace[|fired|].DueSet()|
  {
    FewerDue(trace[|fired|], HandlerAt(handlers, |fired|), q);
    RoundShrinks(trace[|fired|], HandlerAt(handlers, |fired|), q);
    forall i | 0 <= i < |fired| ensures FiresAt(trace + [q], (fired + [ev])[i].timer, i) {
      assert FiresAt(trace, fired[i].timer, i);
    }
    forall i | 0 <= i < |trace| ensures RoundAt(trace + [q], handlers, i) {
      assert i < |trace| - 1 ==> RoundAt(trace, handlers, i);
    }
    forall i | 0 <= i < |handlers| ensures q.AllowsAll(handlers[i]) {
      assert trace[|fired|].AllowsAll(handlers[i]);
    }
  }

  /** Over the rounds the due timers only become fewer, and a timer that fired does not become due again. */
  lemma {:induction false} DueOnlyShrinks(trace: seq<Plan>, handlers: seq<seq<Action>>, i: nat, j: nat)
    requires Rounds(trace, handlers) && i < j < |trace|
    ensures trace[j].Good() && trace[j].clock == trace[i].clock && trace[j].DueWithin(trace[i])
    ensures trace[i].order != [] && !trace[j].IsDue(trace[i].order[0])
    decreases j
  {
    assert RoundAt(trace, handlers, j - 1);
    RoundShrinks(trace[j - 1], HandlerAt(handlers, j - 1), trace[j]);
    if i < j - 1 {
      DueOnlyShrinks(trace, handlers, i, j - 1);
    }
  }

  /** What fires was due from the start, and earlier ranks fire first: by deadline, and first in first out on ties. */
  lemma FiredInOrder(trace: seq<Plan>, handlers: seq<seq<Action>>, i: nat, j: nat)
    requires Rounds(trace, handlers) && i < j < |trace| - 1
    ensures trace[i].order != [] && trace[j].order != []
    ensures var a, b := trace[i].order[0], trace[j].order[0];
      trace[0].IsDue(a) && trace[0].IsDue(b) && trace[0].RankOf(a).Before(trace[0].RankOf(b))
  {
    assert RoundAt(trace, handlers, i) && RoundAt(trace, handlers, j);
    var a, b := trace[i].order[0], trace[j].order[0];
    DueOnlyShrinks(trace, handlers, i, j);
    DueOnlyShrinks(trace, handlers, 0, j);
    if i > 0 {
      DueOnlyShrinks(trace, handlers, 0, i);
    }
    assert trace[j].IsDue(b) && trace[i].IsDue(b) && trace[i].IsDue(a) && a != b;
    trace[i].FirstIsLeast(b);
  }

  /** The round in which a due timer stops being due. */
  ghost predicate LeavesAt(trace: seq<Plan>, n: Node, i: int) {
    0 <= i < |trace| - 1 && trace[i].IsDue(n) && !trace[i + 1].IsDue(n)
  }

  /** Each timer due at the start leaves in one round only: it fires there, or that round's handler deleted or moved it. */
  lemma {:induction false} DueLeavesOnce(trace: seq<Plan>, handlers: seq<seq<Action>>, n: Node) returns (i: nat)
    requires Rounds(trace, handlers) && trace[0].IsDue(n) && !trace[|trace| - 1].IsDue(n)
    ensures LeavesAt(trace, n, i) && (forall j :: LeavesAt(trace, n, j) ==> j == i)
    ensures FiresAt(trace, n, i) || Plan.Touches(HandlerAt(handlers, i), n)
    ensures forall j :: FiresAt(trace, n, j) ==> j == i
  {
    i := 0;
    while trace[i + 1].IsDue(n)
      invariant i < |trace| - 1 && trace[i].IsDue(n)
      decreases |trace| - i
    {
      i := i + 1;
    }
    assert RoundAt(trace, handlers, i);
    RoundShrinks(trace[i], HandlerAt(handlers, i), trace[i + 1]);
    forall j | LeavesAt(trace, n, j) || FiresAt(trace, n, j) ensures j == i {
      assert RoundAt(trace, handlers, j);
      RoundShrinks(trace[j], HandlerAt(handlers, j), trace[j + 1]);
      assert LeavesAt(trace, n, j);
      if j < i {
        StaysAway(trace, handlers, n, j + 1, i);
      } else if i < j {
        StaysAway(trace, handlers, n, i + 1, j);
      }
    }
  }

  lemma StaysAway(trace: seq<Plan>, handlers: seq<seq<Action>>, n: Node, i: nat, j: nat)
    requires Rounds(trace, handlers) && i <= j < |trace| && !trace[i].IsDue(n)
    ensures !trace[j].IsDue(n)
  {
    if i < j {
      DueOnlyShrinks(trace, handlers, i, j);
    }
  }

  /** The timers fired were all due at the start, and fired by rank. */
  ghost predicate InTurn(start: Plan, fired: seq<Event>) {
    && (forall i :: 0 <= i < |fired| ==> start.IsDue(fired[i].timer))
    && (forall i, j :: 0 <= i < j < |fired| ==> start.RankOf(fired[i].timer).Before(start.RankOf(fired[j].timer)))
  }

  /** Every timer due at the start fired once, or the handler of a timer that did deleted it or moved it. */
  ghost predicate Accounted(trace: seq<Plan>, handlers: seq<seq<Action>>)
    requires |trace| > 0
  {
    forall n :: n in trace[0].order && trace[0].IsDue(n) ==>
      exists i ::
        && LeavesAt(trace, n, i) && (forall j :: FiresAt(trace, n, j) ==> j == i)
        && (FiresAt(trace, n, i) || Plan.Touches(HandlerAt(handlers, i), n))
  }

  lemma ExpiryIsComplete(trace: seq<Plan>, handlers: seq<seq<Action>>, fired: seq<Event>)
    requires Rounds(trace, handlers) && FiredFirst(trace, fired)
    requires forall n :: n in trace[|fired|].order ==> !trace[|fired|].IsDue(n)
    ensures InTurn(trace[0], fired) && Accounted(trace, handlers)
  {
    forall i | 0 <= i < |fired| ensures trace[0].IsDue(fired[i].timer) {
      assert FiresAt(trace, fired[i].timer, i) && RoundAt(trace, handlers, i);
      if i > 0 {
        DueOnlyShrinks(trace, handlers, 0, i);
      }
    }
    forall i, j | 0 <= i < j < |fired|
      ensures trace[0].RankOf(fired[i].timer).Before(trace[0].RankOf(fired[j].timer))
    {
      assert FiresAt(trace, fired[i].timer, i) && FiresAt(trace, fired[j].timer, j);
      FiredInOrder(trace, handlers, i, j);
    }
    forall n | n in trace[0].order && trace[0].IsDue(n)
      ensures exists i ::
        && LeavesAt(trace, n, i) && (forall j :: FiresAt(trace, n, j) ==> j == i)
        && (FiresAt(trace, n, i) || Plan.Touches(HandlerAt(handlers, i), n))
    {
      var i := DueLeavesOnce(trace, handlers, n);
    }
  }

  /** With handlers that leave the timers alone the due ones are the first of the queue, in its order. */
  lemma {:induction false} IdleHandlersFireFront(trace: seq<Plan>, handlers: seq<seq<Action>>, i: nat)
    requires Rounds(trace, handlers) && i < |trace| && forall k :: 0 <= k < |handlers| ==> handlers[k] == []
    ensures i <= |trace[0].order| && trace[i] == trace[0].(order := trace[0].order[i..])
  {
    if i > 0 {
      IdleHandlersFireFront(trace, handlers, i - 1);
      assert RoundAt(trace, handlers, i - 1);
      assert HandlerAt(handlers, i - 1) == [];
    }
  }
  class EventTimers {
    const tree: Tree
    // ngx_current_msec
    var now: int
    // The event each timer node is embedded in.
    var owner: map<Node, Event>
    ghost var plan: Plan

    ghost predicate Owned()
      reads `owner, tree`order, owner.Values`timerSet
    {
      && (forall n {:trigger owner[n]} :: n in owner ==>
            owner[n].timer == n && n != tree.sentinel && (owner[n].timerSet <==> n in tree.order))
      && (forall n {:trigger n in tree.order} :: n in tree.order ==> n in owner)
    }

    /** The tree is a red-black tree, and it holds the timers of the plan under their wrapped deadlines. */
    ghost predicate Holds(p: Plan)
      reads tree`order, tree`root, tree.root`red, tree.sentinel`red, tree.sentinel`bh, tree.order`key
      reads tree.order`left, tree.order`right, tree.order`parent, tree.order`lo, tree.order`pos, tree.order`hi
      reads tree.order`red, tree.order`bh
    {
      && tree.Valid() && tree.timer && p.order == tree.order
      && (forall n {:trigger n.key} :: n in tree.order ==> n in p.due && n.key == Wrap(p.due[n]))
    }

    ghost predicate Planned()
      reads `now, `plan
      reads tree`order, tree`root, tree.root`red, tree.sentinel`red, tree.sentinel`bh, tree.order`key
      reads tree.order`left, tree.order`right, tree.order`parent, tree.order`lo, tree.order`pos, tree.order`hi
      reads tree.order`red, tree.order`bh
    {
      Holds(plan) && plan.Good() && now == Wrap(plan.clock)
    }

    ghost predicate Valid()
      reads `owner, `now, `plan, owner.Values`timerSet
      reads tree`order, tree`root, tree.root`red, tree.sentinel`red, tree.sentinel`bh, tree.order`key
      reads tree.order`left, tree.order`right, tree.order`parent, tree.order`lo, tree.order`pos, tree.order`hi
      reads tree.order`red, tree.order`bh
    {
      Planned() && Owned()
    }

    ghost predicate Mine(ev: Event)
      reads `owner
    {
      ev.timer in owner && owner[ev.timer] == ev
    }

    /** ngx_event_timer_init */
    constructor (sentinel: Node, now: int)
      requires 0 <= now < WORD
      modifies sentinel
      ensures Valid() && fresh(tree) && tree.sentinel == sentinel && owner == map[] && this.now == now
      ensures plan == Plan([], map[], map[], map[], 0, now, now)
    {
      tree := new Tree(sentinel, true);
      this.now := now;
      owner := map[];
      plan := Plan([], map[], map[], map[], 0, now, now);
    }

    /** The delay until the earliest deadline. */
    method FindTimer() returns (delay: int)
      requires Valid()
      ensures tree.order == [] ==> delay == 0xffff_ffff_ffff_ffff
      ensures tree.order != [] ==>
        && delay >= 0
        && (exists n :: n in tree.order && delay == if plan.due[n] > plan.clock then plan.due[n] - plan.clock else 0)
        && (forall n :: n in tree.order ==> delay <= if plan.due[n] > plan.clock then plan.due[n] - plan.clock else 0)
    {
      if tree.root == tree.sentinel {
        return TIMER_INFINITE;
      }
      assert tree.Shape(tree.root);
      var node := tree.Min(tree.root);
      assert node == tree.order[0] && plan.Dated(node);
      SignedDifference(plan.due[node], plan.clock);
      var timer := Signed(node.key - now);
      delay := if timer > 0 then timer else 0;
      forall n | n in tree.order ensures delay <= if plan.due[n] > plan.clock then plan.due[n] - plan.clock else 0 {
        if n != node {
          plan.FirstIsLeast(n);
        }
      }
    }

    /** Time passes: the clock moves on, and the window with it. */
    method Tick(msec: int, ghost start: int)
      requires Valid() && 0 <= msec && start <= plan.clock + msec < start + HALF
      requires forall n :: n in tree.order ==> start <= plan.due[n] < start + HALF
      modifies `now, `plan
      ensures Valid() && plan == old(plan).(clock := old(plan.clock) + msec, base := start)
    {
      WrapAdds(plan.clock, msec);
      now := Wrap(now + msec);
      plan := plan.(clock := plan.clock + msec, base := start);
      assert forall n :: n in tree.order ==> old(plan).Dated(n) && plan.RankOf(n) == old(plan).RankOf(n);
    }

    /** Make a new event known, so that it can be given a timer. */
    method Register(ev: Event)
      requires Valid() && ev.timer !in owner && ev.timer != tree.sentinel && ev.timer !in tree.order && !ev.timerSet
      modifies `owner
      ensures Valid() && owner == old(owner)[ev.timer := ev]
    {
      owner := owner[ev.timer := ev];
    }

    lemma OwnNodes()
      requires Owned()
      ensures forall o: object :: o in tree.order ==> o in owner.Keys
    {
      assert forall n :: n in tree.order ==> n in owner.Keys;
    }

    ghost method Adopt(p: Plan)
      requires Holds(p) && p.Good() && now == Wrap(p.clock)
      modifies `plan
      ensures Planned() && plan == p
    {
      plan := p;
    }

    lemma DropIsWithout(node: Node)
      requires Planned() && node in tree.order
      ensures 0 <= node.pos < |tree.order| && plan.Drop(node).order == tree.Without(tree.order, node.pos)
    {
      MinusAt(tree.order, node.pos);
    }

    method Dequeue(node: Node)
      requires Planned() && node in tree.order
      modifies tree`root, tree`order, tree.order, tree.sentinel`parent, tree.sentinel`red, `plan
      ensures Planned() && plan == old(plan).Drop(node)
      ensures forall n :: n in tree.order <==> n in old(tree.order) && n != node
    {
      DropIsWithout(node);
      plan.DropGood(node);
      tree.Delete(node);
      Adopt(plan.Drop(node));
    }

    /** Every event but this one has the flag that says whether its timer is in the tree. */
    ghost predicate OwnedBut(ev: Event)
      reads `owner, tree`order, owner.Values`timerSet
    {
      && Mine(ev)
      && (forall n {:trigger owner[n]} :: n in owner ==>
            owner[n].timer == n && n != tree.sentinel && (n != ev.timer ==> (owner[n].timerSet <==> n in tree.order)))
      && (forall n {:trigger n in tree.order} :: n in tree.order ==> n in owner)
    }

    method Flag(ev: Event, on: bool)
      requires Planned() && OwnedBut(ev) && (on <==> ev.timer in tree.order)
      modifies ev`timerSet
      ensures Valid() && ev.timerSet == on
    {
      ev.timerSet := on;
    }

    /** ngx_event_del_timer */
    method DelTimer(ev: Event)
      requires Valid() && Mine(ev) && ev.timerSet
      modifies tree`root, tree`order, owner.Keys, tree.sentinel`parent, tree.sentinel`red, ev`timerSet, `plan
      ensures Valid() && !ev.timerSet && plan == old(plan).Drop(ev.timer)
      ensures forall n :: n in tree.order <==> n in old(tree.order) && n != ev.timer
    {
      OwnNodes();
      Dequeue(ev.timer);
      Flag(ev, false);
    }

    /** if (ev->timer_set) ngx_del_timer(ev) */
    method Stop(ev: Event)
      requires Valid() && Mine(ev)
      modifies tree`root, tree`order, owner.Keys, tree.sentinel`parent, tree.sentinel`red, ev`timerSet, `plan
      ensures Valid() && !ev.timerSet && plan == old(plan).Drop(ev.timer)
    {
      if ev.timerSet {
        DelTimer(ev);
      } else {
        MinusAbsent(tree.order, ev.timer);
      }
    }

    /** The search by keys ends where the deadlines say. */
    lemma FoundSlot(t: int, k: int)
      requires Planned() && plan.Window(t) && tree.Between(Wrap(t), k)
      ensures k == Slot(plan.order, plan.due, t)
    {
      if k > 0 {
        assert plan.Dated(tree.order[k - 1]);
        SignedDifference(t, plan.due[tree.order[k - 1]]);
        assert plan.due[plan.order[k - 1]] <= t;
      }
      if k < |tree.order| {
        assert plan.Dated(tree.order[k]);
        SignedDifference(t, plan.due[tree.order[k]]);
        plan.LaterBehind(k, t);
      }
    }

    method InsertKeyed(node: Node, key: int) returns (ghost k: int)
      requires tree.Valid() && node !in tree.order && node != tree.sentinel
      modifies tree`root, tree`order, tree.order, node
      ensures tree.Valid() && node.key == key && old(tree.Between(key, k))
      ensures tree.order == old(tree.order)[..k] + [node] + old(tree.order)[k..]
      ensures forall n {:trigger n.key} :: n in old(tree.order) ==> n.key == old(n.key)
    {
      node.key := key;
      k := tree.Insert(node);
    }

    method InsertAtSlot(node: Node, key: int, ghost t: int)
      requires Planned() && node !in tree.order && node != tree.sentinel && plan.Window(t) && key == Wrap(t)
      modifies tree`root, tree`order, tree.order, node
      ensures tree.Valid() && node.key == key && tree.order == plan.Put(node, t).order
      ensures forall n {:trigger n.key} :: n in old(tree.order) ==> n.key == old(n.key)
    {
      ghost var k := InsertKeyed(node, key);
      assert old(FoundSlot(t, k); true);
    }

    twostate lemma HoldsWith(p: Plan, new node: Node, new t: int)
      requires old(Holds(plan)) && p.Known() && (forall n :: n in p.order <==> n in old(tree.order) || n == node)
      requires p.due == old(plan.due)[node := t] && node !in old(tree.order) && node.key == Wrap(t)
      requires tree.Valid() && tree.order == p.order
      requires forall n {:trigger n.key} :: n in old(tree.order) ==> n.key == old(n.key)
      ensures Holds(p)
    {
    }

    method Enqueue(node: Node, key: int, ghost t: int)
      requires Planned() && node !in tree.order && node != tree.sentinel && plan.Window(t) && key == Wrap(t)
      modifies tree`root, tree`order, tree.order, node, `plan
      ensures Planned() && plan == old(plan).Put(node, t)
      ensures forall n :: n in tree.order <==> n in old(tree.order) || n == node
    {
      ghost var p := plan.Put(node, t);
      plan.PutGood(node, t);
      InsertAtSlot(node, key, t);
      HoldsWith(p, node, t);
      Adopt(p);
    }

    /** The part of ngx_event_add_timer that puts the event into the tree. */
    method Start(ev: Event, key: int, ghost t: int)
      requires Valid() && Mine(ev) && !ev.timerSet && plan.Window(t) && key == Wrap(t)
      modifies tree`root, tree`order, owner.Keys, ev`timerSet, `plan
      ensures Valid() && ev.timerSet && plan == old(plan).Put(ev.timer, t)
      ensures forall n :: n in tree.order <==> n in old(tree.order) || n == ev.timer
    {
      OwnNodes();
      Enqueue(ev.timer, key, t);
      Flag(ev, true);
    }

    ghost method Keep(ev: Event, t: int)
      requires Valid() && Mine(ev) && plan.Window(t) && plan.Near(ev.timer, t)
      modifies `plan
      ensures Valid() && plan == old(plan).Ask(ev.timer, t)
    {
      plan.AskGood(ev.timer, t);
      plan := plan.Ask(ev.timer, t);
    }

    method Restart(ev: Event, key: int, ghost t: int)
      requires Valid() && Mine(ev) && plan.Window(t) && key == Wrap(t) && !plan.Near(ev.timer, t)
      modifies tree`root, tree`order, owner.Keys, tree.sentinel`parent, tree.sentinel`red, ev`timerSet, `plan
      ensures Valid() && ev.timerSet && plan == old(plan).Ask(ev.timer, t)
    {
      Stop(ev);
      Start(ev, key, t);
    }

    /** The signed difference of the keys decides whether the set timer is near enough to keep. */
    lemma CompareByKeys(ev: Event, key: int, t: int)
      requires Valid() && Mine(ev) && plan.Window(t) && key == Wrap(t)
      ensures ev.timerSet && NearKeys(key, ev.timer.key) <==> plan.Near(ev.timer, t)
    {
      if ev.timerSet {
        assert plan.Dated(ev.timer);
        NearTells(t, plan.due[ev.timer]);
      }
    }

    /** ngx_event_add_timer: a timer already set to nearly the same moment is left alone. */
    method AddTimer(ev: Event, timer: int)
      requires Valid() && Mine(ev) && 0 <= timer && plan.Window(plan.Deadline(timer))
      modifies tree`root, tree`order, owner.Keys, tree.sentinel`parent, tree.sentinel`red, ev`timerSet, `plan
      ensures Valid() && ev.timerSet && plan == old(plan).Ask(ev.timer, old(plan).Deadline(timer))
      ensures ev.timer in plan.due && ev.timer in plan.asked && plan.asked[ev.timer] == old(plan.clock) + timer
      ensures if old(ev.timerSet && ev.timer in plan.due && -300 < plan.due[ev.timer] - (plan.clock + timer) < 300)
              then plan.due == old(plan.due) && tree.order == old(tree.order)
              else plan.due[ev.timer] == old(plan.clock) + timer && ev.timer.key == (old(plan.clock) + timer) % 0x1_0000_0000_0000_0000
    {
      var key := Wrap(now + timer);
      ghost var t := plan.Deadline(timer);
      WrapAdds(plan.clock, timer);
      CompareByKeys(ev, key, t);
      if ev.timerSet && NearKeys(key, ev.timer.key) {
        Keep(ev, t);
      } else {
        Restart(ev, key, t);
      }
    }

    /** However often a timer was asked for again, what is stored is less than LAZY_DELAY from the last request. */
    lemma LazyUpdatesDoNotDrift(ev: Event)
      requires Valid() && Mine(ev) && ev.timerSet
      ensures ev.timer in plan.due && ev.timer in plan.asked
      ensures -300 < plan.due[ev.timer] - plan.asked[ev.timer] < 300
      ensures ev.timer.key == plan.due[ev.timer] % 0x1_0000_0000_0000_0000
    {
      assert plan.Dated(ev.timer);
    }

    /** The event of the earliest timer, if it is due. */
    method FirstDue() returns (ev: Event?)
      requires Valid()
      ensures Valid()
      ensures ev == null ==> forall n :: n in tree.order ==> plan.clock < plan.due[n]
      ensures ev != null ==> tree.order != [] && ev.timer == tree.order[0] && Mine(ev) && ev.timerSet && plan.IsDue(tree.order[0])
    {
      if tree.root == tree.sentinel {
        return null;
      }
      assert tree.Shape(tree.root);
      var node := tree.Min(tree.root);
      assert node == tree.order[0] && plan.Dated(node);
      SignedDifference(plan.due[node], plan.clock);
      ev := if Signed(node.key - now) <= 0 then owner[node] else null;
      forall n | n in tree.order && ev == null ensures plan.clock < plan.due[n] {
        if n != node {
          plan.FirstIsLeast(n);
        }
      }
    }

    /** The earliest timer fires. */
    method Fire(ev: Event)
      requires Valid() && tree.order != [] && ev.timer == tree.order[0] && Mine(ev) && ev.timerSet
      modifies tree`root, tree`order, owner.Keys, tree.sentinel`parent, tree.sentinel`red
      modifies ev`timerSet, ev`timedout, `plan
      ensures Valid() && plan == old(plan).Fire() && ev.timedout && !ev.timerSet
    {
      DelTimer(ev);
      TimedOut(ev);
    }

    method TimedOut(ev: Event)
      requires Valid()
      modifies ev`timedout
      ensures Valid() && ev.timedout
    {
      ev.timedout := true;
    }

    /** Do what a handler asks for. */
    method Do(a: Action)
      requires Valid() && Mine(a.ev) && plan.Allows(a)
      modifies tree`root, tree`order, owner.Keys, tree.sentinel`parent, tree.sentinel`red, owner.Values`timerSet, `plan
      ensures Valid() && plan == old(plan).Act(a)
    {
      assert a.ev in owner.Values;
      if a.Add? {
        AddTimer(a.ev, a.timer);
      } else {
        Stop(a.ev);
      }
    }

    ghost predicate AllMine(h: seq<Action>)
      reads `owner
    {
      forall i :: 0 <= i < |h| ==> Mine(h[i].ev)
    }

    /** Run a handler. */
    method Handle(h: seq<Action>)
      requires Valid() && AllMine(h) && plan.AllowsAll(h)
      modifies tree`root, tree`order, owner.Keys, tree.sentinel`parent, tree.sentinel`red, owner.Values`timerSet, `plan
      ensures Valid() && plan == old(plan).Run(h)
    {
      ghost var p := plan;
      for i := 0 to |h|
        invariant Valid() && p.AllowsAll(h[..i]) && plan == p.Run(h[..i])
      {
        p.RunStep(h, i);
        Do(h[i]);
      }
      assert h[..|h|] == h;
    }

    /** One round of the expiry loop. */
    method ExpireOne(h: seq<Action>) returns (ev: Event?)
      requires Valid() && AllMine(h) && plan.AllowsAll(h)
      modifies tree`root, tree`order, owner.Keys, tree.sentinel`parent, tree.sentinel`red
      modifies owner.Values`timerSet, owner.Values`timedout, `plan
      ensures Valid()
      ensures ev == null ==> plan == old(plan) && forall n :: n in tree.order ==> plan.clock < plan.due[n]
      ensures ev != null ==> Round(old(plan), h, plan) && Mine(ev) && ev.timer == old(plan.order[0])
      ensures forall e :: e in owner.Values ==> e.timedout == (old(e.timedout) || e == ev)
    {
      ev := FirstDue();
      if ev != null {
        assert ev in owner.Values;
        plan.FireGood();
        Fire(ev);
        Handle(h);
      }
    }

    /** Where the expiry loop stands: the rounds so far led from the start to the present plan. */
    ghost predicate Expiring(start: Plan, trace: seq<Plan>, handlers: seq<seq<Action>>, fired: seq<Event>)
      reads `owner, `plan
    {
      && Rounds(trace, handlers) && FiredFirst(trace, fired) && trace[0] == start && trace[|fired|] == plan
      && AllAllowed(plan, handlers) && (forall i :: 0 <= i < |handlers| ==> AllMine(handlers[i]))
      && (forall e :: e in fired ==> Mine(e))
    }

    /** The events timed out are those that were before, and those fired. */
    ghost predicate Flagged(before: set<Event>, fired: seq<Event>)
      reads `owner, owner.Values`timedout
    {
      forall e :: e in owner.Values ==> (e.timedout <==> e in before || e in fired)
    }

    twostate lemma FlaggedGrows(new before: set<Event>, new fired: seq<Event>, new ev: Event)
      requires owner == old(owner) && forall e :: e in owner.Values ==> (old(e.timedout) <==> e in before || e in fired)
      requires forall e :: e in owner.Values ==> e.timedout == (old(e.timedout) || e == ev)
      ensures Flagged(before, fired + [ev])
    {
    }

    method ExpireNext(handlers: seq<seq<Action>>, fired: seq<Event>, ghost before: set<Event>, ghost start: Plan, ghost trace: seq<Plan>)
      returns (more: bool, fired': seq<Event>, ghost trace': seq<Plan>)
      requires Valid() && Expiring(start, trace, handlers, fired) && Flagged(before, fired)
      modifies tree`root, tree`order, owner.Keys, tree.sentinel`parent, tree.sentinel`red
      modifies owner.Values`timerSet, owner.Values`timedout, `plan
      ensures Valid() && Expiring(start, trace', handlers, fired') && Flagged(before, fired')
      ensures if more then |plan.DueSet()| < |old(plan).DueSet()| else forall n :: n in tree.order ==> plan.clock < plan.due[n]
    {
      var ev := ExpireOne(HandlerAt(handlers, |fired|));
      if ev == null {
        return false, fired, trace;
      }
      FlaggedGrows(before, fired, ev);
      RoundsGrow(trace, handlers, fired, plan, ev);
      return true, fired + [ev], trace + [plan];
    }

    /** ngx_event_expire_timers, the i-th timer that fires having the i-th handler. */
    method ExpireTimers(handlers: seq<seq<Action>>) returns (fired: seq<Event>, ghost trace: seq<Plan>)
      requires Valid() && AllAllowed(plan, handlers) && forall i :: 0 <= i < |handlers| ==> AllMine(handlers[i])
      modifies tree`root, tree`order, owner.Keys, tree.sentinel`parent, tree.sentinel`red
      modifies owner.Values`timerSet, owner.Values`timedout, `plan
      ensures Valid() && Rounds(trace, handlers) && trace[0] == old(plan) && trace[|trace| - 1] == plan
      ensures FiredFirst(trace, fired) && forall e :: e in fired ==> Mine(e)
      ensures InTurn(old(plan), fired) && Accounted(trace, handlers)
      ensures forall n :: n in tree.order ==> plan.clock < plan.due[n]
      ensures forall e :: e in owner.Values ==> e.timedout == (old(e.timedout) || e in fired)
    {
      ghost var before := set e | e in owner.Values && e.timedout;
      fired, trace := [], [plan];
      var more := true;
      while more
        invariant Valid() && Expiring(old(plan), trace, handlers, fired) && Flagged(before, fired)
        invariant !more ==> forall n :: n in tree.order ==> plan.clock < plan.due[n]
        decreases more, |plan.DueSet()|
      {
        more, fired, trace := ExpireNext(handlers, fired, before, old(plan), trace);
      }
      ExpiryIsComplete(trace, handlers, fired);
    }
  }

  lemma OneTimer(trace: seq<Plan>, fired: seq<Event>, n: Node)
    requires Rounds(trace, []) && FiredFirst(trace, fired) && trace[0].order == [n] && n in trace[0].due && n in trace[0].stamp
    requires forall m :: m in trace[|fired|].order ==> !trace[|fired|].IsDue(m)
    ensures |fired| == (if trace[0].due[n] <= trace[0].clock then 1 else 0) && (fired != [] ==> fired[0].timer == n)
  {
    IdleHandlersFireFront(trace, [], |fired|);
    if fired != [] {
      assert FiresAt(trace, fired[0].timer, 0) && RoundAt(trace, [], 0);
    } else {
      assert !trace[0].IsDue(n);
    }
  }

  /** A timer set in an empty queue is the delay that is found ... */
  method SetAlone(t: EventTimers, ev: Event, timer: int) returns (delay: int)
    requires t.Valid() && t.Mine(ev) && t.tree.order == [] && 0 <= timer && t.plan.Window(t.plan.clock + timer)
    modifies t`plan, t.tree`root, t.tree`order, t.owner.Keys, t.tree.sentinel`parent, t.tree.sentinel`red, ev`timerSet
    ensures t.Valid() && delay == timer
    ensures t.plan.order == [ev.timer] && ev.timer in t.plan.due && t.plan.due[ev.timer] == t.plan.clock + timer
    ensures t.plan.clock == old(t.plan.clock) && t.plan.base == old(t.plan.base)
  {
    t.plan.AskAlone(ev.timer, t.plan.Deadline(timer));
    t.AddTimer(ev, timer);
    delay := t.FindTimer();
  }

  /** ... and it fires that much later, and not before. */
  method WaitAlone(t: EventTimers, ev: Event, msec: int) returns (fired: seq<Event>)
    requires t.Valid() && t.Mine(ev) && t.plan.order == [ev.timer] && 0 <= msec && t.plan.clock + msec < t.plan.base + HALF
    modifies t`plan, t`now, t.tree`root, t.tree`order, t.owner.Keys, t.tree.sentinel`parent, t.tree.sentinel`red
    modifies t.owner.Values`timerSet, t.owner.Values`timedout
    ensures fired == if old(t.plan.due[ev.timer]) <= old(t.plan.clock) + msec then [ev] else []
  {
    t.Tick(msec, t.plan.base);
    fired := ExpireAlone(t, ev);
  }

  method ExpireAlone(t: EventTimers, ev: Event) returns (fired: seq<Event>)
    requires t.Valid() && t.Mine(ev) && t.plan.order == [ev.timer]
    modifies t`plan, t.tree`root, t.tree`order, t.owner.Keys, t.tree.sentinel`parent, t.tree.sentinel`red
    modifies t.owner.Values`timerSet, t.owner.Values`timedout
    ensures fired == if old(t.plan.due[ev.timer] <= t.plan.clock) then [ev] else []
  {
    assert ev.timer in t.plan.order;
    ghost var trace;
    fired, trace := t.ExpireTimers([]);
    OneTimer(trace, fired, ev.timer);
    if fired != [] {
      assert fired[0] in fired;
      assert fired[0] == ev;
    }
  }
}
