/** ngx_ssl_send_chain of src/event/ngx_event_openssl.c: no byte is lost, repeated or reordered. */
module SslOutput {
  import opened Bytes

  /** NGX_SSL_BUFSIZE */
  const BUFSIZE: int := 16384
  /** NGX_MAX_INT32_VALUE - ngx_pagesize */
  const MAX_LIMIT: int := 0x7fff_ffff - 4096

  /** A buffer of the output chain; bytes[pos..] is still to be sent. A special one carries flags only. */
  datatype RawBuf = Buf(bytes: seq<byte>, pos: nat, lastBuf: bool, flush: bool, special: bool) {
    predicate Ok() {
      pos <= |bytes| && (special ==> pos == |bytes|)
    }
  }
  type Buf = b: RawBuf | b.Ok() witness Buf([], 0, false, false, true)

  /** The bytes left in a chain. */
  function Pending(chain: seq<Buf>): seq<byte>
  {
    if chain == [] then [] else Left(chain[0]) + Pending(chain[1..])
  }

  function Left(b: Buf): seq<byte> {
    b.bytes[b.pos..]
  }

  /** The next n bytes. */
  function Front(b: Buf, n: nat): seq<byte>
    requires b.pos + n <= |b.bytes|
  {
    b.bytes[b.pos..b.pos + n]
  }

  /** The buffer with these bytes behind it. */
  function Behind(b: Buf, n: nat): Buf
    requires b.pos + n <= |b.bytes| && !b.special
  {
    Buf(b.bytes, b.pos + n, b.lastBuf, b.flush, false)
  }

  lemma PendingCons(b: Buf, tail: seq<Buf>)
    ensures Pending([b] + tail) == Left(b) + Pending(tail)
  {
    assert ([b] + tail)[1..] == tail;
  }

  lemma {:induction false} PendingAppends(a: seq<Buf>, b: seq<Buf>)
    ensures Pending(a + b) == Pending(a) + Pending(b)
  {
    if a == [] {
      assert a + b == b;
    } else {
      assert (a + b)[1..] == a[1..] + b;
      PendingAppends(a[1..], b);
    }
  }

  /** The chain is empty, as in a flush call, or ends in a buffer that asks for a flush. */
  predicate AsksFlush(chain: seq<Buf>) {
    chain == [] || chain[|chain| - 1].lastBuf || chain[|chain| - 1].flush
  }

  /** No buffer asks for a flush. */
  predicate NoFlush(chain: seq<Buf>) {
    forall i :: 0 <= i < |chain| ==> !chain[i].lastBuf && !chain[i].flush
  }

  /** in->buf->pos += n, and in = in->next once the buffer is used up. */
  function Advance(chain: seq<Buf>, n: nat): (rest: seq<Buf>)
    requires chain != [] && !chain[0].special && chain[0].pos + n <= |chain[0].bytes|
    ensures |rest| <= |chain| && (n == |chain[0].bytes| - chain[0].pos ==> |rest| < |chain|)
    ensures if rest == [] then |chain| == 1 else AsksFlush(rest) <==> AsksFlush(chain)
  {
    var b := chain[0];
    if b.pos + n == |b.bytes| then chain[1..]
    else [Behind(b, n)] + chain[1..]
  }

  lemma LeftSplits(b: Buf, n: nat)
    requires b.pos + n <= |b.bytes| && !b.special
    ensures Left(b) == Front(b, n) + Left(Behind(b, n))
  {
  }

  /** The bytes advanced over are the first ones that were pending. */
  lemma AdvanceSplits(chain: seq<Buf>, n: nat)
    requires chain != [] && !chain[0].special && chain[0].pos + n <= |chain[0].bytes|
    ensures Pending(chain) == Front(chain[0], n) + Pending(Advance(chain, n))
  {
    var b, tail := chain[0], chain[1..];
    assert chain == [b] + tail;
    PendingCons(b, tail);
    if b.pos + n < |b.bytes| {
      PendingCons(Behind(b, n), tail);
      LeftSplits(b, n);
      Moved(Front(b, n), Left(Behind(b, n)), Pending(tail));
    }
  }

  lemma SkipSpecial(chain: seq<Buf>)
    requires chain != [] && chain[0].special
    ensures Pending(chain[1..]) == Pending(chain)
  {
    assert Left(chain[0]) == [];
  }

  lemma Moved(a: seq<byte>, b: seq<byte>, c: seq<byte>)
    ensures a + (b + c) == a + b + c && a <= a + b
  {}

  lemma AdvanceMoves(held: seq<byte>, chain: seq<Buf>, n: nat)
    requires chain != [] && !chain[0].special && chain[0].pos + n <= |chain[0].bytes|
    ensures var b := chain[0];
      held + Front(b, n) + Pending(Advance(chain, n)) == held + Pending(chain)
  {
    AdvanceSplits(chain, n);
    Moved(held, Front(chain[0], n), Pending(Advance(chain, n)));
  }

  lemma Refilled(w: seq<byte>, h: seq<byte>, p: seq<byte>, h': seq<byte>, p': seq<byte>)
    requires h + p == h' + p'
    ensures w + h + p == w + h' + p'
  {
    assert w + h + p == w + (h + p) && w + h' + p' == w + (h' + p');
  }

  /** What ngx_ssl_write may answer for a given size: some bytes taken, try later, or an error. */
  datatype Written = Wrote(n: nat) | Again | Error {
    predicate Possible(size: nat) {
      Wrote? ==> 0 < n <= size
    }
  }

  /** How a turn of the buffered loop ends. */
  datatype Verdict = Keep | Idle | Emptied | Blocked | Failed

  /** A write that was tried, and what came of it. */
  datatype Offer = Offer(size: nat, answer: Written)

  /** What SSL_write would answer to the n-th write of a connection, if it offers the given size. */
  type Library = (nat, nat) -> Written

  /** Each write got the library's answer; to take nothing, or more than was offered, is an error. */
  ghost predicate Told(library: Library, log: seq<Offer>) {
    forall i {:trigger log[i]} :: 0 <= i < |log| ==> Answers(library(i, log[i].size), log[i])
  }

  predicate Answers(said: Written, o: Offer) {
    o.answer == if said.Possible(o.size) then said else Error
  }

  /** The library takes all it is offered. */
  ghost predicate Eager(library: Library) {
    forall k: nat, n: nat :: n > 0 ==> library(k, n) == Wrote(n)
  }

  lemma EagerTakesLast(library: Library, log: seq<Offer>, made: seq<Offer>)
    requires Eager(library) && Told(library, log + made) && OnlyLastShort(made) && made != []
    ensures Full(Last(made))
  {
    assert (log + made)[|log| + |made| - 1] == Last(made);
  }

  /** All that was offered was taken. */
  predicate Full(o: Offer) {
    o.answer == Wrote(o.size)
  }

  /** A list of offers of a buffer at most, all but the last taken in full. */
  ghost predicate OnlyLastShort(made: seq<Offer>) {
    && (forall i :: 0 <= i < |made| - 1 ==> Full(made[i]))
    && (forall i :: 0 <= i < |made| ==> 0 < made[i].size <= 16384)
  }

  ghost predicate AllFull(made: seq<Offer>) {
    forall i :: 0 <= i < |made| ==> Full(made[i]) && 0 < made[i].size <= 16384
  }

  lemma OneMore(log: seq<Offer>, made: seq<Offer>, m: seq<Offer>)
    requires AllFull(made) && (m == [] || (|m| == 1 && 0 < m[0].size <= 16384))
    ensures OnlyLastShort(made + m) && (m == [] ==> made + m == made) && log + made + m == log + (made + m)
    ensures m != [] ==> made + m != [] && Last(made + m) == m[0] == Last(m) && (Full(m[0]) ==> AllFull(made + m))
  {
  }

  function Last(made: seq<Offer>): Offer
    requires made != []
  {
    made[|made| - 1]
  }

  /** What the verdict says about the offers. */
  predicate Ended(v: Verdict, made: seq<Offer>) {
    match v
    case Keep | Idle => made == [] || Full(Last(made))
    case Emptied => made != [] && Full(Last(made))
    case Blocked => made != [] && !Last(made).answer.Error? && !Full(Last(made))
    case Failed => made != [] && Last(made).answer.Error?
  }

  /** Nothing asks for a flush, and all of the chain goes into the buffer and stays below the limit. */
  predicate Fits(chain: seq<Buf>, flushing: bool, last: nat, sending: nat, limit: int) {
    !flushing && NoFlush(chain) && last + |Pending(chain)| < 16384 && sending + |Pending(chain)| < limit
  }

  class Connection {
    /** c->ssl->buffer */
    const buffer: bool
    const library: Library
    /** The number of writes tried. */
    var writes: nat
    var sent: nat
    var buffered: bool
    var mem: array?<byte>
    var pos: nat
    var last: nat
    var flush: bool
    /** Everything the connection has taken so far, and every write that was tried. */
    ghost var wire: seq<byte>
    ghost var log: seq<Offer>

    ghost predicate Valid()
      reads this
    {
      && sent == |wire|
      && writes == |log| && Told(library, log)
      && (if mem == null then pos == last == 0 else mem.Length == BUFSIZE && pos <= last <= BUFSIZE && (pos == last ==> last == 0))
      && (!buffer ==> mem == null && !buffered)
    }

    /** The bytes copied but not written. */
    ghost function Held(): seq<byte>
      requires Valid()
      reads this, mem
    {
      if mem == null then [] else mem[pos..last]
    }

    /** Everything written, held and still to be sent, in order. */
    ghost function Stream(chain: seq<Buf>): seq<byte>
      requires Valid()
      reads this, mem
    {
      wire + Held() + Pending(chain)
    }

    /** The bytes written and held. */
    ghost function Out(): nat
      requires Valid()
      reads this, mem
    {
      |wire| + |Held()|
    }

    constructor (buffer: bool, library: Library)
      ensures Valid() && wire == [] && log == [] && Held() == [] && !buffered && !flush
      ensures this.buffer == buffer && this.library == library
    {
      this.buffer, this.library := buffer, library;
      writes, sent, buffered, mem, pos, last, flush, wire, log := 0, 0, false, null, 0, 0, false, [], [];
    }

    /** ngx_ssl_write: the library takes some of the bytes, asks to try later, or fails. */
    method SslWrite(size: nat) returns (r: Written)
      requires Valid()
      modifies this`writes, this`log
      ensures Valid() && log == old(log) + [Offer(size, r)]
      ensures var said := library(|old(log)|, size); r == if said.Wrote? && (said.n == 0 || said.n > size) then Error else said
    {
      r := library(writes, size);
      if !r.Possible(size) {
        r := Error;
      }
      writes, log := writes + 1, log + [Offer(size, r)];
    }

    /** The path without buffering. */
    method SendDirect(chain: seq<Buf>) returns (rest: seq<Buf>, ok: bool, ghost made: seq<Offer>)
      requires Valid() && !buffer
      modifies this`sent, this`wire, this`writes, this`log
      ensures Valid() && old(wire) <= wire && log == old(log) + made
      ensures wire + Pending(rest) == old(wire) + Pending(chain)
      ensures ok <==> made == [] || !Last(made).answer.Error?
      ensures ok && rest != [] ==> made != [] && Last(made) == Offer(|Left(rest[0])|, Again)
    {
      rest, ok, made := chain, true, [];
      while rest != []
        invariant Valid() && old(wire) <= wire && log == old(log) + made
        invariant made == [] || Last(made).answer.Wrote?
        invariant wire + Pending(rest) == old(wire) + Pending(chain)
        decreases |rest| + |Pending(rest)|
      {
        if rest[0].special {
          SkipSpecial(rest);
          rest := rest[1..];
          continue;
        }
        var r;
        ghost var before := rest;
        rest, r := WriteFirst(rest);
        made := made + [Offer(|Left(before[0])|, r)];
        if !r.Wrote? {
          ok := r.Again?;
          return;
        }
      }
    }

    /** One ngx_ssl_write of what is left of the first buffer. */
    method WriteFirst(chain: seq<Buf>) returns (rest: seq<Buf>, r: Written)
      requires Valid() && !buffer && chain != [] && !chain[0].special
      modifies this`sent, this`wire, this`writes, this`log
      ensures Valid() && old(wire) <= wire && log == old(log) + [Offer(|Left(chain[0])|, r)]
      ensures wire + Pending(rest) == old(wire) + Pending(chain)
      ensures if r.Wrote? then |rest| <= |chain| && |Pending(rest)| < |Pending(chain)| else rest == chain && wire == old(wire)
    {
      var b := chain[0];
      rest := chain;
      r := SslWrite(|b.bytes| - b.pos);
      if r.Wrote? {
        ghost var done := Front(b, r.n);
        AdvanceSplits(chain, r.n);
        rest := Advance(chain, r.n);
        Moved(wire, done, Pending(rest));
        sent, wire := sent + r.n, wire + done;
      }
    }

    /** memcpy of the first `size` bytes of b to the end of the buffer. */
    method Copy(b: Buf, size: nat)
      requires Valid() && mem != null && b.pos + size <= |b.bytes| && last + size <= BUFSIZE
      modifies this`last, mem
      ensures Valid() && last == old(last) + size
      ensures Held() == old(Held()) + Front(b, size)
    {
      forall i | 0 <= i < size {
        mem[last + i] := b.bytes[b.pos + i];
      }
      assert mem[pos..last] == old(mem[pos..last]);
      assert mem[last..last + size] == Front(b, size);
      last := last + size;
      assert mem[pos..last] == mem[pos..old(last)] + mem[old(last)..last];
    }

    /** The size of a copy: what is there, what there is room for, or what the limit allows. */
    static method Portion(there: nat, room: nat, allowed: nat) returns (size: nat)
      ensures size <= there && size <= room && size <= allowed && (size == there || size == room || size == allowed)
    {
      size := there;
      if size > room {
        size := room;
      }
      if size > allowed {
        size := allowed;
      }
    }

    /** One turn of the copying loop on a buffer with data. */
    method CopyFirst(chain: seq<Buf>, send: nat, limit: int) returns (rest: seq<Buf>, size: nat)
      requires Valid() && mem != null && chain != [] && !chain[0].special && last < BUFSIZE && send < limit
      modifies this`last, mem
      ensures Valid() && last == old(last) + size && send + size <= limit
      ensures Held() + Pending(rest) == old(Held()) + Pending(chain)
      ensures |rest| < |chain| || (|rest| == |chain| && (last == BUFSIZE || send + size == limit))
      ensures if rest == [] then |chain| == 1 else AsksFlush(rest) <==> AsksFlush(chain)
      ensures NoFlush(chain) ==> NoFlush(rest)
    {
      var b := chain[0];
      size := Portion(|b.bytes| - b.pos, BUFSIZE - last, limit - send);
      AdvanceMoves(Held(), chain, size);
      Copy(b, size);
      rest := Advance(chain, size);
    }

    /** The copying loop: stops when the chain ends, the buffer is full or the limit is reached. */
    method Fill(chain: seq<Buf>, sending: nat, limit: int, flushing: bool)
      returns (rest: seq<Buf>, send: nat, flush': bool)
      requires Valid() && mem != null
      modifies this`last, mem
      ensures Valid() && last >= old(last)
      ensures Held() + Pending(rest) == old(Held()) + Pending(chain)
      ensures rest == [] || last == BUFSIZE || send >= limit
      ensures send - sending == last - old(last) && (send <= limit || send == sending)
      ensures (flushing ==> flush') && |rest| <= |chain|
      ensures if rest == [] then AsksFlush(chain) ==> chain == [] || flush' else AsksFlush(rest) <==> AsksFlush(chain)
      ensures !flushing && NoFlush(chain) ==> !flush'
    {
      rest, send, flush' := chain, sending, flushing;
      while rest != [] && last < BUFSIZE && send < limit
        invariant Valid() && last >= old(last)
        invariant Held() + Pending(rest) == old(Held()) + Pending(chain)
        invariant send - sending == last - old(last) && (send <= limit || send == sending)
        invariant (flushing ==> flush') && |rest| <= |chain|
        invariant if rest == [] then AsksFlush(chain) ==> chain == [] || flush' else AsksFlush(rest) <==> AsksFlush(chain)
        invariant !flushing && NoFlush(chain) ==> NoFlush(rest) && !flush'
        decreases |rest|, BUFSIZE - last, limit - send
      {
        if rest[0].lastBuf || rest[0].flush {
          flush' := true;
        }
        if rest[0].special {
          SkipSpecial(rest);
          rest := rest[1..];
          continue;
        }
        var size;
        rest, size := CopyFirst(rest, send, limit);
        send := send + size;
      }
    }

    /** One ngx_ssl_write of the whole buffer, and the buffer reset after a full write. */
    method Drain() returns (r: Written)
      requires Valid() && mem != null && pos < last
      modifies this`sent, this`wire, this`pos, this`last, this`writes, this`log
      ensures Valid() && old(wire) <= wire && wire + Held() == old(wire + Held())
      ensures r.Possible(old(last - pos)) && log == old(log) + [Offer(old(last - pos), r)]
      ensures r.Wrote? && r.n == old(last - pos) ==> Held() == [] && last == 0
      ensures if r.Wrote? then |wire| == |old(wire)| + r.n else wire == old(wire) && pos == old(pos) && last == old(last)
    {
      var size := last - pos;
      r := SslWrite(size);
      if r.Wrote? {
        assert mem[pos..last] == mem[pos..pos + r.n] + mem[pos + r.n..last];
        Moved(wire, mem[pos..pos + r.n], mem[pos + r.n..last]);
        wire := wire + mem[pos..pos + r.n];
        pos, sent := pos + r.n, sent + r.n;
        if r.n == size {
          pos, last := 0, 0;
        }
      }
    }

    /** The storage of the 16K buffer, allocated on first use. */
    method Storage()
      requires Valid() && buffer
      modifies this`mem
      ensures Valid() && mem != null && Held() == old(Held()) && (mem == old(mem) || fresh(mem))
    {
      if mem == null {
        mem := new byte[BUFSIZE];
      }
    }

    /** One turn of the outer loop: fill the buffer, then write it if it must be written. */
    method Turn(chain: seq<Buf>, sending: nat, limit: int, flushing: bool)
      returns (rest: seq<Buf>, send: nat, flush': bool, v: Verdict, ghost made: seq<Offer>)
      requires Valid() && mem != null && (chain == [] ==> flushing)
      modifies this`sent, this`wire, this`pos, this`last, this`writes, this`log, mem
      ensures Valid() && old(wire) <= wire && |rest| <= |chain| && log == old(log) + made
      ensures made == [] || (|made| == 1 && 0 < made[0].size <= 16384)
      ensures Ended(v, made) && (v == Keep || v == Idle ==> made == [])
      ensures Stream(rest) == old(Stream(chain)) && send - sending == Out() - old(Out()) && (send <= limit || send == sending)
      ensures rest != [] ==> (AsksFlush(rest) <==> AsksFlush(chain))
      ensures match v
        case Keep => !flush' && send < limit && rest == [] && !AsksFlush(chain) && !flushing
        case Idle => Held() == [] && (rest == [] || send >= limit) && old(Held()) == []
        case Emptied => Held() == [] && !flush' && |wire| > old(|wire|)
        case Blocked => Held() != [] && ((rest == [] && AsksFlush(chain)) || flushing ==> flush')
        case Failed => Held() != []
      ensures Fits(chain, flushing, old(last), sending, limit) ==> v == Keep
    {
      made := [];
      ghost var held, left := Held(), Pending(chain);
      rest, send, flush' := Fill(chain, sending, limit, flushing);
      Refilled(wire, held, left, Held(), Pending(rest));
      if !flush' && send < limit && last < BUFSIZE {
        v := Keep;
      } else if last == pos {
        v := Idle;
      } else {
        var size := last - pos;
        var r := Drain();
        made := [Offer(size, r)];
        if r.Error? {
          v := Failed;
        } else if r.Again? || r.n < size {
          v := Blocked;
        } else {
          v, flush' := Emptied, false;
        }
      }
    }

    /** The loop: it stops at the first turn that did not empty the buffer, at the end of the chain or at the limit. */
    method Cycle(chain: seq<Buf>, limit: int, flushing: bool)
      returns (rest: seq<Buf>, send: nat, flush': bool, v: Verdict, ghost made: seq<Offer>)
      requires Valid() && mem != null && (chain == [] ==> flushing)
      modifies this`sent, this`wire, this`pos, this`last, this`writes, this`log, mem
      ensures Valid() && old(wire) <= wire && log == old(log) + made && OnlyLastShort(made) && Ended(v, made)
      ensures Stream(rest) == old(Stream(chain)) && send - old(last - pos) == Out() - old(Out())
      ensures send <= limit || send == old(last - pos)
      ensures match v
        case Keep => !flush' && rest == [] && !AsksFlush(chain)
        case Idle => Held() == [] && (rest == [] || send >= limit)
        case Emptied => Held() == [] && !flush' && (rest == [] || send == limit)
        case Blocked => Held() != [] && (rest == [] && AsksFlush(chain) ==> flush')
        case Failed => true
      ensures flushing ==> old(Held()) == [] || made != []
      ensures Fits(chain, flushing, old(last), old(last - pos), limit) ==> v == Keep && made == []
    {
      rest, flush', v, made := chain, flushing, Emptied, [];
      var count := last - pos;
      ghost var start := Stream(chain);
      while true
        invariant Valid() && old(wire) <= wire && log == old(log) + made && AllFull(made)
        invariant Stream(rest) == start && count - old(last - pos) == Out() - old(Out())
        invariant count <= limit || count == old(last - pos)
        invariant rest == [] ==> flush'
        invariant AsksFlush(rest) <==> AsksFlush(chain)
        invariant made == [] ==>
          rest == chain && last == old(last) && Held() == old(Held()) && flush' == flushing && count == old(last - pos)
        invariant Fits(chain, flushing, old(last), old(last - pos), limit) ==> made == []
        invariant |wire| <= |start|
        decreases |start| - |wire|
      {
        ghost var m;
        rest, count, flush', v, m := Turn(rest, count, limit, flush');
        OneMore(old(log), made, m);
        made := made + m;
        if v != Emptied || rest == [] || count == limit {
          break;
        }
      }
      send := count;
    }

    /** The path with buffering, once the storage is there. */
    method SendThrough(chain: seq<Buf>, limit: int)
      returns (rest: seq<Buf>, ok: bool, ghost send: nat, ghost made: seq<Offer>)
      requires Valid() && buffer && mem != null
      modifies this`sent, this`wire, this`pos, this`last, this`flush, this`buffered, this`writes, this`log, mem
      ensures Valid() && old(wire) <= wire && log == old(log) + made && OnlyLastShort(made)
      ensures wire + Held() + Pending(rest) == old(wire + Held()) + Pending(chain)
      ensures ok ==> (buffered <==> Held() != [])
      ensures ok <==> made == [] || !Last(made).answer.Error?
      ensures ok && (made == [] || Full(Last(made))) ==> send >= limit || (rest == [] && (AsksFlush(chain) ==> Held() == []))
      ensures ok && made != [] && !Full(Last(made)) && rest == [] && AsksFlush(chain) ==> flush
      ensures ok && Held() == [] ==> !flush
      ensures !ok ==> flush == old(flush) && buffered == old(buffered)
      ensures old(flush) || chain == [] ==> old(Held()) == [] || made != []
      ensures chain != [] && Fits(chain, old(flush), old(last), old(last - pos), limit) ==> made == [] && rest == [] && !flush
      ensures send == |wire| + |Held()| - |old(wire)| && (send <= limit || send == |old(Held())|)
    {
      var flush', v;
      rest, send, flush', v, made := Cycle(chain, limit, if chain == [] then true else flush);
      ok := v != Failed;
      if v == Idle {
        flush, buffered := false, false;
      } else if ok {
        flush, buffered := flush', pos < last;
      }
    }

    /**
     * ngx_ssl_send_chain. The writes made in the call are all taken in full, except perhaps the last one, and only what
     * came of that one may keep the call from finishing. A flush that could not be finished is remembered, and
     * tried again by the next call; a chain that fits into the buffer and asks for no flush is kept there.
     */
    method SendChain(chain: seq<Buf>, limit: int) returns (rest: seq<Buf>, ok: bool, ghost made: seq<Offer>)
      requires Valid()
      modifies this, mem
      ensures Valid() && old(wire) <= wire && log == old(log) + made && (mem == old(mem) || fresh(mem))
      ensures wire + Held() + Pending(rest) == old(wire + Held()) + Pending(chain)
      ensures sent - old(sent) == |wire| - |old(wire)|
      ensures ok ==> (buffered <==> Held() != [])
      ensures ok <==> made == [] || !made[|made| - 1].answer.Error?
      ensures ok && (made == [] || made[|made| - 1].answer == Wrote(made[|made| - 1].size)) ==>
        || (rest == [] && (AsksFlush(chain) || !buffer ==> Held() == []))
        || (buffer && |wire| + |Held()| - |old(wire)| >= if limit == 0 || limit > 0x7fff_ffff - 4096 then 0x7fff_ffff - 4096 else limit)
      ensures buffer ==>
        || |wire| + |Held()| - |old(wire)| <= (if limit == 0 || limit > 0x7fff_ffff - 4096 then 0x7fff_ffff - 4096 else limit)
        || |wire| + |Held()| == |old(wire)| + |old(Held())|
      ensures buffer && Eager(library) ==> made == [] || made[|made| - 1].answer == Wrote(made[|made| - 1].size)
      ensures !buffer && ok && rest != [] ==> made != [] && made[|made| - 1].answer.Again?
      ensures buffer ==> OnlyLastShort(made)
      ensures !ok ==> flush == old(flush) && buffered == old(buffered)
      ensures buffer && ok && made != [] && made[|made| - 1].answer != Wrote(made[|made| - 1].size) && rest == [] && AsksFlush(chain) ==> flush
      ensures buffer && (old(flush) || chain == []) ==> old(Held()) == [] || made != []
      ensures
        buffer && !old(flush) && chain != [] && NoFlush(chain) && old(Held()) == [] && |Pending(chain)| < 16384 && (limit == 0 || |Pending(chain)| < limit) ==>
        made == [] && rest == [] && !flush
    {
      if !buffer {
        rest, ok, made := SendDirect(chain);
        assert wire + Held() == wire && old(wire + Held()) == old(wire);
        return;
      }
      var limit' := if limit == 0 || limit > MAX_LIMIT then MAX_LIMIT else limit;
      Storage();
      ghost var send;
      rest, ok, send, made := SendThrough(chain, limit');
      if Eager(library) && made != [] {
        EagerTakesLast(library, old(log), made);
      }
    }

    /** One call, given what the last one left over followed by new output. */
    method SendRound(left: seq<Buf>, round: Round) returns (rest: seq<Buf>, ok: bool)
      requires Valid()
      modifies this, mem
      ensures Valid() && (mem == old(mem) || fresh(mem))
      ensures Stream(rest) == old(Stream(left)) + Pending(round.chain)
      ensures ok ==> (buffered <==> Held() != [])
      ensures !ok ==> log != [] && log[|log| - 1].answer.Error?
    {
      PendingAppends(left, round.chain);
      Moved(wire + Held(), Pending(left), Pending(round.chain));
      ghost var made;
      rest, ok, made := SendChain(left + round.chain, round.limit);
      assert made != [] ==> log[|log| - 1] == made[|made| - 1];
    }

    /**
     * Any number of calls, each given what the last one left over followed by new output: at every
     * point the bytes written, held and left over are the output so far, in order.
     */
    method Session(rounds: seq<Round>) returns (done: nat, left: seq<Buf>, ok: bool)
      requires Valid() && wire == [] && Held() == []
      modifies this, mem
      ensures Valid() && done <= |rounds| && (ok ==> done == |rounds|)
      ensures wire + Held() + Pending(left) == Output(rounds, done)
      ensures sent == |wire|
      ensures ok && done > 0 ==> (buffered <==> Held() != [])
      ensures !ok ==> log != [] && log[|log| - 1].answer.Error?
    {
      done, left, ok := 0, [], true;
      while done < |rounds|
        invariant Valid() && done <= |rounds| && ok && (mem == old(mem) || fresh(mem))
        invariant Stream(left) == Output(rounds, done)
        invariant done > 0 ==> (buffered <==> Held() != [])
      {
        ghost var more := Output(rounds, done + 1);
        left, ok := SendRound(left, rounds[done]);
        assert Stream(left) == more;
        done := done + 1;
        if !ok {
          return;
        }
      }
    }
  }

  datatype Round = Round(chain: seq<Buf>, limit: int)

  /** The bytes of the chains of the first k rounds, in order. */
  function Output(rounds: seq<Round>, k: nat): seq<byte>
    requires k <= |rounds|
  {
    if k == 0 then [] else Output(rounds, k - 1) + Pending(rounds[k - 1].chain)
  }
}
