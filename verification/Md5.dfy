/** How src/core/ngx_md5.c feeds a message to its compression function, for any such function. */
module BlockHash {
  import opened Bytes

  type Compression<!S> = (S, seq<byte>) -> S

  /** The state after the blocks of data. */
  function Absorb<S>(f: Compression<S>, s: S, data: seq<byte>): S
    requires |data| % 64 == 0
    decreases |data|
  {
    if data == [] then s else Absorb(f, f(s, data[..64]), data[64..])
  }

  function Zeros(n: nat): (z: seq<byte>)
    ensures |z| == n && forall i :: 0 <= i < n ==> z[i] == 0
  {
    seq(n, i => 0)
  }

  /** A one bit, zero bits up to 448 modulo 512, and the length, after u bytes of the last block. */
  function Padding(u: nat, length: seq<byte>): (p: seq<byte>)
    requires u < 64 && |length| == 8
    ensures (u + |p|) % 64 == 0
  {
    [0x80] + Zeros((119 - u) % 64) + length
  }

  /** Sections 3.1 and 3.2 of RFC 1321; the length is the number of bits modulo 2^64. */
  function Padded(m: seq<byte>): (p: seq<byte>)
    ensures |p| % 64 == 0
  {
    var end := Padding(|m| % 64, LittleEndian(8 * |m| % 0x1_0000_0000_0000_0000, 8));
    WholeBlocks(|m|, |end|);
    m + end
  }

  /**
   * What padding means: the message, a byte with its highest bit set, as few zero bytes as make the length
   * 56 modulo 64, and the number of bits modulo 2^64 in eight bytes, low byte first.
   */
  lemma PaddedIs(m: seq<byte>)
    ensures var p := Padded(m); var z := |p| - |m| - 9;
      && 0 <= z < 64 && |p| % 64 == 0 && p[..|m|] == m && p[|m|] == 0x80
      && (forall i :: |m| < i <= |m| + z ==> p[i] == 0)
      && Number(p[|m| + 1 + z..]) == 8 * |m| % 0x1_0000_0000_0000_0000
  {
    var p := Padded(m);
    var length := 8 * |m| % 0x1_0000_0000_0000_0000;
    assert Pow256(8) == 0x1_0000_0000_0000_0000;
    NumberOfBytes(length, 8);
    assert p[|p| - 8..] == LittleEndian(length, 8);
  }

  lemma {:induction false} AbsorbAppends<S>(f: Compression<S>, s: S, x: seq<byte>, y: seq<byte>)
    requires |x| % 64 == 0 && |y| % 64 == 0
    ensures |x + y| % 64 == 0 && Absorb(f, s, x + y) == Absorb(f, Absorb(f, s, x), y)
    decreases |x|
  {
    if x == [] {
      assert x + y == y;
    } else {
      assert |x| >= 64;
      AbsorbAppends(f, f(s, x[..64]), x[64..], y);
      assert (x + y)[..64] == x[..64] && (x + y)[64..] == x[64..] + y;
    }
  }

  lemma WholeBlocks(n: nat, k: nat)
    requires (n % 64 + k) % 64 == 0
    ensures (n + k) % 64 == 0
  {}

  lemma BlockLength(d: nat, t: nat)
    requires d % 64 == 0
    ensures (d + t) % 64 == t % 64
  {}

  /** The 64-bit byte count knows the position in the block even after it has wrapped. */
  lemma CountWraps(n: nat, k: nat)
    ensures n % 0x1_0000_0000_0000_0000 % 64 == n % 64
    ensures (n % 0x1_0000_0000_0000_0000 + k) % 0x1_0000_0000_0000_0000 == (n + k) % 0x1_0000_0000_0000_0000
  {}

  class Context<!S> {
    const f: Compression<S>
    const init: S
    var bytes: nat
    var state: S
    const buffer: array<byte>
    /** Everything fed in since the start: whole blocks, which are in the state, and a tail, which is in the buffer. */
    ghost var done: seq<byte>
    ghost var tail: seq<byte>

    ghost predicate Valid()
      reads this, buffer
    {
      && buffer.Length == 64
      && bytes == (|done| + |tail|) % 0x1_0000_0000_0000_0000
      && |done| % 64 == 0 && |tail| < 64
      && state == Absorb(f, init, done)
      && buffer[..|tail|] == tail
    }

    ghost function Message(): seq<byte>
      reads this
    {
      done + tail
    }

    /** ngx_md5_init */
    constructor (f: Compression<S>, init: S)
      ensures Valid() && Message() == [] && fresh(buffer) && this.f == f && this.init == init
    {
      this.f, this.init, bytes, state, done, tail := f, init, 0, init, [], [];
      buffer := new byte[64];
    }

    lemma Position()
      requires Valid()
      ensures bytes % 64 == |tail|
    {}

    /** The block loop of ngx_md5_body. */
    method Body(data: seq<byte>)
      requires |data| > 0 && |data| % 64 == 0
      modifies this`state
      ensures state == Absorb(f, old(state), data)
    {
      var p := 0;
      while p < |data|
        invariant 0 <= p <= |data| && p % 64 == 0
        invariant Absorb(f, state, data[p..]) == Absorb(f, old(state), data)
      {
        assert data[p..][..64] == data[p..p + 64] && data[p..][64..] == data[p + 64..];
        state := f(state, data[p..p + 64]);
        p := p + 64;
      }
    }

    /** ngx_memcpy into the buffer */
    method Store(at: nat, data: seq<byte>)
      requires buffer.Length == 64 && at + |data| <= 64
      modifies buffer
      ensures buffer[..at] == old(buffer[..at]) && buffer[at..at + |data|] == data
      ensures buffer[..at + |data|] == old(buffer[..at]) + data
    {
      forall i | 0 <= i < |data| {
        buffer[at + i] := data[i];
      }
    }

    /** The state takes in n bytes of whole blocks; the ghost parts move along. */
    method Take(data: seq<byte>)
      requires |data| > 0 && |data| % 64 == 0 && |done| % 64 == 0 && state == Absorb(f, init, done)
      modifies this`state, this`done
      ensures done == old(done) + data && |done| % 64 == 0 && state == Absorb(f, init, done)
    {
      Body(data);
      AbsorbAppends(f, init, done, data);
      done := done + data;
    }

    /** The state and the buffer hold done and tail; the byte count aside. */
    ghost predicate Holds()
      reads this`state, this`done, this`tail, buffer
    {
      && buffer.Length == 64 && |done| % 64 == 0 && |tail| < 64
      && state == Absorb(f, init, done) && buffer[..|tail|] == tail
    }

    /** The last part of ngx_md5_update, with nothing in the buffer. */
    method TakeBlocks(data: seq<byte>)
      requires Holds() && tail == []
      modifies this`state, this`done, this`tail, buffer
      ensures Holds() && done + tail == old(done) + data
    {
      var rest := data;
      if |rest| >= 64 {
        var n := |rest| - |rest| % 64;
        Take(rest[..n]);
        rest := rest[n..];
        assert old(done) + data[..n] + data[n..] == old(done) + data;
      }
      Store(0, rest);
      tail := rest;
    }

    /** The first part of ngx_md5_update: the buffer is filled up and taken in. */
    method FillUp(used: nat, data: seq<byte>)
      requires Holds() && used == |tail| && used + |data| == 64
      modifies this`state, this`done, this`tail, buffer
      ensures Holds() && tail == [] && done == old(done + tail) + data
    {
      Store(used, data);
      assert buffer[..] == tail + data;
      Take(buffer[..]);
      tail := [];
    }

    /** ngx_md5_update */
    method Update(data: seq<byte>)
      requires Valid()
      modifies this`bytes, this`state, this`done, this`tail, buffer
      ensures Valid() && Message() == old(Message()) + data
    {
      Position();
      CountWraps(|done| + |tail|, |data|);
      var used := bytes % 64;
      bytes := (bytes + |data|) % 0x1_0000_0000_0000_0000;
      if used > 0 && |data| < 64 - used {
        Store(used, data);
        tail := tail + data;
        assert done + tail == old(done + tail) + data;
        assert |done| + |tail| == old(|done| + |tail|) + |data|;
        return;
      }
      var rest := data;
      if used > 0 {
        FillUp(used, data[..64 - used]);
        rest := data[64 - used..];
      }
      TakeBlocks(rest);
      assert done + tail == old(done + tail) + data;
      assert |done| + |tail| == |old(done + tail) + data|;
    }

    /** The padding part of ngx_md5_final: one block, or two when the length does not fit in the first. */
    method Pad(used: nat, length: seq<byte>)
      requires Holds() && used == |tail| && |length| == 8
      modifies this`state, this`done, this`tail, buffer
      ensures Holds() && tail == [] && done == old(done + tail) + Padding(used, length)
    {
      if 64 - (used + 1) < 8 {
        FillUp(used, [0x80] + Zeros(63 - used));
        FillUp(0, Zeros(56) + length);
        assert Zeros(63 - used) + Zeros(56) == Zeros(119 - used);
      } else {
        FillUp(used, [0x80] + Zeros(55 - used) + length);
      }
    }

    /** ngx_md5_final, up to the words of the state */
    method Finish() returns (s: S)
      requires Valid()
      modifies this`state, this`done, this`tail, buffer
      ensures s == Absorb(f, init, Padded(old(Message())))
    {
      Position();
      PaddedMessage(done, tail);
      assert Holds();
      Pad(bytes % 64, LittleEndian(bytes * 8 % 0x1_0000_0000_0000_0000, 8));
      s := state;
    }
  }

  /** Compression functions that always agree absorb alike. */
  lemma {:induction false} AbsorbSame<S>(f: Compression<S>, g: Compression<S>, s: S, data: seq<byte>)
    requires |data| % 64 == 0 && forall r, p :: f(r, p) == g(r, p)
    ensures Absorb(f, s, data) == Absorb(g, s, data)
    decreases |data|
  {
    if data != [] {
      AbsorbSame(f, g, f(s, data[..64]), data[64..]);
    }
  }

  lemma PaddedMessage(d: seq<byte>, t: seq<byte>)
    requires |d| % 64 == 0 && |t| < 64
    ensures var bytes := (|d| + |t|) % 0x1_0000_0000_0000_0000;
      Padded(d + t) == d + t + Padding(|t|, LittleEndian(bytes * 8 % 0x1_0000_0000_0000_0000, 8))
  {
    var n := |d| + |t|;
    assert |d + t| == n;
    BitCountWraps(n);
    BlockLength(|d|, |t|);
    assert n % 64 == |t|;
  }

  lemma BitCountWraps(n: nat)
    ensures n % 0x1_0000_0000_0000_0000 * 8 % 0x1_0000_0000_0000_0000 == 8 * n % 0x1_0000_0000_0000_0000
  {}

  function Concatenation(parts: seq<seq<byte>>): seq<byte> {
    if parts == [] then [] else Concatenation(parts[..|parts| - 1]) + parts[|parts| - 1]
  }

  /** One digest over any split of a message: the state of the whole message, padded. */
  method Digest<S>(f: Compression<S>, init: S, parts: seq<seq<byte>>) returns (s: S)
    ensures s == Absorb(f, init, Padded(Concatenation(parts)))
  {
    var c := new Context(f, init);
    var i := 0;
    while i < |parts|
      invariant 0 <= i <= |parts| && c.Valid() && fresh(c) && fresh(c.buffer) && c.f == f && c.init == init
      invariant c.Message() == Concatenation(parts[..i])
    {
      c.Update(parts[i]);
      assert parts[..i + 1][..i] == parts[..i];
      i := i + 1;
    }
    assert parts[..i] == parts;
    s := c.Finish();
  }
}

/** The streaming MD5 of src/core/ngx_md5.c against RFC 1321. */
module Md5 {
  import opened Bytes
  import opened BlockHash

  type word = bv32

  /** The four registers; most of the comparison with the standard does not care what words are. */
  datatype Registers<W> = State(a: W, b: W, c: W, d: W)
  type State = Registers<word>

  // The compression function.

  datatype Basic = F | G | H | I

  // The macros, F and G without AND-NOT ...
  function MacroF(x: word, y: word, z: word): word { z ^ (x & (y ^ z)) }
  function MacroG(x: word, y: word, z: word): word { y ^ (z & (x ^ y)) }

  // ... and the definitions of section 3.4 of RFC 1321; H and I are the same in both.
  function RfcF(x: word, y: word, z: word): word { (x & y) | (!x & z) }
  function RfcG(x: word, y: word, z: word): word { (x & z) | (y & !z) }
  function RfcH(x: word, y: word, z: word): word { x ^ y ^ z }
  function RfcI(x: word, y: word, z: word): word { y ^ (x | !z) }

  function Macro(f: Basic, x: word, y: word, z: word): word {
    match f
    case F => MacroF(x, y, z)
    case G => MacroG(x, y, z)
    case H => RfcH(x, y, z)
    case I => RfcI(x, y, z)
  }

  function Rfc(f: Basic, x: word, y: word, z: word): word {
    match f
    case F => RfcF(x, y, z)
    case G => RfcG(x, y, z)
    case H => RfcH(x, y, z)
    case I => RfcI(x, y, z)
  }

  lemma FIsRfc(x: word, y: word, z: word)
    ensures MacroF(x, y, z) == RfcF(x, y, z)
  {
    assert z ^ (x & (y ^ z)) == (x & y) | (!x & z);
  }

  lemma GIsRfc(x: word, y: word, z: word)
    ensures MacroG(x, y, z) == RfcG(x, y, z)
  {
    assert y ^ (z & (x ^ y)) == (x & z) | (y & !z);
  }

  /** The optimised F and G equal their definitions. */
  lemma MacrosAreRfc(f: Basic, x: word, y: word, z: word)
    ensures Macro(f, x, y, z) == Rfc(f, x, y, z)
  {
    match f
    case F => FIsRfc(x, y, z);
    case G => GIsRfc(x, y, z);
    case _ =>
  }

  /** One of the 64 operations: the function, the word of the block, the constant and the shift. */
  datatype Op<W> = Op(f: Basic, k: Index, t: W, s: Shift)
  type Index = k: int | 0 <= k < 16
  type Shift = s: int | s in {4, 5, 6, 7, 9, 10, 11, 12, 14, 15, 16, 17, 20, 21, 22, 23} witness 7

  const ROUND1: seq<Op<word>> := [
    Op(F, 0, 0xd76aa478, 7), Op(F, 1, 0xe8c7b756, 12), Op(F, 2, 0x242070db, 17), Op(F, 3, 0xc1bdceee, 22),
    Op(F, 4, 0xf57c0faf, 7), Op(F, 5, 0x4787c62a, 12), Op(F, 6, 0xa8304613, 17), Op(F, 7, 0xfd469501, 22),
    Op(F, 8, 0x698098d8, 7), Op(F, 9, 0x8b44f7af, 12), Op(F, 10, 0xffff5bb1, 17), Op(F, 11, 0x895cd7be, 22),
    Op(F, 12, 0x6b901122, 7), Op(F, 13, 0xfd987193, 12), Op(F, 14, 0xa679438e, 17), Op(F, 15, 0x49b40821, 22)
  ]

  const ROUND2: seq<Op<word>> := [
    Op(G, 1, 0xf61e2562, 5), Op(G, 6, 0xc040b340, 9), Op(G, 11, 0x265e5a51, 14), Op(G, 0, 0xe9b6c7aa, 20),
    Op(G, 5, 0xd62f105d, 5), Op(G, 10, 0x02441453, 9), Op(G, 15, 0xd8a1e681, 14), Op(G, 4, 0xe7d3fbc8, 20),
    Op(G, 9, 0x21e1cde6, 5), Op(G, 14, 0xc33707d6, 9), Op(G, 3, 0xf4d50d87, 14), Op(G, 8, 0x455a14ed, 20),
    Op(G, 13, 0xa9e3e905, 5), Op(G, 2, 0xfcefa3f8, 9), Op(G, 7, 0x676f02d9, 14), Op(G, 12, 0x8d2a4c8a, 20)
  ]

  const ROUND3: seq<Op<word>> := [
    Op(H, 5, 0xfffa3942, 4), Op(H, 8, 0x8771f681, 11), Op(H, 11, 0x6d9d6122, 16), Op(H, 14, 0xfde5380c, 23),
    Op(H, 1, 0xa4beea44, 4), Op(H, 4, 0x4bdecfa9, 11), Op(H, 7, 0xf6bb4b60, 16), Op(H, 10, 0xbebfbc70, 23),
    Op(H, 13, 0x289b7ec6, 4), Op(H, 0, 0xeaa127fa, 11), Op(H, 3, 0xd4ef3085, 16), Op(H, 6, 0x04881d05, 23),
    Op(H, 9, 0xd9d4d039, 4), Op(H, 12, 0xe6db99e5, 11), Op(H, 15, 0x1fa27cf8, 16), Op(H, 2, 0xc4ac5665, 23)
  ]

  const ROUND4: seq<Op<word>> := [
    Op(I, 0, 0xf4292244, 6), Op(I, 7, 0x432aff97, 10), Op(I, 14, 0xab9423a7, 15), Op(I, 5, 0xfc93a039, 21),
    Op(I, 12, 0x655b59c3, 6), Op(I, 3, 0x8f0ccc92, 10), Op(I, 10, 0xffeff47d, 15), Op(I, 1, 0x85845dd1, 21),
    Op(I, 8, 0x6fa87e4f, 6), Op(I, 15, 0xfe2ce6e0, 10), Op(I, 6, 0xa3014314, 15), Op(I, 13, 0x4e0811a1, 21),
    Op(I, 4, 0xf7537e82, 6), Op(I, 11, 0xbd3af235, 10), Op(I, 2, 0x2ad7d2bb, 15), Op(I, 9, 0xeb86d391, 21)
  ]

  /** The shifts and the or of STEP, whose shift is one of sixteen constants. */
  function Rotate(x: word, s: Shift): word {
    match s
    case 4 => (x << 4) | (x >> 28)
    case 5 => (x << 5) | (x >> 27)
    case 6 => (x << 6) | (x >> 26)
    case 7 => (x << 7) | (x >> 25)
    case 9 => (x << 9) | (x >> 23)
    case 10 => (x << 10) | (x >> 22)
    case 11 => (x << 11) | (x >> 21)
    case 12 => (x << 12) | (x >> 20)
    case 14 => (x << 14) | (x >> 18)
    case 15 => (x << 15) | (x >> 17)
    case 16 => (x << 16) | (x >> 16)
    case 17 => (x << 17) | (x >> 15)
    case 20 => (x << 20) | (x >> 12)
    case 21 => (x << 21) | (x >> 11)
    case 22 => (x << 22) | (x >> 10)
    case _ => (x << 23) | (x >> 9)
  }

  /**
   * What a step is made of: the basic functions, the sum, the rotation and the last addition. The rounds are written
   * for any such parts, so that the source and the standard can be compared part by part.
   */
  datatype Parts<!W> = Parts(fn: (Basic, W, W, W) -> W, sum: (W, W, W, W) -> W, rot: (W, Shift) -> W, add: (W, W) -> W)

  // (a) += f((b), (c), (d)) + (x) + (t); (a) is rotated; (a) += (b)
  function MacroSum(a: word, f: word, x: word, t: word): word { a + (f + x + t) }
  function MacroAdd(a: word, b: word): word { a + b }

  /** STEP, for the register whose turn it is; the registers then change roles. */
  function Step<W>(m: Parts<W>, o: Op<W>, s: Registers<W>, x: W, f: W): Registers<W> {
    State(s.d, m.add(m.rot(m.sum(s.a, f, x, o.t), o.s), s.b), s.b, s.c)
  }

  function Round<W>(m: Parts<W>, ops: seq<Op<W>>, s: Registers<W>, block: seq<W>): Registers<W>
    requires |block| == 16
    decreases ops
  {
    if ops == [] then s
    else
      var o := ops[0];
      Round(m, ops[1..], Step(m, o, s, block[o.k], m.fn(o.f, s.b, s.c, s.d)), block)
  }

  // Section 3.4 of RFC 1321: the function, the word and the shift that operation i of a round uses ...

  function RfcFunction(round: int): Basic {
    if round == 1 then F else if round == 2 then G else if round == 3 then H else I
  }

  function RfcWord(round: int, i: nat): Index {
    (if round == 1 then i else if round == 2 then 5 * i + 1 else if round == 3 then 3 * i + 5 else 7 * i) % 16
  }

  function RfcShift(round: int, i: nat): Shift {
    var j := i % 4;
    if round == 1 then (if j == 0 then 7 else if j == 1 then 12 else if j == 2 then 17 else 22)
    else if round == 2 then (if j == 0 then 5 else if j == 1 then 9 else if j == 2 then 14 else 20)
    else if round == 3 then (if j == 0 then 4 else if j == 1 then 11 else if j == 2 then 16 else 23)
    else (if j == 0 then 6 else if j == 1 then 10 else if j == 2 then 15 else 21)
  }

  // ... and the table of constants, by rounds.

  const T1: seq<word> := [
    0xd76aa478, 0xe8c7b756, 0x242070db, 0xc1bdceee, 0xf57c0faf, 0x4787c62a, 0xa8304613, 0xfd469501,
    0x698098d8, 0x8b44f7af, 0xffff5bb1, 0x895cd7be, 0x6b901122, 0xfd987193, 0xa679438e, 0x49b40821
  ]

  const T2: seq<word> := [
    0xf61e2562, 0xc040b340, 0x265e5a51, 0xe9b6c7aa, 0xd62f105d, 0x02441453, 0xd8a1e681, 0xe7d3fbc8,
    0x21e1cde6, 0xc33707d6, 0xf4d50d87, 0x455a14ed, 0xa9e3e905, 0xfcefa3f8, 0x676f02d9, 0x8d2a4c8a
  ]

  const T3: seq<word> := [
    0xfffa3942, 0x8771f681, 0x6d9d6122, 0xfde5380c, 0xa4beea44, 0x4bdecfa9, 0xf6bb4b60, 0xbebfbc70,
    0x289b7ec6, 0xeaa127fa, 0xd4ef3085, 0x04881d05, 0xd9d4d039, 0xe6db99e5, 0x1fa27cf8, 0xc4ac5665
  ]

  const T4: seq<word> := [
    0xf4292244, 0x432aff97, 0xab9423a7, 0xfc93a039, 0x655b59c3, 0x8f0ccc92, 0xffeff47d, 0x85845dd1,
    0x6fa87e4f, 0xfe2ce6e0, 0xa3014314, 0x4e0811a1, 0xf7537e82, 0xbd3af235, 0x2ad7d2bb, 0xeb86d391
  ]

  function RfcOp<W>(round: int, i: nat, t: W): Op<W> {
    Op(RfcFunction(round), RfcWord(round, i), t, RfcShift(round, i))
  }

  /** The j-th of these operations is operation i + j of the round in the standard. */
  ghost predicate Agrees<W>(ops: seq<Op<W>>, t: seq<W>, round: int, i: nat, j: nat) {
    j < |ops| && j < |t| && ops[j] == RfcOp(round, i + j, t[j])
  }

  ghost predicate Scheduled<W>(ops: seq<Op<W>>, t: seq<W>, round: int, i: nat) {
    |ops| == |t| && forall j: nat :: j < |t| ==> Agrees(ops, t, round, i, j)
  }

  lemma Round1StartsAsRfc(j: nat)
    requires j < 8
    ensures |ROUND1| == |T1| == 16 && Agrees(ROUND1, T1, 1, 0, j)
  {
    assert Agrees(ROUND1, T1, 1, 0, 0) && Agrees(ROUND1, T1, 1, 0, 1) && Agrees(ROUND1, T1, 1, 0, 2) && Agrees(ROUND1, T1, 1, 0, 3);
    assert Agrees(ROUND1, T1, 1, 0, 4) && Agrees(ROUND1, T1, 1, 0, 5) && Agrees(ROUND1, T1, 1, 0, 6) && Agrees(ROUND1, T1, 1, 0, 7);
  }

  lemma Round1EndsAsRfc(j: nat)
    requires 8 <= j < 16
    ensures |ROUND1| == |T1| == 16 && Agrees(ROUND1, T1, 1, 0, j)
  {
    assert Agrees(ROUND1, T1, 1, 0, 8) && Agrees(ROUND1, T1, 1, 0, 9) && Agrees(ROUND1, T1, 1, 0, 10) && Agrees(ROUND1, T1, 1, 0, 11);
    assert Agrees(ROUND1, T1, 1, 0, 12) && Agrees(ROUND1, T1, 1, 0, 13) && Agrees(ROUND1, T1, 1, 0, 14) && Agrees(ROUND1, T1, 1, 0, 15);
  }

  lemma Round1IsRfc()
    ensures Scheduled(ROUND1, T1, 1, 0) && |T1| == 16
  {
    forall j: nat | j < 16 ensures |ROUND1| == |T1| == 16 && Agrees(ROUND1, T1, 1, 0, j) {
      if j < 8 {
        Round1StartsAsRfc(j);
      } else {
        Round1EndsAsRfc(j);
      }
    }
  }

  lemma Round2StartsAsRfc(j: nat)
    requires j < 8
    ensures |ROUND2| == |T2| == 16 && Agrees(ROUND2, T2, 2, 0, j)
  {
    assert Agrees(ROUND2, T2, 2, 0, 0) && Agrees(ROUND2, T2, 2, 0, 1) && Agrees(ROUND2, T2, 2, 0, 2) && Agrees(ROUND2, T2, 2, 0, 3);
    assert Agrees(ROUND2, T2, 2, 0, 4) && Agrees(ROUND2, T2, 2, 0, 5) && Agrees(ROUND2, T2, 2, 0, 6) && Agrees(ROUND2, T2, 2, 0, 7);
  }

  lemma Round2EndsAsRfc(j: nat)
    requires 8 <= j < 16
    ensures |ROUND2| == |T2| == 16 && Agrees(ROUND2, T2, 2, 0, j)
  {
    assert Agrees(ROUND2, T2, 2, 0, 8) && Agrees(ROUND2, T2, 2, 0, 9) && Agrees(ROUND2, T2, 2, 0, 10) && Agrees(ROUND2, T2, 2, 0, 11);
    assert Agrees(ROUND2, T2, 2, 0, 12) && Agrees(ROUND2, T2, 2, 0, 13) && Agrees(ROUND2, T2, 2, 0, 14) && Agrees(ROUND2, T2, 2, 0, 15);
  }

  lemma Round2IsRfc()
    ensures Scheduled(ROUND2, T2, 2, 0) && |T2| == 16
  {
    forall j: nat | j < 16 ensures |ROUND2| == |T2| == 16 && Agrees(ROUND2, T2, 2, 0, j) {
      if j < 8 {
        Round2StartsAsRfc(j);
      } else {
        Round2EndsAsRfc(j);
      }
    }
  }

  lemma Round3StartsAsRfc(j: nat)
    requires j < 8
    ensures |ROUND3| == |T3| == 16 && Agrees(ROUND3, T3, 3, 0, j)
  {
    assert Agrees(ROUND3, T3, 3, 0, 0) && Agrees(ROUND3, T3, 3, 0, 1) && Agrees(ROUND3, T3, 3, 0, 2) && Agrees(ROUND3, T3, 3, 0, 3);
    assert Agrees(ROUND3, T3, 3, 0, 4) && Agrees(ROUND3, T3, 3, 0, 5) && Agrees(ROUND3, T3, 3, 0, 6) && Agrees(ROUND3, T3, 3, 0, 7);
  }

  lemma Round3EndsAsRfc(j: nat)
    requires 8 <= j < 16
    ensures |ROUND3| == |T3| == 16 && Agrees(ROUND3, T3, 3, 0, j)
  {
    assert Agrees(ROUND3, T3, 3, 0, 8) && Agrees(ROUND3, T3, 3, 0, 9) && Agrees(ROUND3, T3, 3, 0, 10) && Agrees(ROUND3, T3, 3, 0, 11);
    assert Agrees(ROUND3, T3, 3, 0, 12) && Agrees(ROUND3, T3, 3, 0, 13) && Agrees(ROUND3, T3, 3, 0, 14) && Agrees(ROUND3, T3, 3, 0, 15);
  }

  lemma Round3IsRfc()
    ensures Scheduled(ROUND3, T3, 3, 0) && |T3| == 16
  {
    forall j: nat | j < 16 ensures |ROUND3| == |T3| == 16 && Agrees(ROUND3, T3, 3, 0, j) {
      if j < 8 {
        Round3StartsAsRfc(j);
      } else {
        Round3EndsAsRfc(j);
      }
    }
  }

  lemma Round4StartsAsRfc(j: nat)
    requires j < 8
    ensures |ROUND4| == |T4| == 16 && Agrees(ROUND4, T4, 4, 0, j)
  {
    assert Agrees(ROUND4, T4, 4, 0, 0) && Agrees(ROUND4, T4, 4, 0, 1) && Agrees(ROUND4, T4, 4, 0, 2) && Agrees(ROUND4, T4, 4, 0, 3);
    assert Agrees(ROUND4, T4, 4, 0, 4) && Agrees(ROUND4, T4, 4, 0, 5) && Agrees(ROUND4, T4, 4, 0, 6) && Agrees(ROUND4, T4, 4, 0, 7);
  }

  lemma Round4EndsAsRfc(j: nat)
    requires 8 <= j < 16
    ensures |ROUND4| == |T4| == 16 && Agrees(ROUND4, T4, 4, 0, j)
  {
    assert Agrees(ROUND4, T4, 4, 0, 8) && Agrees(ROUND4, T4, 4, 0, 9) && Agrees(ROUND4, T4, 4, 0, 10) && Agrees(ROUND4, T4, 4, 0, 11);
    assert Agrees(ROUND4, T4, 4, 0, 12) && Agrees(ROUND4, T4, 4, 0, 13) && Agrees(ROUND4, T4, 4, 0, 14) && Agrees(ROUND4, T4, 4, 0, 15);
  }

  lemma Round4IsRfc()
    ensures Scheduled(ROUND4, T4, 4, 0) && |T4| == 16
  {
    forall j: nat | j < 16 ensures |ROUND4| == |T4| == 16 && Agrees(ROUND4, T4, 4, 0, j) {
      if j < 8 {
        Round4StartsAsRfc(j);
      } else {
        Round4EndsAsRfc(j);
      }
    }
  }

  /** X <<< s, a circular shift to the left. */
  function RfcRotate(x: word, s: Shift): word {
    match s
    case 4 => x.RotateLeft(4)
    case 5 => x.RotateLeft(5)
    case 6 => x.RotateLeft(6)
    case 7 => x.RotateLeft(7)
    case 9 => x.RotateLeft(9)
    case 10 => x.RotateLeft(10)
    case 11 => x.RotateLeft(11)
    case 12 => x.RotateLeft(12)
    case 14 => x.RotateLeft(14)
    case 15 => x.RotateLeft(15)
    case 16 => x.RotateLeft(16)
    case 17 => x.RotateLeft(17)
    case 20 => x.RotateLeft(20)
    case 21 => x.RotateLeft(21)
    case 22 => x.RotateLeft(22)
    case _ => x.RotateLeft(23)
  }

  // a = b + ((a + F(b, c, d) + X[k] + T[i]) <<< s)
  function RfcSum(a: word, f: word, x: word, t: word): word { a + f + x + t }
  function RfcAdd(a: word, b: word): word { b + a }

  function RfcNew<W>(m: Parts<W>, f: Basic, a: W, b: W, c: W, d: W, x: W, t: W, n: Shift): W {
    m.add(m.rot(m.sum(a, m.fn(f, b, c, d), x, t), n), b)
  }

  /** The registers take turns. */
  function Turn(i: nat): (j: nat)
    ensures j < 4
  {
    i % 4
  }

  /** The operation whose turn is j gives a new value to one register, in the order A, D, C, B. */
  function RfcStep<W>(m: Parts<W>, f: Basic, n: Shift, j: int, s: Registers<W>, x: W, t: W): Registers<W> {
    if j == 0 then s.(a := RfcNew(m, f, s.a, s.b, s.c, s.d, x, t, n))
    else if j == 1 then s.(d := RfcNew(m, f, s.d, s.a, s.b, s.c, x, t, n))
    else if j == 2 then s.(c := RfcNew(m, f, s.c, s.d, s.a, s.b, x, t, n))
    else s.(b := RfcNew(m, f, s.b, s.c, s.d, s.a, x, t, n))
  }

  /** Operations i and on of a round of the standard. */
  function RfcRound<W>(m: Parts<W>, t: seq<W>, round: int, i: nat, s: Registers<W>, block: seq<W>): Registers<W>
    requires |block| == 16
    decreases t
  {
    if t == [] then s
    else RfcRound(m, t[1..], round, i + 1, RfcStep(m, RfcFunction(round), RfcShift(round, i), Turn(i), s, block[RfcWord(round, i)], t[0]), block)
  }

  /** The registers in the order in which the operation whose turn is j uses them. */
  function View<W>(j: int, s: Registers<W>): Registers<W> {
    if j == 0 then s
    else if j == 1 then State(s.d, s.a, s.b, s.c)
    else if j == 2 then State(s.c, s.d, s.a, s.b)
    else State(s.b, s.c, s.d, s.a)
  }

  /** The shifts and the or of the macro are a circular shift to the left. */
  lemma RotatesLeft(x: word, s: Shift)
    ensures Rotate(x, s) == RfcRotate(x, s)
  {
  }

  lemma SumsAgree(a: word, f: word, x: word, t: word)
    ensures MacroSum(a, f, x, t) == RfcSum(a, f, x, t)
  {
  }

  lemma AddsAgree(a: word, b: word)
    ensures MacroAdd(a, b) == RfcAdd(a, b)
  {
  }

  /** The step of the source, seen with its registers in turn, is the step of the standard. */
  lemma StepIsRfc<W>(m: Parts<W>, o: Op<W>, j: int, s: Registers<W>, x: W)
    requires 0 <= j < 4
    ensures var v := View(j, s);
      Step(m, o, v, x, m.fn(o.f, v.b, v.c, v.d)) == View((j + 1) % 4, RfcStep(m, o.f, o.s, j, s, x, o.t))
  {
  }

  lemma ScheduledRest<W>(ops: seq<Op<W>>, t: seq<W>, round: int, i: nat)
    requires Scheduled(ops, t, round, i) && t != []
    ensures Scheduled(ops[1..], t[1..], round, i + 1)
  {
    var ops', t', i' := ops[1..], t[1..], i + 1;
    forall j: nat | j < |t'| ensures Agrees(ops', t', round, i', j) {
      assert Agrees(ops, t, round, i, j + 1);
    }
  }

  /** A round of the source, which lets the registers change roles, is the round of the standard. */
  lemma {:induction false} RoundIsRfc<W>(m: Parts<W>, ops: seq<Op<W>>, t: seq<W>, round: int, i: nat, n: nat, s: Registers<W>, block: seq<W>)
    requires |block| == 16 && Scheduled(ops, t, round, i) && n == i + |t|
    ensures Round(m, ops, View(Turn(i), s), block) == View(Turn(n), RfcRound(m, t, round, i, s, block))
    decreases t
  {
    if t != [] {
      var o := ops[0];
      assert Agrees(ops, t, round, i, 0);
      ScheduledRest(ops, t, round, i);
      StepIsRfc(m, o, Turn(i), s, block[o.k]);
      assert (Turn(i) + 1) % 4 == Turn(i + 1);
      RoundIsRfc(m, ops[1..], t[1..], round, i + 1, n, RfcStep(m, o.f, o.s, Turn(i), s, block[o.k], t[0]), block);
    }
  }

  lemma WholeRoundIsRfc<W>(m: Parts<W>, ops: seq<Op<W>>, t: seq<W>, round: int, s: Registers<W>, block: seq<W>)
    requires |block| == 16 && Scheduled(ops, t, round, 0) && |t| == 16
    ensures Round(m, ops, s, block) == RfcRound(m, t, round, 0, s, block)
  {
    RoundIsRfc(m, ops, t, round, 0, 16, s, block);
  }

  ghost predicate SameParts<W(!new)>(m: Parts<W>, m': Parts<W>) {
    && (forall f, x, y, z :: m.fn(f, x, y, z) == m'.fn(f, x, y, z))
    && (forall a, f, x, t :: m.sum(a, f, x, t) == m'.sum(a, f, x, t))
    && (forall a, n :: m.rot(a, n) == m'.rot(a, n))
    && (forall a, b :: m.add(a, b) == m'.add(a, b))
  }

  /** Parts that agree give the same round. */
  lemma {:induction false} SameRound<W(!new)>(m: Parts<W>, m': Parts<W>, ops: seq<Op<W>>, s: Registers<W>, block: seq<W>)
    requires |block| == 16 && SameParts(m, m')
    ensures Round(m, ops, s, block) == Round(m', ops, s, block)
    decreases ops
  {
    if ops != [] {
      var o := ops[0];
      SameRound(m, m', ops[1..], Step(m, o, s, block[o.k], m.fn(o.f, s.b, s.c, s.d)), block);
    }
  }

  /** SET: a word from four bytes, low byte first. */
  function NumberAt(p: seq<byte>, n: int): (k: int)
    requires |p| == 64 && 0 <= n < 16
    ensures 0 <= k < 0x1_0000_0000
  {
    var a: int, b: int, c: int, d: int := p[4 * n], p[4 * n + 1], p[4 * n + 2], p[4 * n + 3];
    a + b * 0x100 + c * 0x1_0000 + d * 0x100_0000
  }

  function WordAt(p: seq<byte>, n: int): word
    requires |p| == 64 && 0 <= n < 16
  {
    NumberAt(p, n) as word
  }

  function Words(p: seq<byte>): (block: seq<word>)
    requires |p| == 64
    ensures |block| == 16
  {
    seq(16, n requires 0 <= n < 16 => WordAt(p, n))
  }

  function Plus(x: word, y: word): word { x + y }

  function Sum<W>(plus: (W, W) -> W, r: Registers<W>, s: Registers<W>): Registers<W> {
    State(plus(r.a, s.a), plus(r.b, s.b), plus(r.c, s.c), plus(r.d, s.d))
  }

  function Rounds(m: Parts<word>, s: State, block: seq<word>): State
    requires |block| == 16
  {
    var s1 := Round(m, ROUND1, s, block);
    var s2 := Round(m, ROUND2, s1, block);
    var s3 := Round(m, ROUND3, s2, block);
    Round(m, ROUND4, s3, block)
  }

  function RfcRounds(m: Parts<word>, s: State, block: seq<word>): State
    requires |block| == 16
  {
    var s1 := RfcRound(m, T1, 1, 0, s, block);
    var s2 := RfcRound(m, T2, 2, 0, s1, block);
    var s3 := RfcRound(m, T3, 3, 0, s2, block);
    RfcRound(m, T4, 4, 0, s3, block)
  }

  lemma RoundsAreRfc(m: Parts<word>, s: State, block: seq<word>)
    requires |block| == 16
    ensures Rounds(m, s, block) == RfcRounds(m, s, block)
  {
    Round1IsRfc();
    Round2IsRfc();
    Round3IsRfc();
    Round4IsRfc();
    var s1 := RfcRound(m, T1, 1, 0, s, block);
    var s2 := RfcRound(m, T2, 2, 0, s1, block);
    var s3 := RfcRound(m, T3, 3, 0, s2, block);
    WholeRoundIsRfc(m, ROUND1, T1, 1, s, block);
    WholeRoundIsRfc(m, ROUND2, T2, 2, s1, block);
    WholeRoundIsRfc(m, ROUND3, T3, 3, s2, block);
    WholeRoundIsRfc(m, ROUND4, T4, 4, s3, block);
  }

  lemma SameRounds(m: Parts<word>, m': Parts<word>, s: State, block: seq<word>)
    requires |block| == 16 && SameParts(m, m')
    ensures Rounds(m, s, block) == Rounds(m', s, block)
  {
    var s1 := Round(m, ROUND1, s, block);
    var s2 := Round(m, ROUND2, s1, block);
    var s3 := Round(m, ROUND3, s2, block);
    SameRound(m, m', ROUND1, s, block);
    SameRound(m, m', ROUND2, s1, block);
    SameRound(m, m', ROUND3, s2, block);
    SameRound(m, m', ROUND4, s3, block);
  }

  const SOURCE := Parts(Macro, MacroSum, Rotate, MacroAdd)
  const RFC := Parts(Rfc, RfcSum, RfcRotate, RfcAdd)

  lemma PartsAgree()
    ensures SameParts(SOURCE, RFC)
  {
    forall f, x, y, z ensures Macro(f, x, y, z) == Rfc(f, x, y, z) {
      MacrosAreRfc(f, x, y, z);
    }
    forall a, f, x, t ensures MacroSum(a, f, x, t) == RfcSum(a, f, x, t) {
      SumsAgree(a, f, x, t);
    }
    forall a, n ensures Rotate(a, n) == RfcRotate(a, n) {
      RotatesLeft(a, n);
    }
    forall a, b ensures MacroAdd(a, b) == RfcAdd(a, b) {
      AddsAgree(a, b);
    }
  }

  /** One turn of the loop of ngx_md5_body; total, since it is only ever given whole blocks. */
  function Compress(s: State, p: seq<byte>): State {
    if |p| == 64 then Sum(Plus, Rounds(SOURCE, s, Words(p)), s) else s
  }

  /** Section 3.4 of RFC 1321 */
  function RfcCompress(s: State, p: seq<byte>): State {
    if |p| == 64 then RfcSumUp(Plus, RfcRounds(RFC, s, Words(p)), s) else s
  }

  /** Each register is increased by the value it had before the block. */
  function RfcSumUp<W>(plus: (W, W) -> W, r: Registers<W>, s: Registers<W>): Registers<W> {
    r.(a := plus(r.a, s.a)).(b := plus(r.b, s.b)).(c := plus(r.c, s.c)).(d := plus(r.d, s.d))
  }

  lemma SumsUp<W>(plus: (W, W) -> W, r: Registers<W>, s: Registers<W>)
    ensures Sum(plus, r, s) == RfcSumUp(plus, r, s)
  {
  }

  lemma CompressIsRfc(s: State, p: seq<byte>)
    ensures Compress(s, p) == RfcCompress(s, p)
  {
    if |p| == 64 {
      PartsAgree();
      SameRounds(SOURCE, RFC, s, Words(p));
      RoundsAreRfc(RFC, s, Words(p));
      SumsUp(Plus, RfcRounds(RFC, s, Words(p)), s);
    }
  }

  /** Section 3.3 of RFC 1321 */
  const INIT: State := State(0x67452301, 0xefcdab89, 0x98badcfe, 0x10325476)

  /** Section 3.5 of RFC 1321: the four words, low byte first. */
  function Output(s: State): (r: seq<byte>)
    ensures |r| == 16
  {
    WordBytes(s.a) + WordBytes(s.b) + WordBytes(s.c) + WordBytes(s.d)
  }

  function WordBytes(w: word): (r: seq<byte>)
    ensures |r| == 4
  {
    LittleEndian(w as int, 4)
  }

  /** The words of a block hold its bytes, low byte first ... */
  lemma WordsHoldBytes(p: seq<byte>, n: int)
    requires |p| == 64 && 0 <= n < 16
    ensures Words(p)[n] == NumberAt(p, n) as word && LittleEndian(NumberAt(p, n), 4) == [p[4 * n], p[4 * n + 1], p[4 * n + 2], p[4 * n + 3]]
  {
    FourBytes(p[4 * n], p[4 * n + 1], p[4 * n + 2], p[4 * n + 3]);
  }

  /** ... and are put out the same way. */
  lemma OutputIsNumber(w: word)
    ensures Number(WordBytes(w)) == w as int
  {
    assert Pow256(4) == 0x1_0000_0000;
    NumberOfBytes(w as int, 4);
  }

  lemma FourBytes(a: byte, b: byte, c: byte, d: byte)
    ensures LittleEndian(a + b * 0x100 + c * 0x1_0000 + d * 0x100_0000, 4) == [a, b, c, d]
  {
    var w := a + b * 0x100 + c * 0x1_0000 + d * 0x100_0000;
    assert w % 256 == a && w / 256 == b + c * 0x100 + d * 0x1_0000;
    assert (w / 256) % 256 == b && w / 256 / 256 == c + d * 0x100;
    assert (w / 256 / 256) % 256 == c && w / 256 / 256 / 256 == d;
    assert LittleEndian(d, 1) == [d];
    assert LittleEndian(c + d * 0x100, 2) == [c] + LittleEndian(d, 1);
    assert LittleEndian(b + c * 0x100 + d * 0x1_0000, 3) == [b] + LittleEndian(c + d * 0x100, 2);
  }

  lemma InitLow()
    ensures WordBytes(INIT.a) == [0x01, 0x23, 0x45, 0x67] && WordBytes(INIT.b) == [0x89, 0xab, 0xcd, 0xef]
  {
    FourBytes(0x01, 0x23, 0x45, 0x67);
    FourBytes(0x89, 0xab, 0xcd, 0xef);
  }

  lemma InitHigh()
    ensures WordBytes(INIT.c) == [0xfe, 0xdc, 0xba, 0x98] && WordBytes(INIT.d) == [0x76, 0x54, 0x32, 0x10]
  {
    FourBytes(0xfe, 0xdc, 0xba, 0x98);
    FourBytes(0x76, 0x54, 0x32, 0x10);
  }

  /** Section 3.3 of RFC 1321: the registers at the start, as bytes, low byte first, and in the order of the digest. */
  lemma InitIsRfc()
    ensures Output(INIT) == [0x01, 0x23, 0x45, 0x67, 0x89, 0xab, 0xcd, 0xef, 0xfe, 0xdc, 0xba, 0x98, 0x76, 0x54, 0x32, 0x10]
  {
    InitLow();
    InitHigh();
  }

  /** MD5 of a whole message, as RFC 1321 defines it. */
  function Md5(m: seq<byte>): seq<byte> {
    Output(Absorb(RfcCompress, INIT, Padded(m)))
  }

  lemma AbsorbIsRfc(s: State, data: seq<byte>)
    requires |data| % 64 == 0
    ensures Absorb(Compress, s, data) == Absorb(RfcCompress, s, data)
  {
    forall r, p ensures Compress(r, p) == RfcCompress(r, p) {
      CompressIsRfc(r, p);
    }
    AbsorbSame(Compress, RfcCompress, s, data);
  }

  /** ngx_md5_init, any number of ngx_md5_update, ngx_md5_final */
  method Hash(parts: seq<seq<byte>>) returns (result: seq<byte>)
    ensures result == Md5(Concatenation(parts))
  {
    var s := Digest(Compress, INIT, parts);
    AbsorbIsRfc(INIT, Padded(Concatenation(parts)));
    result := Output(s);
  }
}
