/** ngx_inet6_ntop, ngx_inet6_addr and ngx_inet_addr of src/core/ngx_inet.c: printing and parsing IPv6 addresses. */
module Inet6 {
  import opened Bytes
  import opened Options

  /** NGX_INET6_ADDRSTRLEN */
  const ADDRSTRLEN: nat := 45

  const COLON: byte := 58
  const DOT: byte := 46

  type word = w: int | 0 <= w < 0x1_0000

  // Numbers in text.

  /** %uxi: hexadecimal without leading zeros */
  function Hex(w: nat): (t: seq<byte>)
    ensures |t| > 0
  {
    if w < 16 then [HexDigit(w)] else Hex(w / 16) + [HexDigit(w % 16)]
  }

  /** %ud */
  function Dec(n: nat): (t: seq<byte>)
    ensures |t| > 0
  {
    if n < 10 then [48 + n] else Dec(n / 10) + [48 + n % 10]
  }

  // ngx_inet_addr, the result as a host-order number.

  datatype V4 = V4(addr: nat, octet: nat, dots: nat)

  function V4Step(s: V4, c: byte): Option<V4> {
    if 48 <= c <= 57 then Some(V4(s.addr, (s.octet * 10 + c - 48) % 0x1_0000_0000_0000_0000, s.dots))
    else if c == DOT && s.octet < 256 then Some(V4((s.addr * 256 + s.octet) % 0x1_0000_0000, 0, s.dots + 1))
    else None
  }

  function V4Run(s: V4, t: seq<byte>): Option<nat>
    decreases |t|
  {
    if t == [] then
      if s.dots == 3 && s.octet < 256 then Some((s.addr * 256 + s.octet) % 0x1_0000_0000) else None
    else
      var n := V4Step(s, t[0]);
      if n.None? then None else V4Run(n.value, t[1..])
  }

  /** INADDR_NONE, which is also the address 255.255.255.255, reads as a failure. */
  function InetAddr(t: seq<byte>): (r: Option<nat>)
  {
    var r := V4Run(V4(0, 0, 0), t);
    if r == Some(0xffff_ffff) then None else r
  }

  // ngx_inet6_addr. The bytes stored so far are kept as words.

  datatype State = State(words: seq<word>, zero: int, nibbles: nat, word: nat, since: Option<seq<byte>>)

  function Zeros(n: nat): (z: seq<word>)
    ensures |z| == n && forall i :: 0 <= i < n ==> z[i] == 0
  {
    seq(n, i => 0)
  }

  /** The end of the parser: the last word is stored, and a gap is opened at the double colon. */
  function Finish(words: seq<word>, zero: int): (r: Option<seq<word>>)
    requires |words| <= 8 && zero <= |words|
    ensures r.Some? ==> |r.value| == 8
  {
    var n := 8 - |words|;
    if n > 0 then
      if zero >= 0 then Some(words[..zero] + Zeros(n) + words[zero..]) else None
    else if zero < 0 then Some(words) else None
  }

  function Pow16(n: nat): (p: nat)
    ensures p >= 1
  {
    if n == 0 then 1 else 16 * Pow16(n - 1)
  }

  predicate Proper(s: State) {
    |s.words| < 8 && s.zero <= |s.words| && s.nibbles <= 4 && s.word < Pow16(s.nibbles)
  }

  lemma FourNibbles(k: nat)
    requires k <= 4
    ensures Pow16(k) <= 0x1_0000
  {
    assert Pow16(4) == 0x1_0000 && Pow16(3) == 0x1000 && Pow16(2) == 0x100 && Pow16(1) == 16;
  }

  /** What one byte does; Done ends the parse. */
  datatype Move = Next(state: State) | Done(result: Option<seq<word>>)

  function Step(s: State, c: byte, rest: seq<byte>): (m: Move)
    requires Proper(s)
    ensures m.Next? ==> Proper(m.state)
  {
    FourNibbles(s.nibbles);
    if c == COLON then
      if s.nibbles > 0 then
        if |s.words| < 7 then Next(State(s.words + [s.word], s.zero, 0, 0, Some(rest))) else Done(None)
      else if s.zero < 0 then Next(State(s.words, |s.words|, 0, 0, Some(rest)))
      else Done(None)
    else if c == DOT && s.nibbles > 0 then
      if |s.words| > 6 || s.since.None? then Done(None)
      else Done(Tail4(s.words, s.zero, InetAddr(s.since.value)))
    else if s.nibbles + 1 > 4 || HexValue(c).None? then Done(None)
    else Next(State(s.words, s.zero, s.nibbles + 1, s.word * 16 + HexValue(c).value, s.since))
  }

  /** The last two words from a dotted tail. */
  function Tail4(words: seq<word>, zero: int, addr: Option<nat>): (r: Option<seq<word>>)
    requires |words| <= 6 && zero <= |words|
    ensures r.Some? ==> |r.value| == 8
  {
    if addr.None? then None else Finish(words + [addr.value / 0x1_0000 % 0x1_0000, addr.value % 0x1_0000], zero)
  }

  function Ending(s: State): (r: Option<seq<word>>)
    requires Proper(s)
    ensures r.Some? ==> |r.value| == 8
  {
    FourNibbles(s.nibbles);
    if s.nibbles == 0 && s.zero < 0 then None else Finish(s.words + [s.word], s.zero)
  }

  function Parse(s: State, t: seq<byte>): (r: Option<seq<word>>)
    requires Proper(s)
    ensures r.Some? ==> |r.value| == 8
    decreases |t|
  {
    if t == [] then Ending(s)
    else
      var m := Step(s, t[0], t[1..]);
      if m.Done? then m.result else Parse(m.state, t[1..])
  }

  const START := State([], -1, 0, 0, None)

  /** ngx_inet6_addr on words; a first colon is skipped. */
  function Parsed(t: seq<byte>): (r: Option<seq<word>>)
    ensures r.Some? ==> |r.value| == 8
  {
    if t == [] then None else Parse(START, if t[0] == COLON then t[1..] else t)
  }

  // Printing.

  /** The last 32 bits are printed in dotted form. */
  predicate Dotted(words: seq<word>, zero: int, max: nat)
    requires |words| == 8
  {
    zero == 0
    && ((max == 5 && words[5] == 0xffff) || max == 6 || (max == 7 && words[7] / 256 != 0 && words[7] % 256 != 1))
  }

  /** The groups from word i up to n, with the run of max zeros at `zero` left out. */
  function Groups(words: seq<word>, i: nat, n: nat, zero: int, max: nat): seq<byte>
    requires |words| == 8 && n <= 8 && max > 0
    decreases 8 - i
  {
    if i >= n then []
    else if i == zero then [COLON] + Groups(words, i + max, n, zero, max)
    else Hex(words[i]) + (if i < 7 then [COLON] else []) + Groups(words, i + 1, n, zero, max)
  }

  function Dots(hi: word, lo: word): seq<byte> {
    Dec(hi / 256) + [DOT] + (Dec(hi % 256) + [DOT] + (Dec(lo / 256) + [DOT] + Dec(lo % 256)))
  }

  function Text(words: seq<word>, zero: int, max: nat): seq<byte>
    requires |words| == 8 && max > 0
  {
    var n := if Dotted(words, zero, max) then 6 else 8;
    (if zero == 0 then [COLON] else [])
    + (Groups(words, 0, n, zero, max) + if n == 6 then Dots(words[6], words[7]) else [])
  }

  // Parsing what is printed.

  lemma ParseStep(s: State, c: byte, t: seq<byte>)
    requires Proper(s)
    ensures Parse(s, [c] + t) == var m := Step(s, c, t); if m.Done? then m.result else Parse(m.state, t)
  {}

  lemma {:induction false} HexLength(w: nat, k: nat)
    requires 0 < k && w < Pow16(k)
    ensures |Hex(w)| <= k
  {
    if w >= 16 {
      HexLength(w / 16, k - 1);
    }
  }

  function Plain(words: seq<word>, zero: int, since: Option<seq<byte>>): State {
    State(words, zero, 0, 0, since)
  }

  /** A printed group is read back as its word. */
  lemma {:induction false} HexReads(words: seq<word>, zero: int, since: Option<seq<byte>>, w: nat, t: seq<byte>)
    requires |words| < 8 && zero <= |words| && |Hex(w)| <= 4
    ensures Proper(State(words, zero, |Hex(w)|, w, since))
    ensures Parse(Plain(words, zero, since), Hex(w) + t) == Parse(State(words, zero, |Hex(w)|, w, since), t)
  {
    var s := Plain(words, zero, since);
    if w < 16 {
      ParseStep(s, HexDigit(w), t);
    } else {
      var d := HexDigit(w % 16);
      assert Hex(w) + t == Hex(w / 16) + ([d] + t);
      HexReads(words, zero, since, w / 16, [d] + t);
      ParseStep(State(words, zero, |Hex(w / 16)|, w / 16, since), d, t);
    }
  }

  lemma GroupReads(words: seq<word>, zero: int, since: Option<seq<byte>>, w: word, t: seq<byte>)
    requires |words| < 7 && zero <= |words|
    ensures Parse(Plain(words, zero, since), Hex(w) + [COLON] + t) == Parse(Plain(words + [w], zero, Some(t)), t)
  {
    FourNibbles(4);
    HexLength(w, 4);
    assert Hex(w) + [COLON] + t == Hex(w) + ([COLON] + t);
    HexReads(words, zero, since, w, [COLON] + t);
    ParseStep(State(words, zero, |Hex(w)|, w, since), COLON, t);
  }

  lemma LastGroupReads(words: seq<word>, zero: int, since: Option<seq<byte>>, w: word)
    requires |words| < 8 && zero <= |words|
    ensures Parse(Plain(words, zero, since), Hex(w)) == Finish(words + [w], zero)
  {
    FourNibbles(4);
    assert Pow16(4) == 0x1_0000;
    HexLength(w, 4);
    assert Hex(w) + [] == Hex(w);
    HexReads(words, zero, since, w, []);
  }

  /** The groups after the run, or all of them if there is none. */
  lemma {:induction false} LastGroupsRead(stored: seq<word>, zero: int, since: Option<seq<byte>>, words: seq<word>, i: nat, run: int, max: nat)
    requires |words| == 8 && i < 8 && |stored| <= i && zero <= |stored| && max > 0 && run < i
    ensures Parse(Plain(stored, zero, since), Groups(words, i, 8, run, max)) == Finish(stored + words[i..], zero)
    decreases 8 - i
  {
    var w := words[i];
    if i == 7 {
      assert Groups(words, 8, 8, run, max) == [];
      assert Hex(w) + [] + [] == Hex(w);
      LastGroupReads(stored, zero, since, w);
      assert words[7..] == [w];
    } else {
      var t := Groups(words, i + 1, 8, run, max);
      GroupReads(stored, zero, since, w, t);
      LastGroupsRead(stored + [w], zero, Some(t), words, i + 1, run, max);
      assert stored + [w] + words[i + 1..] == stored + words[i..];
    }
  }

  /** A run of at least two zero words. */
  predicate IsRun(words: seq<word>, zero: int, max: nat) {
    0 <= zero && 2 <= max && zero + max <= |words| && forall i :: zero <= i < zero + max ==> words[i] == 0
  }

  lemma GapOpens(words: seq<word>, zero: int, max: nat)
    requires |words| == 8 && IsRun(words, zero, max)
    ensures Finish(words[..zero] + words[zero + max..], zero) == Some(words)
    ensures zero + max == 8 ==> Finish(words[..zero] + [0], zero) == Some(words)
  {
    var kept := words[..zero] + words[zero + max..];
    assert kept[..zero] + Zeros(max) + kept[zero..] == words;
    if zero + max == 8 {
      var one := words[..zero] + [0];
      assert one[..zero] + Zeros(max - 1) + one[zero..] == words;
    }
  }

  lemma RunReads(words: seq<word>, zero: int, max: nat, since: Option<seq<byte>>)
    requires |words| == 8 && IsRun(words, zero, max)
    ensures Parse(Plain(words[..zero], -1, since), Groups(words, zero, 8, zero, max)) == Some(words)
  {
    var t := Groups(words, zero + max, 8, zero, max);
    ParseStep(Plain(words[..zero], -1, since), COLON, t);
    GapOpens(words, zero, max);
    if zero + max < 8 {
      LastGroupsRead(words[..zero], zero, Some(t), words, zero + max, zero, max);
    }
  }

  lemma {:induction false} GroupsRead(words: seq<word>, i: nat, zero: int, max: nat, since: Option<seq<byte>>)
    requires |words| == 8 && IsRun(words, zero, max) && i <= zero
    ensures Parse(Plain(words[..i], -1, since), Groups(words, i, 8, zero, max)) == Some(words)
    decreases zero - i
  {
    if i == zero {
      RunReads(words, zero, max, since);
    } else {
      var t := Groups(words, i + 1, 8, zero, max);
      GroupReads(words[..i], -1, since, words[i], t);
      assert words[..i] + [words[i]] == words[..i + 1];
      GroupsRead(words, i + 1, zero, max, Some(t));
    }
  }

  /** No leading zeros, and lower case. */
  lemma {:induction false} HexIs(w: nat)
    ensures Hex(w)[0] == 48 ==> w == 0 && |Hex(w)| == 1
    ensures forall i :: 0 <= i < |Hex(w)| ==> 48 <= Hex(w)[i] <= 57 || 97 <= Hex(w)[i] <= 102
  {
    if w >= 16 {
      HexIs(w / 16);
    }
  }

  lemma HexStarts(w: nat)
    ensures Hex(w)[0] != COLON
  {
    HexIs(w);
  }

  /** Without a dotted tail, the printed text is read back. */
  lemma PlainRoundTrip(words: seq<word>, zero: int, max: nat)
    requires |words| == 8 && max > 0 && (zero < 0 || IsRun(words, zero, max)) && !Dotted(words, zero, max)
    ensures Parsed(Text(words, zero, max)) == Some(words)
  {
    var g := Groups(words, 0, 8, zero, max);
    assert g + [] == g;
    if zero < 0 {
      HexStarts(words[0]);
      assert [] + g == g;
      LastGroupsRead([], -1, None, words, 0, zero, max);
      assert [] + words[0..] == words;
    } else {
      assert words[..0] == [];
      GroupsRead(words, 0, zero, max, None);
      if zero == 0 {
        assert ([COLON] + g)[1..] == g;
      } else {
        HexStarts(words[0]);
        assert [] + g == g;
      }
    }
  }

  // The dotted tail.

  lemma V4Next(s: V4, c: byte, t: seq<byte>)
    ensures V4Run(s, [c] + t) == var n := V4Step(s, c); if n.None? then None else V4Run(n.value, t)
  {}

  lemma SmallOctet(x: nat)
    requires x < 256
    ensures (x / 10 * 10 + (48 + x % 10) - 48) % 0x1_0000_0000_0000_0000 == x
    ensures (0 * 10 + (48 + x) - 48) % 0x1_0000_0000_0000_0000 == x
  {}

  lemma {:induction false} OctetReads(addr: nat, dots: nat, x: nat, t: seq<byte>)
    requires x < 256
    ensures V4Run(V4(addr, 0, dots), Dec(x) + t) == V4Run(V4(addr, x, dots), t)
  {
    SmallOctet(x);
    if x < 10 {
      V4Next(V4(addr, 0, dots), 48 + x, t);
    } else {
      var d := 48 + x % 10;
      assert Dec(x) + t == Dec(x / 10) + ([d] + t);
      OctetReads(addr, dots, x / 10, [d] + t);
      V4Next(V4(addr, x / 10, dots), d, t);
    }
  }

  lemma OctetAndDot(addr: nat, dots: nat, x: nat, t: seq<byte>)
    requires x < 256 && addr < 0x100_0000
    ensures V4Run(V4(addr, 0, dots), Dec(x) + [DOT] + t) == V4Run(V4(addr * 256 + x, 0, dots + 1), t)
  {
    assert Dec(x) + [DOT] + t == Dec(x) + ([DOT] + t);
    OctetReads(addr, dots, x, [DOT] + t);
    V4Next(V4(addr, x, dots), DOT, t);
    NoCarry(addr, x);
  }

  lemma NoCarry(addr: nat, x: nat)
    requires x < 256 && addr < 0x100_0000
    ensures (addr * 256 + x) % 0x1_0000_0000 == addr * 256 + x
  {}

  lemma LastOctet(addr: nat, x: nat)
    requires x < 256 && addr < 0x100_0000
    ensures V4Run(V4(addr, 0, 3), Dec(x)) == Some(addr * 256 + x)
  {
    assert Dec(x) + [] == Dec(x);
    OctetReads(addr, 3, x, []);
    NoCarry(addr, x);
  }

  lemma TwoOctets(addr: nat, dots: nat, x: nat, y: nat, t: seq<byte>)
    requires x < 256 && y < 256 && addr < 0x1_0000
    ensures V4Run(V4(addr, 0, dots), Dec(x) + [DOT] + (Dec(y) + [DOT] + t))
      == V4Run(V4((addr * 256 + x) * 256 + y, 0, dots + 2), t)
  {
    OctetAndDot(addr, dots, x, Dec(y) + [DOT] + t);
    OctetAndDot(addr * 256 + x, dots + 1, y, t);
  }

  lemma LastTwoOctets(addr: nat, x: nat, y: nat)
    requires x < 256 && y < 256 && addr < 0x1_0000
    ensures V4Run(V4(addr, 0, 2), Dec(x) + [DOT] + Dec(y)) == Some((addr * 256 + x) * 256 + y)
  {
    OctetAndDot(addr, 2, x, Dec(y));
    LastOctet(addr * 256 + x, y);
  }

  lemma FirstTwoOctets(x: nat, y: nat, t: seq<byte>, r: Option<nat>)
    requires x < 256 && y < 256 && V4Run(V4(x * 256 + y, 0, 2), t) == r
    ensures V4Run(V4(0, 0, 0), Dec(x) + [DOT] + (Dec(y) + [DOT] + t)) == r
  {
    TwoOctets(0, 0, x, y, t);
  }

  lemma OctetsRead(a: nat, b: nat, c: nat, d: nat)
    requires a < 256 && b < 256 && c < 256 && d < 256
    ensures V4Run(V4(0, 0, 0), Dec(a) + [DOT] + (Dec(b) + [DOT] + (Dec(c) + [DOT] + Dec(d))))
      == Some(((a * 256 + b) * 256 + c) * 256 + d)
  {
    LastTwoOctets(a * 256 + b, c, d);
    FirstTwoOctets(a, b, Dec(c) + [DOT] + Dec(d), Some(((a * 256 + b) * 256 + c) * 256 + d));
  }

  lemma OctetsOf(hi: word, lo: word)
    ensures ((hi / 256 * 256 + hi % 256) * 256 + lo / 256) * 256 + lo % 256 == hi * 0x1_0000 + lo
    ensures hi * 0x1_0000 + lo == 0xffff_ffff <==> hi == 0xffff && lo == 0xffff
  {}

  /** A dotted address is read back, except that all ones is taken for a failure. */
  lemma DotsRead(hi: word, lo: word)
    ensures InetAddr(Dots(hi, lo)) == if hi == 0xffff && lo == 0xffff then None else Some(hi * 0x1_0000 + lo)
  {
    OctetsRead(hi / 256, hi % 256, lo / 256, lo % 256);
    OctetsOf(hi, lo);
  }

  predicate AllDecimal(t: seq<byte>) {
    forall i :: 0 <= i < |t| ==> 48 <= t[i] <= 57
  }

  lemma {:induction false} DecIsShort(x: nat)
    requires x < 1000
    ensures AllDecimal(Dec(x)) && |Dec(x)| == if x < 10 then 1 else if x < 100 then 2 else 3
  {
    if x >= 10 {
      DecIsShort(x / 10);
    }
  }

  /** Up to the first dot, the digits of the first octet are read as if they were hexadecimal. */
  lemma {:induction false} DotFound(s: State, ds: seq<byte>, t: seq<byte>)
    requires Proper(s) && AllDecimal(ds) && s.nibbles + |ds| <= 4 && s.nibbles + |ds| > 0
    requires |s.words| <= 6 && s.since.Some?
    ensures Parse(s, ds + [DOT] + t) == Tail4(s.words, s.zero, InetAddr(s.since.value))
    decreases |ds|
  {
    if ds == [] {
      assert ds + [DOT] + t == [DOT] + t;
      ParseStep(s, DOT, t);
    } else {
      assert ds + [DOT] + t == [ds[0]] + (ds[1..] + [DOT] + t);
      ParseStep(s, ds[0], ds[1..] + [DOT] + t);
      DotFound(Step(s, ds[0], ds[1..] + [DOT] + t).state, ds[1..], t);
    }
  }

  lemma TailWords(words: seq<word>, zero: int, hi: word, lo: word)
    requires |words| <= 6 && zero <= |words|
    ensures Tail4(words, zero, Some(hi * 0x1_0000 + lo)) == Finish(words + [hi, lo], zero)
  {}

  lemma TailReads(words: seq<word>, zero: int, hi: word, lo: word)
    requires |words| <= 6 && zero <= |words|
    ensures Parse(Plain(words, zero, Some(Dots(hi, lo))), Dots(hi, lo))
      == if hi == 0xffff && lo == 0xffff then None else Finish(words + [hi, lo], zero)
  {
    DecIsShort(hi / 256);
    DotFound(Plain(words, zero, Some(Dots(hi, lo))), Dec(hi / 256), Dec(hi % 256) + [DOT] + (Dec(lo / 256) + [DOT] + Dec(lo % 256)));
    DotsRead(hi, lo);
    TailWords(words, zero, hi, lo);
  }

  lemma DottedFinishes(words: seq<word>, max: nat)
    requires |words| == 8 && IsRun(words, 0, max) && 5 <= max <= 7
    ensures max >= 6 ==> Finish([words[6], words[7]], 0) == Some(words)
    ensures max == 5 ==> Finish([words[5], words[6], words[7]], 0) == Some(words)
  {
    if max >= 6 {
      var tail := [words[6], words[7]];
      assert tail[..0] + Zeros(6) + tail[0..] == words;
    } else {
      var tail := [words[5], words[6], words[7]];
      assert tail[..0] + Zeros(5) + tail[0..] == words;
    }
  }

  /** After the double colon comes the dotted tail, behind ffff if the run is of five words. */
  lemma DottedText(words: seq<word>, max: nat)
    requires |words| == 8 && IsRun(words, 0, max) && Dotted(words, 0, max)
    ensures var dots := Dots(words[6], words[7]);
      Text(words, 0, max) == [COLON] + ([COLON] + if max == 5 then Hex(words[5]) + [COLON] + dots else dots)
  {}

  /** A double colon opens the gap at the start. */
  lemma DoubleColon(t: seq<byte>)
    ensures Parsed([COLON] + ([COLON] + t)) == Parse(Plain([], 0, Some(t)), t)
  {}

  /** ::ffff: and a dotted tail */
  lemma MappedReads(f: word, hi: word, lo: word)
    ensures Parsed([COLON] + ([COLON] + (Hex(f) + [COLON] + Dots(hi, lo))))
      == if hi == 0xffff && lo == 0xffff then None else Finish([f, hi, lo], 0)
  {
    var dots := Dots(hi, lo);
    var t := Hex(f) + [COLON] + dots;
    DoubleColon(t);
    GroupReads([], 0, Some(t), f, dots);
    assert [] + [f] == [f];
    TailReads([f], 0, hi, lo);
    assert [f] + [hi, lo] == [f, hi, lo];
  }

  /** :: and a dotted tail */
  lemma CompatibleReads(hi: word, lo: word)
    ensures Parsed([COLON] + ([COLON] + Dots(hi, lo)))
      == if hi == 0xffff && lo == 0xffff then None else Finish([hi, lo], 0)
  {
    DoubleColon(Dots(hi, lo));
    TailReads([], 0, hi, lo);
    assert [] + [hi, lo] == [hi, lo];
  }

  lemma DottedRoundTrip(words: seq<word>, max: nat)
    requires |words| == 8 && IsRun(words, 0, max) && Dotted(words, 0, max)
    ensures Parsed(Text(words, 0, max)) == if words[6] == 0xffff && words[7] == 0xffff then None else Some(words)
  {
    DottedFinishes(words, max);
    DottedText(words, max);
    MappedReads(words[5], words[6], words[7]);
    CompatibleReads(words[6], words[7]);
  }

  // The loops.

  /** The longest run of two or more zero words, the first of them if there are several. */
  ghost predicate BestRun(words: seq<word>, zero: int, max: nat) {
    if zero < 0 then max == 1 && forall z: int, m: nat :: !IsRun(words, z, m)
    else IsRun(words, zero, max) && forall z: int, m: nat :: IsRun(words, z, m) ==> m <= max && (m == max ==> zero <= z)
  }

  /** Up to i the best run is known, except for the n zeros just before i. */
  ghost predicate BestUpTo(words: seq<word>, i: nat, zero: int, max: nat, n: nat)
    requires n <= i <= |words|
  {
    && (if zero < 0 then max == 1 else IsRun(words, zero, max) && zero + max <= i - n)
    && (forall k :: i - n <= k < i ==> words[k] == 0)
    && (i - n > 0 ==> words[i - n - 1] != 0)
    && (forall z: int, m: nat :: IsRun(words, z, m) && z + m <= i ==> z >= i - n || (zero >= 0 && m <= max && (m == max ==> zero <= z)))
  }

  /** The loop over the words that looks for the run; zero is -1 when there is none. */
  method FindRun(words: seq<word>) returns (zero: int, max: nat)
    ensures BestRun(words, zero, max) && zero >= -1
  {
    zero, max := -1, 1;
    var last, n, i := -1, 0, 0;
    while i < |words|
      invariant 0 <= n <= i <= |words| && zero >= -1 && (n > 0 ==> last == i - n)
      invariant BestUpTo(words, i, zero, max, n)
    {
      if words[i] != 0 {
        if max < n {
          zero, max := last, n;
        }
        n := 0;
      } else {
        if n == 0 {
          last := i;
        }
        n := n + 1;
      }
      i := i + 1;
    }
    if max < n {
      zero, max := last, n;
    }
  }

  function Word(hi: int, lo: int): (w: word)
    requires 0 <= hi < 256 && 0 <= lo < 256
    ensures w / 256 == hi && w % 256 == lo
  {
    hi * 256 + lo
  }

  /** The 16 bytes of an address as words, and back. */
  function WordsOf(p: seq<byte>): (words: seq<word>)
    requires |p| % 2 == 0
    ensures |words| == |p| / 2
  {
    if p == [] then [] else [Word(p[0], p[1])] + WordsOf(p[2..])
  }

  function BytesOf(words: seq<word>): (p: seq<byte>)
    ensures |p| == 2 * |words|
  {
    if words == [] then [] else [words[0] / 256, words[0] % 256] + BytesOf(words[1..])
  }

  lemma {:induction false} BytesOfWords(p: seq<byte>)
    requires |p| % 2 == 0
    ensures BytesOf(WordsOf(p)) == p
  {
    if p != [] {
      BytesOfWords(p[2..]);
      assert WordsOf(p)[1..] == WordsOf(p[2..]);
    }
  }

  /** What one turn of the printing loop writes. */
  function Piece(words: seq<word>, i: nat, zero: int): seq<byte>
    requires i < |words| == 8
  {
    if i == zero then [COLON] else Hex(words[i]) + if i < 7 then [COLON] else []
  }

  lemma Regroup(a: seq<byte>, b: seq<byte>, c: seq<byte>)
    ensures a + (b + c) == a + b + c
  {}

  lemma PieceByPiece(words: seq<word>, i: nat, n: nat, zero: int, max: nat, done: seq<byte>)
    requires |words| == 8 && i < n <= 8 && max > 0
    ensures done + Groups(words, i, n, zero, max)
      == done + Piece(words, i, zero) + Groups(words, if i == zero then i + max else i + 1, n, zero, max)
  {
    Regroup(done, Piece(words, i, zero), Groups(words, if i == zero then i + max else i + 1, n, zero, max));
  }

  /** The printing loop. */
  method PrintGroups(words: seq<word>, n: nat, zero: int, max: nat) returns (dst: seq<byte>)
    requires |words| == 8 && n <= 8 && max > 0
    ensures dst == Groups(words, 0, n, zero, max)
  {
    dst := [];
    var i := 0;
    while i < n
      invariant 0 <= i && dst + Groups(words, i, n, zero, max) == Groups(words, 0, n, zero, max)
      decreases n - i
    {
      PieceByPiece(words, i, n, zero, max, dst);
      dst := dst + Piece(words, i, zero);
      i := if i == zero then i + max else i + 1;
    }
  }

  /** t is the text of the address p, its first longest run of zero words left out. */
  ghost predicate Prints(p: seq<byte>, t: seq<byte>)
    requires |p| == 16
  {
    exists zero: int, max: nat ::
      zero >= -1 && max > 0 && BestRun(WordsOf(p), zero, max) && t == Text(WordsOf(p), zero, max)
  }

  /** The test on bytes that decides for the dotted form. */
  lemma DottedBytes(p: seq<byte>, zero: int, max: nat)
    requires |p| == 16
    ensures Dotted(WordsOf(p), zero, max) <==>
      zero == 0 && ((max == 5 && p[10] == 0xff && p[11] == 0xff) || max == 6 || (max == 7 && p[14] != 0 && p[15] != 1))
  {
    WordAt(p, 5);
    WordAt(p, 7);
  }

  lemma DotsBytes(p: seq<byte>)
    requires |p| == 16
    ensures Dots(WordsOf(p)[6], WordsOf(p)[7])
      == Dec(p[12]) + [DOT] + (Dec(p[13]) + [DOT] + (Dec(p[14]) + [DOT] + Dec(p[15])))
  {
    WordAt(p, 6);
    WordAt(p, 7);
  }

  /** The part of ngx_inet6_ntop after the search for the run. */
  method Print(p: seq<byte>, zero: int, max: nat) returns (dst: seq<byte>)
    requires |p| == 16 && max > 0
    ensures dst == Text(WordsOf(p), zero, max)
  {
    var n := 8;
    if zero == 0 && ((max == 5 && p[10] == 0xff && p[11] == 0xff) || max == 6 || (max == 7 && p[14] != 0 && p[15] != 1)) {
      n := 6;
    }
    DottedBytes(p, zero, max);
    DotsBytes(p);
    var groups := PrintGroups(WordsOf(p), n, zero, max);
    var tail := if n == 6 then Dec(p[12]) + [DOT] + (Dec(p[13]) + [DOT] + (Dec(p[14]) + [DOT] + Dec(p[15]))) else [];
    dst := (if zero == 0 then [COLON] else []) + (groups + tail);
  }

  lemma BestStart(words: seq<word>, zero: int, max: nat)
    requires |words| == 8 && BestRun(words, zero, max)
    ensures zero <= 7 && max > 0
  {}

  /** ngx_inet6_ntop: the text of the address, if the buffer has room for the longest text. */
  method Ntop(p: seq<byte>, len: nat) returns (dst: seq<byte>)
    requires |p| == 16
    ensures if len < 45 then dst == [] else Prints(p, dst) && |dst| <= len
  {
    if len < ADDRSTRLEN {
      return [];
    }
    var zero, max := FindRun(WordsOf(p));
    BestStart(WordsOf(p), zero, max);
    dst := Print(p, zero, max);
    TextFits(WordsOf(p), zero, max);
  }

  lemma {:induction false} WordAt(p: seq<byte>, i: nat)
    requires |p| % 2 == 0 && 2 * i + 1 < |p|
    ensures WordsOf(p)[i] / 256 == p[2 * i] && WordsOf(p)[i] % 256 == p[2 * i + 1]
  {
    if i > 0 {
      WordAt(p[2..], i - 1);
    }
  }

  /** An address has just one text. */
  lemma PrintsOne(p: seq<byte>, t: seq<byte>, t': seq<byte>)
    requires |p| == 16 && Prints(p, t) && Prints(p, t')
    ensures t == t'
  {
    var words := WordsOf(p);
    var zero: int, max: nat :| zero >= -1 && max > 0 && BestRun(words, zero, max) && t == Text(words, zero, max);
    var zero': int, max': nat :| zero' >= -1 && max' > 0 && BestRun(words, zero', max') && t' == Text(words, zero', max');
    BestRunUnique(words, zero, max, zero', max');
  }

  // What the text looks like, told without the loop.

  /** Words in hexadecimal, with colons between them. */
  function Colons(ws: seq<word>): seq<byte> {
    if |ws| == 0 then [] else if |ws| == 1 then Hex(ws[0]) else Hex(ws[0]) + [58] + Colons(ws[1..])
  }

  lemma {:induction false} GroupsBehind(words: seq<word>, i: nat, zero: int, max: nat)
    requires |words| == 8 && i <= 8 && zero < i && max > 0
    ensures Groups(words, i, 8, zero, max) == Colons(words[i..])
    decreases 8 - i
  {
    if i < 8 {
      GroupsBehind(words, i + 1, zero, max);
      assert words[i..][1..] == words[i + 1..];
    }
  }

  /** The words before the run, each with its colon. */
  function Fronts(ws: seq<word>): seq<byte> {
    if ws == [] then [] else Colons(ws) + [58]
  }

  lemma FrontsStep(w: word, ws: seq<word>)
    ensures Fronts([w] + ws) == Hex(w) + [58] + Fronts(ws)
  {
    assert ([w] + ws)[1..] == ws;
    assert ws == [] ==> [w] + ws == [w];
  }

  lemma GroupFirst(words: seq<word>, i: nat, zero: int, max: nat)
    requires |words| == 8 && i < 7 && i != zero && max > 0
    ensures Groups(words, i, 8, zero, max) == Hex(words[i]) + [58] + Groups(words, i + 1, 8, zero, max)
  {}

  lemma {:induction false} GroupsAround(words: seq<word>, i: nat, zero: int, max: nat)
    requires |words| == 8 && IsRun(words, zero, max) && i <= zero
    ensures Groups(words, i, 8, zero, max) == Fronts(words[i..zero]) + ([58] + Colons(words[zero + max..]))
    decreases zero - i
  {
    var back := [58] + Colons(words[zero + max..]);
    if i == zero {
      GroupsBehind(words, zero + max, zero, max);
      assert words[i..zero] == [] && [] + back == back;
    } else {
      var front := words[i + 1..zero];
      GroupFirst(words, i, zero, max);
      GroupsAround(words, i + 1, zero, max);
      assert words[i..zero] == [words[i]] + front;
      FrontsStep(words[i], front);
      Regroup(Hex(words[i]) + [58], Fronts(front), back);
    }
  }

  lemma TwoColons(a: seq<byte>, b: seq<byte>)
    ensures [] + (a + [58] + ([58] + b) + []) == a + [58, 58] + b
  {}

  lemma ColonsFirst(b: seq<byte>)
    ensures [58] + ([58] + b + []) == [58, 58] + b
  {}

  lemma PlainText(words: seq<word>, zero: int, max: nat)
    requires |words| == 8 && max > 0 && (zero < 0 || IsRun(words, zero, max)) && !Dotted(words, zero, max)
    ensures zero < 0 ==> Text(words, zero, max) == Colons(words)
    ensures zero >= 0 ==> Text(words, zero, max) == Colons(words[..zero]) + [58, 58] + Colons(words[zero + max..])
  {
    if zero < 0 {
      GroupsBehind(words, 0, zero, max);
      assert words[0..] == words;
    } else if zero == 0 {
      GroupsBehind(words, max, zero, max);
      ColonsFirst(Colons(words[max..]));
      assert Colons(words[..0]) + [58, 58] == [58, 58];
    } else {
      GroupsAround(words, 0, zero, max);
      assert words[0..zero] == words[..zero];
      TwoColons(Colons(words[..zero]), Colons(words[zero + max..]));
    }
  }

  /** The first five words are zero, and what follows calls for a dotted tail. */
  predicate EndsInQuad(p: seq<byte>)
    requires |p| == 16
  {
    p[..10] == [0, 0, 0, 0, 0, 0, 0, 0, 0, 0]
    && ((p[10] == 0xff && p[11] == 0xff)
        || (p[10] == 0 && p[11] == 0 && (p[12] != 0 || p[13] != 0 || (p[14] != 0 && p[15] != 1))))
  }

  lemma ZeroWord(p: seq<byte>, i: nat)
    requires |p| % 2 == 0 && 2 * i + 1 < |p|
    ensures WordsOf(p)[i] == 0 <==> p[2 * i] == 0 && p[2 * i + 1] == 0
  {
    WordAt(p, i);
  }

  lemma FiveZeroWords(p: seq<byte>)
    requires |p| == 16
    ensures WordsOf(p)[..5] == [0, 0, 0, 0, 0] <==> p[..10] == [0, 0, 0, 0, 0, 0, 0, 0, 0, 0]
  {
    ZeroWord(p, 0);
    ZeroWord(p, 1);
    ZeroWord(p, 2);
    ZeroWord(p, 3);
    ZeroWord(p, 4);
    assert WordsOf(p)[..5] == [WordsOf(p)[0], WordsOf(p)[1], WordsOf(p)[2], WordsOf(p)[3], WordsOf(p)[4]];
    assert p[..10] == [p[0], p[1], p[2], p[3], p[4], p[5], p[6], p[7], p[8], p[9]];
  }

  /** Which addresses are printed with a dotted tail. */
  lemma DottedIff(p: seq<byte>, zero: int, max: nat)
    requires |p| == 16 && BestRun(WordsOf(p), zero, max)
    ensures Dotted(WordsOf(p), zero, max) <==> EndsInQuad(p)
  {
    var w := WordsOf(p);
    DottedBytes(p, zero, max);
    FiveZeroWords(p);
    WordAt(p, 5);
    WordAt(p, 6);
    WordAt(p, 7);
    LeadingRun(w, zero, max);
  }

  /** The best run starts in front when the first five words are zero, and says how many there are. */
  lemma LeadingRun(w: seq<word>, zero: int, max: nat)
    requires |w| == 8 && BestRun(w, zero, max)
    ensures zero == 0 && max >= 5 <==> w[..5] == [0, 0, 0, 0, 0]
    ensures zero == 0 && max >= 6 <==> w[..5] == [0, 0, 0, 0, 0] && w[5] == 0
    ensures zero == 0 && max >= 7 <==> w[..5] == [0, 0, 0, 0, 0] && w[5] == 0 && w[6] == 0
    ensures zero == 0 && max >= 8 <==> w[..5] == [0, 0, 0, 0, 0] && w[5] == 0 && w[6] == 0 && w[7] == 0
  {
    assert w[..5] == [w[0], w[1], w[2], w[3], w[4]];
    if w[..5] == [0, 0, 0, 0, 0] {
      assert IsRun(w, 0, 5);
      assert w[5] == 0 ==> IsRun(w, 0, 6);
      assert w[5] == 0 && w[6] == 0 ==> IsRun(w, 0, 7);
      assert w[5] == 0 && w[6] == 0 && w[7] == 0 ==> IsRun(w, 0, 8);
    }
  }

  /** Four numbers with dots between them. */
  function QuadText(p: seq<byte>): seq<byte>
    requires |p| == 4
  {
    Dec(p[0]) + [46] + (Dec(p[1]) + [46] + (Dec(p[2]) + [46] + Dec(p[3])))
  }

  lemma FourFs()
    ensures Hex(0xffff) == [102, 102, 102, 102]
  {
    assert Hex(0xf) == [102] && Hex(0xff) == [102, 102] && Hex(0xfff) == [102, 102, 102];
  }

  lemma ColonsAndTail(t: seq<byte>)
    ensures [58] + ([58] + t) == [58, 58] + ([] + t)
    ensures [58] + ([58] + ([102, 102, 102, 102] + [58] + t)) == [58, 58] + ([102, 102, 102, 102, 58] + t)
  {}

  lemma QuadAtEnd(p: seq<byte>, max: nat)
    requires |p| == 16 && BestRun(WordsOf(p), 0, max) && max > 0 && Dotted(WordsOf(p), 0, max)
    ensures Text(WordsOf(p), 0, max)
      == [58, 58] + ((if p[10] == 0 then [] else [102, 102, 102, 102, 58]) + QuadText(p[12..]))
  {
    var w := WordsOf(p);
    DottedText(w, max);
    DotsBytes(p);
    FourFs();
    ZeroWord(p, 5);
    assert p[10] == 0 <==> max != 5 by {
      WordAt(p, 5);
      LeadingRun(w, 0, max);
    }
    ColonsAndTail(QuadText(p[12..]));
  }

  /**
   * The text told without the loop: words in hexadecimal between colons, a double colon for the run left
   * out; or, exactly for the addresses that end in a quad, :: or ::ffff: and four numbers between dots.
   */
  lemma TextIs(p: seq<byte>, t: seq<byte>, zero: int, max: nat)
    requires |p| == 16 && Prints(p, t) && BestRun(WordsOf(p), zero, max) && zero >= -1
    ensures EndsInQuad(p) ==> t == [58, 58] + ((if p[10] == 0 then [] else [102, 102, 102, 102, 58]) + QuadText(p[12..]))
    ensures !EndsInQuad(p) && zero < 0 ==> t == Colons(WordsOf(p))
    ensures !EndsInQuad(p) && zero >= 0 ==> t == Colons(WordsOf(p)[..zero]) + [58, 58] + Colons(WordsOf(p)[zero + max..])
  {
    var w := WordsOf(p);
    BestStart(w, zero, max);
    var zero': int, max': nat :| zero' >= -1 && max' > 0 && BestRun(w, zero', max') && t == Text(w, zero', max');
    BestRunUnique(w, zero, max, zero', max');
    DottedIff(p, zero, max);
    if EndsInQuad(p) {
      QuadAtEnd(p, max);
    } else {
      PlainText(w, zero, max);
    }
  }

  lemma BestRunUnique(words: seq<word>, zero: int, max: nat, zero': int, max': nat)
    requires BestRun(words, zero, max) && BestRun(words, zero', max') && zero >= -1 && zero' >= -1
    ensures zero == zero' && max == max'
  {}

  lemma ParseColon(s: State, t: seq<byte>, i: nat)
    requires Proper(s) && i < |t| && t[i] == COLON
    ensures (if s.nibbles > 0 then |s.words| >= 7 else s.zero >= 0) ==> Parse(s, t[i..]) == None
    ensures s.nibbles > 0 && |s.words| < 7 && s.word < 0x1_0000 ==>
      Parse(s, t[i..]) == Parse(State(s.words + [s.word], s.zero, 0, 0, Some(t[i + 1..])), t[i + 1..])
    ensures s.nibbles == 0 && s.zero < 0 ==>
      Parse(s, t[i..]) == Parse(State(s.words, |s.words|, 0, 0, Some(t[i + 1..])), t[i + 1..])
  {}

  lemma ParseDot(s: State, t: seq<byte>, i: nat)
    requires Proper(s) && i < |t| && t[i] == DOT && s.nibbles > 0
    ensures Parse(s, t[i..]) == if |s.words| > 6 || s.since.None? then None else Tail4(s.words, s.zero, InetAddr(s.since.value))
  {}

  lemma ParseDigit(s: State, t: seq<byte>, i: nat)
    requires Proper(s) && i < |t| && t[i] != COLON && (t[i] == DOT ==> s.nibbles == 0)
    ensures s.nibbles + 1 > 4 || HexValue(t[i]).None? ==> Parse(s, t[i..]) == None
    ensures s.nibbles + 1 <= 4 && HexValue(t[i]).Some? ==>
      var s' := State(s.words, s.zero, s.nibbles + 1, s.word * 16 + HexValue(t[i]).value, s.since);
      Proper(s') && Parse(s, t[i..]) == Parse(s', t[i + 1..])
  {}

  /** What a colon does: a word is stored, or the place of the gap noted. */
  method OnColon(words: seq<word>, zero: int, nibbles: nat, word: nat) returns (ok: bool, words': seq<word>, zero': int)
    requires |words| < 8 && word < 0x1_0000
    ensures ok <==> if nibbles > 0 then |words| < 7 else zero < 0
    ensures ok && nibbles > 0 ==> words' == words + [word] && zero' == zero
    ensures ok && nibbles == 0 ==> words' == words && zero' == |words|
  {
    ok, words', zero' := true, words, zero;
    if nibbles > 0 {
      words' := words + [word];
      if |words'| == 8 {
        ok := false;
      }
    } else {
      if zero >= 0 {
        ok := false;
      }
      zero' := |words|;
    }
  }

  /** ngx_inet6_addr */
  method Addr(t: seq<byte>) returns (r: Option<seq<byte>>)
    ensures r == AddrOf(t)
  {
    if t == [] {
      return None;
    }
    var i := 0;
    if t[0] == COLON {
      i := 1;
    }
    var words: seq<word>, zero: int, digit: int, nibbles: nat, word: nat := [], -1, -1, 0, 0;
    assert t[0..] == t;
    ghost var s := START;
    while i < |t|
      invariant 0 <= i <= |t| && digit <= i && s == StateAt(words, zero, nibbles, word, digit, t)
      invariant Proper(s) && Parse(s, t[i..]) == Parsed(t)
    {
      var c := t[i];
      FourNibbles(nibbles);
      if c == COLON {
        ParseColon(s, t, i);
        i := i + 1;
        var ok;
        ok, words, zero := OnColon(words, zero, nibbles, word);
        if !ok {
          return None;
        }
        digit, nibbles, word := i, 0, 0;
        s := State(words, zero, 0, 0, Some(t[i..]));
      } else if c == DOT && nibbles > 0 {
        ParseDot(s, t, i);
        if |words| > 6 || digit < 0 {
          return None;
        }
        r := EndDotted(words, zero, t[digit..]);
        return;
      } else {
        ParseDigit(s, t, i);
        i := i + 1;
        nibbles := nibbles + 1;
        var d := HexValue(c);
        if nibbles > 4 || d.None? {
          return None;
        }
        word := word * 16 + d.value;
        s := State(words, zero, nibbles, word, s.since);
      }
    }
    r := EndPlain(words, zero, nibbles, word);
  }

  /** The part of ngx_inet6_addr after its loop. */
  method EndPlain(words: seq<word>, zero: int, nibbles: nat, word: nat) returns (r: Option<seq<byte>>)
    requires |words| < 8 && zero <= |words| && nibbles <= 4 && word < Pow16(nibbles)
    ensures forall since :: r == AsBytes(Ending(State(words, zero, nibbles, word, since)))
  {
    if nibbles == 0 && zero < 0 {
      return None;
    }
    FourNibbles(nibbles);
    return AsBytes(Finish(words + [word], zero));
  }

  function AsBytes(w: Option<seq<word>>): Option<seq<byte>> {
    if w.None? then None else Some(BytesOf(w.value))
  }

  /** The part of ngx_inet6_addr from the first dot on. */
  method EndDotted(words: seq<word>, zero: int, tail: seq<byte>) returns (r: Option<seq<byte>>)
    requires |words| <= 6 && zero <= |words|
    ensures r == AsBytes(Tail4(words, zero, InetAddr(tail)))
  {
    var a := ReadV4(tail);
    if a.None? {
      return None;
    }
    return AsBytes(Finish(words + [a.value / 0x1_0000 % 0x1_0000, a.value % 0x1_0000], zero));
  }

  function StateAt(words: seq<word>, zero: int, nibbles: nat, word: nat, digit: int, t: seq<byte>): State
    requires digit <= |t|
  {
    State(words, zero, nibbles, word, if digit < 0 then None else Some(t[digit..]))
  }

  function AddrOf(t: seq<byte>): (r: Option<seq<byte>>) {
    AsBytes(Parsed(t))
  }

  /** ngx_inet_addr, in host order */
  method ReadV4(t: seq<byte>) returns (r: Option<nat>)
    ensures r == InetAddr(t)
  {
    var addr: nat, octet: nat, n: nat, i: nat := 0, 0, 0, 0;
    assert t[0..] == t;
    while i < |t|
      invariant 0 <= i <= |t| && V4Run(V4(addr, octet, n), t[i..]) == V4Run(V4(0, 0, 0), t)
    {
      var c := t[i];
      assert t[i..] == [c] + t[i + 1..];
      V4Next(V4(addr, octet, n), c, t[i + 1..]);
      if 48 <= c <= 57 {
        octet := (octet * 10 + c - 48) % 0x1_0000_0000_0000_0000;
      } else if c == DOT && octet < 256 {
        addr, octet, n := (addr * 256 + octet) % 0x1_0000_0000, 0, n + 1;
      } else {
        return None;
      }
      i := i + 1;
    }
    if n == 3 && octet < 256 {
      addr := (addr * 256 + octet) % 0x1_0000_0000;
      return if addr == 0xffff_ffff then None else Some(addr);
    }
    return None;
  }

  /** There are just two addresses that are printed with that tail. */
  lemma TwoExceptions(words: seq<word>, zero: int, max: nat)
    requires |words| == 8 && BestRun(words, zero, max) && max > 0
    ensures Dotted(words, zero, max) && words[6] == 0xffff && words[7] == 0xffff
      <==> words == [0, 0, 0, 0, 0, 0xffff, 0xffff, 0xffff] || words == [0, 0, 0, 0, 0, 0, 0xffff, 0xffff]
  {
    if words[..5] == [0, 0, 0, 0, 0] && words[6] == 0xffff && words[7] == 0xffff && (words[5] == 0 || words[5] == 0xffff) {
      var m := if words[5] == 0 then 6 else 5;
      assert forall i :: 0 <= i < 5 ==> words[i] == words[..5][i];
      assert IsRun(words, 0, m);
      assert forall z: int, k: nat :: IsRun(words, z, k) ==> z + k <= m;
    }
  }

  /**
   * Parsing the text of any address gives back its 16 bytes, except for ::ffff:255.255.255.255 and
   * ::255.255.255.255, which are refused.
   */
  lemma AddressRoundTrip(p: seq<byte>, t: seq<byte>)
    requires |p| == 16 && Prints(p, t)
    ensures AddrOf(t) ==
      if WordsOf(p) == [0, 0, 0, 0, 0, 0xffff, 0xffff, 0xffff] || WordsOf(p) == [0, 0, 0, 0, 0, 0, 0xffff, 0xffff] then None
      else Some(p)
  {
    var words := WordsOf(p);
    var zero: int, max: nat :| zero >= -1 && max > 0 && BestRun(words, zero, max) && t == Text(words, zero, max);
    TwoExceptions(words, zero, max);
    BytesOfWords(p);
    if Dotted(words, zero, max) {
      DottedRoundTrip(words, max);
    } else {
      PlainRoundTrip(words, zero, max);
    }
  }

  lemma {:induction false} GroupsFit(words: seq<word>, i: nat, n: nat, zero: int, max: nat)
    requires |words| == 8 && n <= 8 && max > 0
    ensures |Groups(words, i, n, zero, max)| <= if i < n then 5 * (n - i) - (if n == 8 then 1 else 0) + (if i <= zero then 1 else 0) else 0
    decreases 8 - i
  {
    if i < n {
      FourNibbles(4);
      assert Pow16(4) == 0x1_0000;
      HexLength(words[i], 4);
      if i == zero {
        GroupsFit(words, i + max, n, zero, max);
      } else {
        GroupsFit(words, i + 1, n, zero, max);
      }
    }
  }

  /** The text fits in the bytes the printer asks for. */
  lemma TextFits(words: seq<word>, zero: int, max: nat)
    requires |words| == 8 && max > 0 && zero <= 7
    ensures |Text(words, zero, max)| <= ADDRSTRLEN
  {
    var n := if Dotted(words, zero, max) then 6 else 8;
    GroupsFit(words, 0, n, zero, max);
    if n == 6 {
      assert Groups(words, 0, 6, 0, max) == [COLON] + Groups(words, max, 6, 0, max);
      GroupsFit(words, max, 6, 0, max);
      DecIsShort(words[6] / 256);
      DecIsShort(words[6] % 256);
      DecIsShort(words[7] / 256);
      DecIsShort(words[7] % 256);
    }
  }
}
