/** ngx_escape_uri and ngx_unescape_uri of src/core/ngx_string.c. */
module Uri {
  import opened Words
  import opened Bytes
  import opened Options

  const PERCENT: byte := 37
  const QUESTION: byte := 63

  /** An escape table: one bit for each byte. */
  type Table = t: seq<nat> | |t| == 8 witness [0, 0, 0, 0, 0, 0, 0, 0]

  const URI: Table := [0xffffffff, 0x80000029, 0, 0x80000000, 0xffffffff, 0xffffffff, 0xffffffff, 0xffffffff]
  const ARGS: Table := [0xffffffff, 0x88000869, 0, 0x80000000, 0xffffffff, 0xffffffff, 0xffffffff, 0xffffffff]
  const URI_COMPONENT: Table := [0xffffffff, 0xfc009fff, 0x78000001, 0xb8000001, 0xffffffff, 0xffffffff, 0xffffffff, 0xffffffff]
  const HTML: Table := [0xffffffff, 0x000000ad, 0, 0x80000000, 0xffffffff, 0xffffffff, 0xffffffff, 0xffffffff]
  const REFRESH: Table := [0xffffffff, 0x00000085, 0, 0x80000000, 0xffffffff, 0xffffffff, 0xffffffff, 0xffffffff]
  const MEMCACHED: Table := [0xffffffff, 0x00000021, 0, 0, 0, 0, 0, 0]
  /** NGX_ESCAPE_URI to NGX_ESCAPE_MAIL_AUTH, in the order of their numbers. */
  const TABLES: seq<Table> := [URI, ARGS, URI_COMPONENT, HTML, REFRESH, MEMCACHED, MEMCACHED]
  const NGX_ESCAPE_REFRESH := 4

  /** escape[ch >> 5] & (1 << (ch & 0x1f)) */
  predicate Marked(t: Table, ch: byte) {
    Bit(t[ch / 32], ch % 32)
  }

  predicate IsHex(ch: byte) {
    HexValue(ch).Some?
  }

  function Nibble(ch: byte): (n: int)
    requires IsHex(ch)
    ensures 0 <= n < 16
  {
    HexValue(ch).value
  }

  // Escaping.

  function EscapedByte(t: Table, ch: byte): seq<byte> {
    if Marked(t, ch) then [PERCENT, HexDigit(ch / 16), HexDigit(ch % 16)] else [ch]
  }

  function Escaped(t: Table, s: seq<byte>): seq<byte> {
    if s == [] then [] else EscapedByte(t, s[0]) + Escaped(t, s[1..])
  }

  function MarkedCount(t: Table, s: seq<byte>): nat {
    if s == [] then 0 else (if Marked(t, s[0]) then 1 else 0) + MarkedCount(t, s[1..])
  }

  /** The counting pass tells the room the escaping pass needs. */
  lemma {:induction false} EscapedLength(t: Table, s: seq<byte>)
    ensures |Escaped(t, s)| == |s| + 2 * MarkedCount(t, s)
  {
    if s != [] {
      EscapedLength(t, s[1..]);
    }
  }

  /** ngx_escape_uri with dst == NULL */
  method Count(t: Table, src: seq<byte>) returns (n: nat)
    ensures n == MarkedCount(t, src)
  {
    n := 0;
    var i := 0;
    while i < |src|
      invariant 0 <= i <= |src| && n + MarkedCount(t, src[i..]) == MarkedCount(t, src)
    {
      assert src[i..][1..] == src[i + 1..];
      if Marked(t, src[i]) {
        n := n + 1;
      }
      i := i + 1;
    }
  }

  lemma EscapedFrom(t: Table, src: seq<byte>, i: nat, done: seq<byte>)
    requires i < |src|
    ensures done + Escaped(t, src[i..]) == done + EscapedByte(t, src[i]) + Escaped(t, src[i + 1..])
  {}

  /** ngx_escape_uri into a buffer */
  method Escape(t: Table, src: seq<byte>) returns (dst: seq<byte>)
    ensures dst == Escaped(t, src)
  {
    dst := [];
    var i := 0;
    while i < |src|
      invariant 0 <= i <= |src| && dst + Escaped(t, src[i..]) == Escaped(t, src)
    {
      EscapedFrom(t, src, i, dst);
      if Marked(t, src[i]) {
        dst := dst + [PERCENT, HexDigit(src[i] / 16), HexDigit(src[i] % 16)];
      } else {
        dst := dst + [src[i]];
      }
      i := i + 1;
    }
  }

  // Unescaping.

  /** The type argument: the bits NGX_UNESCAPE_URI and NGX_UNESCAPE_REDIRECT. */
  datatype Mode = Mode(uri: bool, redirect: bool)

  /** sw_usual, or sw_quoted, or sw_quoted_second with the first digit */
  datatype State = Usual | Quoted | Second(first: byte)

  /** What one byte does: the next state, the bytes written, and whether decoding stops. */
  datatype Move = Move(state: State, out: seq<byte>, stop: bool)

  function Next(mode: Mode, st: State, ch: byte): Move
    requires st.Second? ==> IsHex(st.first)
  {
    match st
    case Usual =>
      if ch == QUESTION && (mode.uri || mode.redirect) then Move(Usual, [ch], true)
      else if ch == PERCENT then Move(Quoted, [], false)
      else Move(Usual, [ch], false)
    case Quoted =>
      if IsHex(ch) then Move(Second(ch), [], false) else Move(Usual, [ch], false)
    case Second(first) =>
      if !IsHex(ch) then Move(Usual, [], false)
      else
        var c := Nibble(first) * 16 + Nibble(ch);
        if c == QUESTION && (mode.uri || mode.redirect) then Move(Usual, [c], true)
        else if mode.redirect && !(mode.uri && !(48 <= ch <= 57)) && !(PERCENT < c < 0x7f)
        then Move(Usual, [PERCENT, first, ch], false)
        else Move(Usual, [c], false)
  }

  /** The bytes written from state st on, and how many bytes are read. */
  function Unescaped(mode: Mode, st: State, s: seq<byte>): seq<byte>
    requires st.Second? ==> IsHex(st.first)
    decreases |s|
  {
    if s == [] then []
    else
      var m := Next(mode, st, s[0]);
      if m.stop then m.out else m.out + Unescaped(mode, m.state, s[1..])
  }

  function Consumed(mode: Mode, st: State, s: seq<byte>): (n: nat)
    requires st.Second? ==> IsHex(st.first)
    ensures n <= |s|
    decreases |s|
  {
    if s == [] then 0
    else
      var m := Next(mode, st, s[0]);
      if m.stop then 1 else 1 + Consumed(mode, m.state, s[1..])
  }

  /** The body of the switch, with the digit value and the two bytes before the pointer as the source has them. */
  method Switch(mode: Mode, state: int, decoded: int, ch: byte, before: byte)
    returns (state': int, decoded': int, out: seq<byte>, stop: bool)
    requires 0 <= state <= 2 && (state == 2 ==> IsHex(before) && decoded == Nibble(before))
    ensures 0 <= state' <= 2 && (state' == 2 ==> IsHex(ch) && decoded' == Nibble(ch))
    ensures var m := Next(mode, StateOf(state, before), ch);
      out == m.out && stop == m.stop && StateOf(state', ch) == m.state
  {
    state', decoded', out, stop := state, decoded, [], false;
    match state {
      case 0 =>
        if ch == QUESTION && (mode.uri || mode.redirect) {
          return 0, decoded, [ch], true;
        }
        if ch == PERCENT {
          state' := 1;
        } else {
          out := [ch];
        }
      case 1 =>
        if 48 <= ch <= 57 {
          return 2, ch - 48, [], false;
        }
        var c := FoldCase(ch);
        if 97 <= c <= 102 {
          return 2, c - 97 + 10, [], false;
        }
        state', out := 0, [ch];
      case _ =>
        state' := 0;
        if 48 <= ch <= 57 {
          var c := decoded * 16 + ch - 48;
          if mode.redirect {
            out := if c > PERCENT && c < 0x7f then [c] else [PERCENT, before, ch];
          } else {
            out := [c];
          }
          return;
        }
        var l := FoldCase(ch);
        if 97 <= l <= 102 {
          var c := decoded * 16 + l - 97 + 10;
          if mode.uri {
            out, stop := [c], c == QUESTION;
          } else if mode.redirect {
            if c == QUESTION {
              out, stop := [c], true;
            } else {
              out := if c > PERCENT && c < 0x7f then [c] else [PERCENT, before, ch];
            }
          } else {
            out := [c];
          }
        }
    }
  }

  function StateOf(state: int, before: byte): State {
    if state == 0 then Usual else if state == 1 then Quoted else Second(before)
  }

  /** ngx_unescape_uri */
  method Unescape(mode: Mode, src: seq<byte>) returns (dst: seq<byte>, read: nat)
    ensures dst == Unescaped(mode, Usual, src) && read == Consumed(mode, Usual, src)
  {
    dst, read := [], 0;
    var state, decoded, before := 0, 0, 0;
    while read < |src|
      invariant read <= |src| && 0 <= state <= 2 && 0 <= before < 256
      invariant state == 2 ==> IsHex(before) && decoded == Nibble(before)
      invariant dst + Unescaped(mode, StateOf(state, before), src[read..]) == Unescaped(mode, Usual, src)
      invariant read + Consumed(mode, StateOf(state, before), src[read..]) == Consumed(mode, Usual, src)
    {
      var ch := src[read];
      assert src[read..][1..] == src[read + 1..];
      var out, stop;
      state, decoded, out, stop := Switch(mode, state, decoded, ch, before);
      dst, read, before := dst + out, read + 1, ch;
      if stop {
        return;
      }
    }
  }

  // The same read group by group, without a state.

  /** What the first group of the text gives: the bytes written, the bytes read, and whether decoding stops there. */
  datatype Group = Group(out: seq<byte>, n: nat, stop: bool)

  function FirstGroup(mode: Mode, s: seq<byte>): (g: Group)
    requires s != []
    ensures 1 <= g.n <= |s|
  {
    var stops := mode.uri || mode.redirect;
    if s[0] == 63 && stops then Group([63], 1, true)
    else if s[0] != 37 then Group([s[0]], 1, false)
    else if |s| == 1 then Group([], 1, false)
    else if !IsHex(s[1]) then Group([s[1]], 2, false)
    else if |s| == 2 then Group([], 2, false)
    else if !IsHex(s[2]) then Group([], 3, false)
    else
      var c := Nibble(s[1]) * 16 + Nibble(s[2]);
      if c == 63 && stops then Group([63], 3, true)
      else if mode.redirect && (!mode.uri || 48 <= s[2] <= 57) && (c <= 37 || 127 <= c) then Group(s[..3], 3, false)
      else Group([c], 3, false)
  }

  function Groups(mode: Mode, s: seq<byte>): seq<byte> {
    if s == [] then []
    else
      var g := FirstGroup(mode, s);
      if g.stop then g.out else g.out + Groups(mode, s[g.n..])
  }

  function GroupsRead(mode: Mode, s: seq<byte>): nat {
    if s == [] then 0
    else
      var g := FirstGroup(mode, s);
      if g.stop then g.n else g.n + GroupsRead(mode, s[g.n..])
  }

  lemma NextStep(mode: Mode, st: State, s: seq<byte>)
    requires s != [] && (st.Second? ==> IsHex(st.first))
    ensures var m := Next(mode, st, s[0]);
      && Unescaped(mode, st, s) == (if m.stop then m.out else m.out + Unescaped(mode, m.state, s[1..]))
      && Consumed(mode, st, s) == (if m.stop then 1 else 1 + Consumed(mode, m.state, s[1..]))
  {
  }

  lemma DigitStep(mode: Mode, s: seq<byte>)
    requires |s| > 2 && s[0] == PERCENT && IsHex(s[1])
    ensures var g := FirstGroup(mode, s);
      && Unescaped(mode, Second(s[1]), s[2..]) == (if g.stop then g.out else g.out + Unescaped(mode, Usual, s[g.n..]))
      && 2 + Consumed(mode, Second(s[1]), s[2..]) == (if g.stop then g.n else g.n + Consumed(mode, Usual, s[g.n..]))
  {
    assert s[2..][0] == s[2] && s[2..][1..] == s[3..];
    NextStep(mode, Second(s[1]), s[2..]);
  }

  lemma EscapeStep(mode: Mode, s: seq<byte>)
    requires |s| > 1 && s[0] == PERCENT
    ensures var g := FirstGroup(mode, s);
      && Unescaped(mode, Quoted, s[1..]) == (if g.stop then g.out else g.out + Unescaped(mode, Usual, s[g.n..]))
      && 1 + Consumed(mode, Quoted, s[1..]) == (if g.stop then g.n else g.n + Consumed(mode, Usual, s[g.n..]))
  {
    assert s[1..][0] == s[1] && s[1..][1..] == s[2..];
    NextStep(mode, Quoted, s[1..]);
    if IsHex(s[1]) && |s| > 2 {
      DigitStep(mode, s);
    }
  }

  lemma GroupStep(mode: Mode, s: seq<byte>)
    requires s != []
    ensures var g := FirstGroup(mode, s);
      && Unescaped(mode, Usual, s) == (if g.stop then g.out else g.out + Unescaped(mode, Usual, s[g.n..]))
      && Consumed(mode, Usual, s) == (if g.stop then g.n else g.n + Consumed(mode, Usual, s[g.n..]))
  {
    NextStep(mode, Usual, s);
    if s[0] == PERCENT && |s| > 1 {
      EscapeStep(mode, s);
    }
  }

  /** For every type, the state machine writes and reads what the groups say. */
  lemma {:induction false} UnescapedByGroups(mode: Mode, s: seq<byte>)
    ensures Unescaped(mode, Usual, s) == Groups(mode, s) && Consumed(mode, Usual, s) == GroupsRead(mode, s)
    decreases |s|
  {
    if s != [] {
      GroupStep(mode, s);
      var g := FirstGroup(mode, s);
      if !g.stop {
        UnescapedByGroups(mode, s[g.n..]);
      }
    }
  }

  // Round trip, with type 0.

  const PLAIN := Mode(false, false)

  function Plain(st: State, s: seq<byte>): seq<byte>
    requires st.Second? ==> IsHex(st.first)
  {
    Unescaped(PLAIN, st, s)
  }

  lemma PlainStep(st: State, c: byte, s: seq<byte>)
    requires st.Second? ==> IsHex(st.first)
    ensures Plain(st, [c] + s) == Next(PLAIN, st, c).out + Plain(Next(PLAIN, st, c).state, s)
  {}

  const URI_TYPE := Mode(true, false)

  lemma GroupOfPrefix(s: seq<byte>, k: nat)
    requires s != [] && FirstGroup(URI_TYPE, s).n <= k <= |s|
    ensures s[..k] != [] && FirstGroup(PLAIN, s[..k]) == FirstGroup(URI_TYPE, s).(stop := false)
  {
  }

  /** With the URI type what is read is decoded plainly, and reading stops early only behind a question mark. */
  lemma {:induction false} UriStopsAtQuestion(s: seq<byte>)
    ensures var n, u := GroupsRead(URI_TYPE, s), Groups(URI_TYPE, s);
      n <= |s| && u == Groups(PLAIN, s[..n]) && (n < |s| ==> u != [] && u[|u| - 1] == QUESTION)
    decreases |s|
  {
    if s != [] {
      var g, n := FirstGroup(URI_TYPE, s), GroupsRead(URI_TYPE, s);
      if g.stop {
        GroupOfPrefix(s, g.n);
        assert s[..g.n][g.n..] == [] && Groups(PLAIN, []) == [];
      } else {
        UriStopsAtQuestion(s[g.n..]);
        GroupOfPrefix(s, n);
        assert s[..n][g.n..] == s[g.n..][..n - g.n];
      }
    }
  }

  /** A percent sign and two digits are one byte again. */
  lemma PlainHex(a: byte, b: byte, s: seq<byte>)
    requires IsHex(a) && IsHex(b)
    ensures Plain(Usual, [PERCENT, a, b] + s) == [Nibble(a) * 16 + Nibble(b)] + Plain(Usual, s)
  {
    assert [PERCENT, a, b] + s == [PERCENT] + ([a] + ([b] + s));
    PlainStep(Usual, PERCENT, [a] + ([b] + s));
    PlainStep(Quoted, a, [b] + s);
    PlainStep(Second(a), b, s);
  }

  /** A byte that is escaped, or is no percent sign, comes back. */
  lemma PlainByte(t: Table, c: byte, s: seq<byte>)
    requires Marked(t, c) || c != PERCENT
    ensures Plain(Usual, EscapedByte(t, c) + s) == [c] + Plain(Usual, s)
  {
    if Marked(t, c) {
      PlainHex(HexDigit(c / 16), HexDigit(c % 16), s);
    } else {
      PlainStep(Usual, c, s);
    }
  }

  /** Unescaping undoes escaping if the table escapes the percent sign, or there is none. */
  lemma {:induction false} RoundTrip(t: Table, s: seq<byte>)
    requires Marked(t, PERCENT) || PERCENT !in s
    ensures Plain(Usual, Escaped(t, s)) == s
  {
    if s != [] {
      RoundTrip(t, s[1..]);
      PlainByte(t, s[0], Escaped(t, s[1..]));
    }
  }

  // Which bytes the tables mark.

  lemma Byte00(i: nat)
    requires i < 8
    ensures !LowBit(0x00, i)
  {
  }

  lemma Byte01(i: nat)
    requires i < 8
    ensures LowBit(0x01, i) <==> i in {0}
  {
  }

  lemma Byte08(i: nat)
    requires i < 8
    ensures LowBit(0x08, i) <==> i in {3}
  {
  }

  lemma Byte21(i: nat)
    requires i < 8
    ensures LowBit(0x21, i) <==> i in {0, 5}
  {
  }

  lemma Byte29(i: nat)
    requires i < 8
    ensures LowBit(0x29, i) <==> i in {0, 3, 5}
  {
  }

  lemma Byte69(i: nat)
    requires i < 8
    ensures LowBit(0x69, i) <==> i in {0, 3, 5, 6}
  {
  }

  lemma Byte78(i: nat)
    requires i < 8
    ensures LowBit(0x78, i) <==> i in {3, 4, 5, 6}
  {
  }

  lemma Byte80(i: nat)
    requires i < 8
    ensures LowBit(0x80, i) <==> i in {7}
  {
  }

  lemma Byte85(i: nat)
    requires i < 8
    ensures LowBit(0x85, i) <==> i in {0, 2, 7}
  {
  }

  lemma Byte88(i: nat)
    requires i < 8
    ensures LowBit(0x88, i) <==> i in {3, 7}
  {
  }

  lemma Byte9f(i: nat)
    requires i < 8
    ensures LowBit(0x9f, i) <==> i in {0, 1, 2, 3, 4, 7}
  {
  }

  lemma Bytead(i: nat)
    requires i < 8
    ensures LowBit(0xad, i) <==> i in {0, 2, 3, 5, 7}
  {
  }

  lemma Byteb8(i: nat)
    requires i < 8
    ensures LowBit(0xb8, i) <==> i in {3, 4, 5, 7}
  {
  }

  lemma Bytefc(i: nat)
    requires i < 8
    ensures LowBit(0xfc, i) <==> i in {2, 3, 4, 5, 6, 7}
  {
  }

  lemma Byteff(i: nat)
    requires i < 8
    ensures LowBit(0xff, i)
  {
  }

  lemma UriBits(i: nat)
    requires i < 32
    ensures Bit(0x80000029, i) <==> i in {0, 3, 5, 31}
  {
    BitByByte(0x80000029, i);
    if i < 8 {
      Byte29(i);
    } else if i < 16 {
      Byte00(i - 8);
    } else if i < 24 {
      Byte00(i - 16);
    } else {
      Byte80(i - 24);
    }
  }

  lemma ArgsBits(i: nat)
    requires i < 32
    ensures Bit(0x88000869, i) <==> i in {0, 3, 5, 6, 11, 27, 31}
  {
    BitByByte(0x88000869, i);
    if i < 8 {
      Byte69(i);
    } else if i < 16 {
      Byte08(i - 8);
    } else if i < 24 {
      Byte00(i - 16);
    } else {
      Byte88(i - 24);
    }
  }

  lemma ComponentBits(i: nat)
    requires i < 32
    ensures Bit(0xfc009fff, i) <==> i < 13 || i == 15 || i >= 26
  {
    BitByByte(0xfc009fff, i);
    if i < 8 {
      Byteff(i);
    } else if i < 16 {
      Byte9f(i - 8);
    } else if i < 24 {
      Byte00(i - 16);
    } else {
      Bytefc(i - 24);
    }
  }

  lemma HtmlBits(i: nat)
    requires i < 32
    ensures Bit(0xad, i) <==> i in {0, 2, 3, 5, 7}
  {
    BitByByte(0xad, i);
    if i < 8 {
      Bytead(i);
    } else if i < 16 {
      Byte00(i - 8);
    } else if i < 24 {
      Byte00(i - 16);
    } else {
      Byte00(i - 24);
    }
  }

  lemma RefreshBits(i: nat)
    requires i < 32
    ensures Bit(0x85, i) <==> i in {0, 2, 7}
  {
    BitByByte(0x85, i);
    if i < 8 {
      Byte85(i);
    } else if i < 16 {
      Byte00(i - 8);
    } else if i < 24 {
      Byte00(i - 16);
    } else {
      Byte00(i - 24);
    }
  }

  lemma MemcachedBits(i: nat)
    requires i < 32
    ensures Bit(0x21, i) <==> i in {0, 5}
  {
    BitByByte(0x21, i);
    if i < 8 {
      Byte21(i);
    } else if i < 16 {
      Byte00(i - 8);
    } else if i < 24 {
      Byte00(i - 16);
    } else {
      Byte00(i - 24);
    }
  }

  lemma UpperBits(i: nat)
    requires i < 32
    ensures Bit(0x78000001, i) <==> i == 0 || 27 <= i <= 30
  {
    BitByByte(0x78000001, i);
    if i < 8 {
      Byte01(i);
    } else if i < 16 {
      Byte00(i - 8);
    } else if i < 24 {
      Byte00(i - 16);
    } else {
      Byte78(i - 24);
    }
  }

  lemma LowerBits(i: nat)
    requires i < 32
    ensures Bit(0xb8000001, i) <==> i in {0, 27, 28, 29, 31}
  {
    BitByByte(0xb8000001, i);
    if i < 8 {
      Byte01(i);
    } else if i < 16 {
      Byte00(i - 8);
    } else if i < 24 {
      Byte00(i - 16);
    } else {
      Byteb8(i - 24);
    }
  }

  lemma TopBit(i: nat)
    requires i < 32
    ensures Bit(0x80000000, i) <==> i == 31
  {
    BitByByte(0x80000000, i);
    if i < 8 {
      Byte00(i);
    } else if i < 16 {
      Byte00(i - 8);
    } else if i < 24 {
      Byte00(i - 16);
    } else {
      Byte80(i - 24);
    }
  }

  lemma NoBits(i: nat)
    requires i < 32
    ensures !Bit(0x0, i)
  {
    BitByByte(0x0, i);
    if i < 8 {
      Byte00(i);
    } else if i < 16 {
      Byte00(i - 8);
    } else if i < 24 {
      Byte00(i - 16);
    } else {
      Byte00(i - 24);
    }
  }

  lemma AllBits(i: nat)
    requires i < 32
    ensures Bit(0xffffffff, i)
  {
    BitByByte(0xffffffff, i);
    if i < 8 {
      Byteff(i);
    } else if i < 16 {
      Byteff(i - 8);
    } else if i < 24 {
      Byteff(i - 16);
    } else {
      Byteff(i - 24);
    }
  }

  /** Controls, everything from DEL on, the space, and # % ? */
  lemma UriTable(c: byte)
    ensures Marked(URI, c) <==> c < 32 || c >= 127 || c in {32, 35, 37, 63}
  {
    if c < 32 {
      AllBits(c % 32);
    } else if c < 64 {
      UriBits(c % 32);
    } else if c < 96 {
      NoBits(c % 32);
    } else if c < 128 {
      TopBit(c % 32);
    } else {
      AllBits(c % 32);
    }
  }

  /** The same and & + ; (the comment in the source leaves out the semicolon). */
  lemma ArgsTable(c: byte)
    ensures Marked(ARGS, c) <==> c < 32 || c >= 127 || c in {32, 35, 37, 38, 43, 59, 63}
  {
    if c < 32 {
      AllBits(c % 32);
    } else if c < 64 {
      ArgsBits(c % 32);
    } else if c < 96 {
      NoBits(c % 32);
    } else if c < 128 {
      TopBit(c % 32);
    } else {
      AllBits(c % 32);
    }
  }

  /** Everything but digits, letters and - . _ ~ */
  lemma ComponentTable(c: byte)
    ensures Marked(URI_COMPONENT, c) <==> !(48 <= c <= 57 || 65 <= c <= 90 || 97 <= c <= 122 || c in {45, 46, 95, 126})
  {
    if c < 32 {
      AllBits(c % 32);
    } else if c < 64 {
      ComponentBits(c % 32);
    } else if c < 96 {
      UpperBits(c % 32);
    } else if c < 128 {
      LowerBits(c % 32);
    } else {
      AllBits(c % 32);
    }
  }

  /** Controls, everything from DEL on, the space, the quotes, and # % */
  lemma HtmlTable(c: byte)
    ensures Marked(HTML, c) <==> c < 32 || c >= 127 || c in {32, 34, 35, 37, 39}
  {
    if c < 32 {
      AllBits(c % 32);
    } else if c < 64 {
      HtmlBits(c % 32);
    } else if c < 96 {
      NoBits(c % 32);
    } else if c < 128 {
      TopBit(c % 32);
    } else {
      AllBits(c % 32);
    }
  }

  /** Controls, everything from DEL on, the space and the quotes, but not the percent sign. */
  lemma RefreshTable(c: byte)
    ensures Marked(REFRESH, c) <==> c < 32 || c >= 127 || c in {32, 34, 39}
  {
    if c < 32 {
      AllBits(c % 32);
    } else if c < 64 {
      RefreshBits(c % 32);
    } else if c < 96 {
      NoBits(c % 32);
    } else if c < 128 {
      TopBit(c % 32);
    } else {
      AllBits(c % 32);
    }
  }

  /** Controls, the space and the percent sign. */
  lemma MemcachedTable(c: byte)
    ensures Marked(MEMCACHED, c) <==> c <= 32 || c == 37
  {
    if c < 32 {
      AllBits(c % 32);
    } else if c < 64 {
      MemcachedBits(c % 32);
    } else if c < 96 {
      NoBits(c % 32);
    } else if c < 128 {
      NoBits(c % 32);
    } else {
      NoBits(c % 32);
    }
  }

  /** Every table but the one for refresh escapes the percent sign. */
  lemma TablesMarkPercent(kind: int)
    requires 0 <= kind < |TABLES|
    ensures Marked(TABLES[kind], PERCENT) <==> kind != NGX_ESCAPE_REFRESH
  {
    UriTable(PERCENT);
    ArgsTable(PERCENT);
    ComponentTable(PERCENT);
    HtmlTable(PERCENT);
    RefreshTable(PERCENT);
    MemcachedTable(PERCENT);
  }

  // A table that leaves the percent sign alone: the trip never comes back to a string that has one.

  /** What escaping and then unescaping makes of the first few bytes of x, and how many they are. */
  datatype Piece = Piece(out: seq<byte>, n: nat)

  function FirstPiece(t: Table, x: seq<byte>): (p: Piece)
    requires x != []
    ensures 1 <= p.n <= |x|
  {
    if x[0] != PERCENT then Piece([x[0]], 1)
    else if |x| == 1 then Piece([], 1)
    else if Marked(t, x[1]) then Piece([PERCENT, HexDigit(x[1] / 16), HexDigit(x[1] % 16)], 2)
    else if !IsHex(x[1]) then Piece([x[1]], 2)
    else if |x| == 2 then Piece([], 2)
    else if Marked(t, x[2]) then Piece([HexDigit(x[2] / 16), HexDigit(x[2] % 16)], 3)
    else if IsHex(x[2]) then Piece([Nibble(x[1]) * 16 + Nibble(x[2])], 3)
    else Piece([], 3)
  }

  /** An escape where a digit was expected: the percent sign is taken as it stands, the digits follow. */
  lemma QuotedEscape(st: State, c: byte, t: Table, s: seq<byte>)
    requires Marked(t, c) && !st.Usual? && (st.Second? ==> IsHex(st.first))
    ensures Plain(st, EscapedByte(t, c) + s)
      == (if st.Quoted? then [PERCENT] else []) + [HexDigit(c / 16), HexDigit(c % 16)] + Plain(Usual, s)
  {
    var a, b := HexDigit(c / 16), HexDigit(c % 16);
    assert EscapedByte(t, c) + s == [PERCENT] + ([a] + ([b] + s));
    PlainStep(st, PERCENT, [a] + ([b] + s));
    PlainStep(Usual, a, [b] + s);
    PlainStep(Usual, b, s);
  }

  lemma SecondPiece(t: Table, a: byte, x: seq<byte>)
    requires IsHex(a)
    ensures Plain(Second(a), Escaped(t, x)) ==
      if x == [] then []
      else if Marked(t, x[0]) then [HexDigit(x[0] / 16), HexDigit(x[0] % 16)] + Plain(Usual, Escaped(t, x[1..]))
      else if IsHex(x[0]) then [Nibble(a) * 16 + Nibble(x[0])] + Plain(Usual, Escaped(t, x[1..]))
      else Plain(Usual, Escaped(t, x[1..]))
  {
    if x != [] {
      var rest := Escaped(t, x[1..]);
      assert Escaped(t, x) == EscapedByte(t, x[0]) + rest;
      if Marked(t, x[0]) {
        QuotedEscape(Second(a), x[0], t, rest);
      } else {
        PlainStep(Second(a), x[0], rest);
      }
    }
  }

  lemma QuotedPiece(t: Table, x: seq<byte>)
    ensures Plain(Quoted, Escaped(t, x)) ==
      if x == [] then []
      else if Marked(t, x[0]) then [PERCENT, HexDigit(x[0] / 16), HexDigit(x[0] % 16)] + Plain(Usual, Escaped(t, x[1..]))
      else if IsHex(x[0]) then Plain(Second(x[0]), Escaped(t, x[1..]))
      else [x[0]] + Plain(Usual, Escaped(t, x[1..]))
  {
    if x != [] {
      if Marked(t, x[0]) {
        QuotedEscape(Quoted, x[0], t, Escaped(t, x[1..]));
      } else {
        PlainStep(Quoted, x[0], Escaped(t, x[1..]));
      }
    }
  }

  lemma FirstPieceStep(t: Table, x: seq<byte>)
    requires x != [] && !Marked(t, PERCENT)
    ensures var p := FirstPiece(t, x);
      Plain(Usual, Escaped(t, x)) == p.out + Plain(Usual, Escaped(t, x[p.n..]))
  {
    if x[0] != PERCENT {
      PlainByte(t, x[0], Escaped(t, x[1..]));
    } else {
      PercentPiece(t, x);
    }
  }

  lemma PercentPiece(t: Table, x: seq<byte>)
    requires x != [] && x[0] == PERCENT && !Marked(t, PERCENT)
    ensures var p := FirstPiece(t, x);
      Plain(Usual, Escaped(t, x)) == p.out + Plain(Usual, Escaped(t, x[p.n..]))
  {
    PlainStep(Usual, PERCENT, Escaped(t, x[1..]));
    assert Plain(Usual, Escaped(t, x)) == Plain(Quoted, Escaped(t, x[1..]));
    QuotedPiece(t, x[1..]);
    if |x| > 1 {
      assert x[1..][1..] == x[2..];
      if !Marked(t, x[1]) && IsHex(x[1]) {
        HexPiece(t, x);
      }
    }
  }

  lemma HexPiece(t: Table, x: seq<byte>)
    requires |x| >= 2 && x[0] == PERCENT && !Marked(t, x[1]) && IsHex(x[1])
    ensures var p := FirstPiece(t, x);
      Plain(Second(x[1]), Escaped(t, x[2..])) == p.out + Plain(Usual, Escaped(t, x[p.n..]))
  {
    SecondPiece(t, x[1], x[2..]);
    assert |x| > 2 ==> x[2..][1..] == x[3..];
  }

  /** With w in front of x, or a percent sign in it, x never becomes w + x. */
  lemma {:induction false} NeverComesBack(t: Table, x: seq<byte>, w: seq<byte>)
    requires !Marked(t, PERCENT) && (forall c: byte :: IsHex(c) ==> !Marked(t, c))
    requires w != [] || PERCENT in x
    ensures Plain(Usual, Escaped(t, x)) != w + x
    decreases |x|
  {
    if x != [] {
      FirstPieceStep(t, x);
      var p := FirstPiece(t, x);
      var rest := x[p.n..];
      if Plain(Usual, Escaped(t, x)) == w + x {
        PieceFits(t, x, w, Plain(Usual, Escaped(t, rest)));
        Shifted(p.out, Plain(Usual, Escaped(t, rest)), w, x, p.n);
        NeverComesBack(t, rest, (w + x[..p.n])[|p.out|..]);
      }
    }
  }

  /** If x became w + x, something would still stand in front of the rest, or a percent sign be left in it. */
  lemma PieceFits(t: Table, x: seq<byte>, w: seq<byte>, more: seq<byte>)
    requires x != [] && (forall c: byte :: IsHex(c) ==> !Marked(t, c))
    requires w != [] || PERCENT in x
    requires FirstPiece(t, x).out + more == w + x
    ensures var p := FirstPiece(t, x);
      |p.out| <= |w| + p.n && (|p.out| < |w| + p.n || PERCENT in x[p.n..])
  {
    var p := FirstPiece(t, x);
    assert |w| == 0 && |x| > 1 ==> (w + x)[1] == x[1];
    assert |w| == 1 ==> (w + x)[1] == x[0];
    if x[0] == PERCENT && |x| > 1 && Marked(t, x[1]) {
      assert (p.out + more)[1] == HexDigit(x[1] / 16);
    } else if x[0] != PERCENT && w == [] {
      assert x == [x[0]] + x[1..];
    }
  }

  lemma Shifted(out: seq<byte>, more: seq<byte>, w: seq<byte>, x: seq<byte>, n: nat)
    requires n <= |x| && out + more == w + x && |out| <= |w| + n
    ensures more == (w + x[..n])[|out|..] + x[n..]
  {
    assert w + x == w + x[..n] + x[n..];
    assert (out + more)[|out|..] == more;
  }

  /** The refresh table: unescaping gives back exactly the strings without a percent sign. */
  lemma RefreshRoundTrip(s: seq<byte>)
    ensures Plain(Usual, Escaped(REFRESH, s)) == s <==> PERCENT !in s
  {
    if PERCENT in s {
      RefreshMarks();
      NeverComesBack(REFRESH, s, []);
      assert [] + s == s;
    } else {
      RoundTrip(REFRESH, s);
    }
  }

  /** For every escape type: the round trip holds, except for refresh on strings with a percent sign. */
  lemma EscapeRoundTrip(kind: int, s: seq<byte>)
    requires 0 <= kind < |TABLES|
    ensures Plain(Usual, Escaped(TABLES[kind], s)) == s <==> kind != NGX_ESCAPE_REFRESH || PERCENT !in s
  {
    TablesMarkPercent(kind);
    if kind == NGX_ESCAPE_REFRESH {
      RefreshRoundTrip(s);
    } else {
      RoundTrip(TABLES[kind], s);
    }
  }

  lemma RefreshMarks()
    ensures !Marked(REFRESH, PERCENT) && forall c: byte :: IsHex(c) ==> !Marked(REFRESH, c)
  {
    forall c: byte | c == PERCENT || IsHex(c) ensures !Marked(REFRESH, c) {
      RefreshTable(c);
    }
  }
}
