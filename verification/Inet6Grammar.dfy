/** Which texts ngx_inet_addr and ngx_inet6_addr of src/core/ngx_inet.c accept, told by their fields. */
module Inet6Grammar {
  import opened Bytes
  import opened Options
  import opened Inet6

  function FirstFrom(t: seq<byte>, c: byte, i: nat): (k: nat)
    requires i <= |t|
    ensures i <= k <= |t| && (k < |t| ==> t[k] == c) && forall j :: i <= j < k ==> t[j] != c
    decreases |t| - i
  {
    if i == |t| || t[i] == c then i else FirstFrom(t, c, i + 1)
  }

  /** Where c is first, or the length. */
  function First(t: seq<byte>, c: byte): (k: nat)
    ensures k <= |t| && (k < |t| ==> t[k] == c) && forall j :: 0 <= j < k ==> t[j] != c
  {
    FirstFrom(t, c, 0)
  }

  /** A text is a field without the separator, and then the separator and more, or its end. */
  lemma SplitsAt(t: seq<byte>, c: byte)
    ensures var k := First(t, c); c !in t[..k] && (k < |t| <==> c in t) && (k < |t| ==> t == t[..k] + [c] + t[k + 1..])
  {
  }

  /** The fields between the separators. */
  function Split(t: seq<byte>, c: byte): (fs: seq<seq<byte>>)
    ensures |fs| > 0
    decreases |t|
  {
    var k := First(t, c);
    if k == |t| then [t] else [t[..k]] + Split(t[k + 1..], c)
  }

  // Dotted quads.

  function Decimal(f: seq<byte>): (n: nat)
    requires AllDecimal(f)
  {
    if f == [] then 0 else Decimal(f[..|f| - 1]) * 10 + f[|f| - 1] - 48
  }

  /** The number as a machine word holds it. */
  function Octet(f: seq<byte>): (n: nat)
    requires AllDecimal(f)
  {
    Decimal(f) % 0x1_0000_0000_0000_0000
  }

  /** Digits, none at all included, that make less than 256 once wrapped. */
  predicate IsOctet(f: seq<byte>) {
    AllDecimal(f) && Octet(f) < 256
  }

  predicate AreOctets(fs: seq<seq<byte>>) {
    forall i :: 0 <= i < |fs| ==> IsOctet(fs[i])
  }

  /** (addr << 8) + octet in 32 bits */
  function Shift8(addr: nat, octet: nat): nat {
    (addr * 256 + octet) % 0x1_0000_0000
  }

  function Joined(addr: nat, fs: seq<seq<byte>>): (n: nat)
    requires AreOctets(fs)
    decreases fs
  {
    if fs == [] then addr else Joined(Shift8(addr, Octet(fs[0])), fs[1..])
  }

  lemma DigitWraps(n: nat, d: nat)
    ensures (n % 0x1_0000_0000_0000_0000 * 10 + d) % 0x1_0000_0000_0000_0000 == (n * 10 + d) % 0x1_0000_0000_0000_0000
  {}

  lemma {:induction false} DigitsRead(addr: nat, dots: nat, f: seq<byte>, t: seq<byte>)
    requires AllDecimal(f)
    ensures V4Run(V4(addr, 0, dots), f + t) == V4Run(V4(addr, Octet(f), dots), t)
  {
    if f == [] {
      assert f + t == t;
    } else {
      var g, c := f[..|f| - 1], f[|f| - 1];
      assert f + t == g + ([c] + t);
      DigitsRead(addr, dots, g, [c] + t);
      V4Next(V4(addr, Octet(g), dots), c, t);
      DigitWraps(Decimal(g), c - 48);
    }
  }

  lemma {:induction false} StrangerRefused(s: V4, f: seq<byte>, t: seq<byte>)
    requires DOT !in f && !AllDecimal(f)
    ensures V4Run(s, f + t) == None
    decreases f
  {
    if f != [] {
      assert f + t == [f[0]] + (f[1..] + t);
      V4Next(s, f[0], f[1..] + t);
      if 48 <= f[0] <= 57 {
        StrangerRefused(V4Step(s, f[0]).value, f[1..], t);
      }
    }
  }

  lemma OctetThenDot(addr: nat, dots: nat, f: seq<byte>, t: seq<byte>)
    requires DOT !in f
    ensures V4Run(V4(addr, 0, dots), f + [DOT] + t) ==
      if IsOctet(f) then V4Run(V4(Shift8(addr, Octet(f)), 0, dots + 1), t) else None
  {
    assert f + [DOT] + t == f + ([DOT] + t);
    if AllDecimal(f) {
      DigitsRead(addr, dots, f, [DOT] + t);
      V4Next(V4(addr, Octet(f), dots), DOT, t);
    } else {
      StrangerRefused(V4(addr, 0, dots), f, [DOT] + t);
    }
  }

  lemma OctetThenEnd(addr: nat, dots: nat, f: seq<byte>)
    requires DOT !in f
    ensures V4Run(V4(addr, 0, dots), f) == if IsOctet(f) && dots == 3 then Some(Shift8(addr, Octet(f))) else None
  {
    assert f + [] == f;
    if AllDecimal(f) {
      DigitsRead(addr, dots, f, []);
    } else {
      StrangerRefused(V4(addr, 0, dots), f, []);
    }
  }

  lemma OctetsCons(f: seq<byte>, fs: seq<seq<byte>>)
    ensures AreOctets([f] + fs) <==> IsOctet(f) && AreOctets(fs)
    ensures AreOctets([f] + fs) ==> forall addr: nat :: Joined(addr, [f] + fs) == Joined(Shift8(addr, Octet(f)), fs)
  {
    var all := [f] + fs;
    assert all[0] == f && all[1..] == fs;
    assert forall i :: 0 <= i < |fs| ==> fs[i] == all[i + 1];
  }

  lemma {:induction false} FieldsRead(addr: nat, dots: nat, t: seq<byte>)
    ensures var fs := Split(t, DOT);
      V4Run(V4(addr, 0, dots), t) == if AreOctets(fs) && |fs| + dots == 4 then Some(Joined(addr, fs)) else None
    decreases |t|
  {
    SplitsAt(t, DOT);
    var k := First(t, DOT);
    var f := t[..k];
    if k == |t| {
      assert f == t && Split(t, DOT) == [t] == [t] + [];
      OctetsCons(t, []);
      OctetThenEnd(addr, dots, t);
    } else {
      var u := t[k + 1..];
      assert t == f + [DOT] + u && Split(t, DOT) == [f] + Split(u, DOT);
      OctetsCons(f, Split(u, DOT));
      OctetThenDot(addr, dots, f, u);
      if IsOctet(f) {
        FieldsRead(Shift8(addr, Octet(f)), dots + 1, u);
      }
    }
  }

  lemma ShiftFits(addr: nat, octet: nat)
    requires addr < 0x100_0000 && octet < 256
    ensures Shift8(addr, octet) == addr * 256 + octet
  {}

  lemma TwoShifts(addr: nat, a: nat, b: nat)
    requires addr < 0x1_0000 && a < 256 && b < 256
    ensures Shift8(Shift8(addr, a), b) == addr * 0x1_0000 + a * 0x100 + b
  {
    ShiftFits(addr, a);
    ShiftFits(addr * 256 + a, b);
  }

  lemma FourShifts(a: nat, b: nat, c: nat, d: nat)
    requires a < 256 && b < 256 && c < 256 && d < 256
    ensures Shift8(Shift8(Shift8(Shift8(0, a), b), c), d) == a * 0x100_0000 + b * 0x1_0000 + c * 0x100 + d
  {
    TwoShifts(0, a, b);
    TwoShifts(a * 0x100 + b, c, d);
  }

  lemma AllOnes(a: nat, b: nat, c: nat, d: nat)
    requires a < 256 && b < 256 && c < 256 && d < 256
    ensures a * 0x100_0000 + b * 0x1_0000 + c * 0x100 + d == 0xffff_ffff <==> a == 255 && b == 255 && c == 255 && d == 255
  {}

  /** ngx_inet_addr accepts four octets between dots, and takes the broadcast address for a failure. */
  lemma QuadAccepted(t: seq<byte>)
    ensures var fs := Split(t, DOT);
      InetAddr(t).Some? <==> |fs| == 4 && AreOctets(fs) && exists i :: 0 <= i < 4 && Octet(fs[i]) != 255
    ensures InetAddr(t).Some? ==> var fs := Split(t, DOT);
      |fs| == 4 && AreOctets(fs) && InetAddr(t).value == Octet(fs[0]) * 0x100_0000 + Octet(fs[1]) * 0x1_0000 + Octet(fs[2]) * 0x100 + Octet(fs[3])
  {
    var fs := Split(t, DOT);
    FieldsRead(0, 0, t);
    if |fs| == 4 && AreOctets(fs) {
      FourShifts(Octet(fs[0]), Octet(fs[1]), Octet(fs[2]), Octet(fs[3]));
      AllOnes(Octet(fs[0]), Octet(fs[1]), Octet(fs[2]), Octet(fs[3]));
      JoinedFour(fs);
    }
  }

  lemma JoinedFour(fs: seq<seq<byte>>)
    requires |fs| == 4 && AreOctets(fs)
    ensures Joined(0, fs) == Shift8(Shift8(Shift8(Shift8(0, Octet(fs[0])), Octet(fs[1])), Octet(fs[2])), Octet(fs[3]))
  {
    assert fs == [fs[0]] + ([fs[1]] + ([fs[2]] + ([fs[3]] + [])));
    OctetsCons(fs[3], []);
    OctetsCons(fs[2], [fs[3]] + []);
    OctetsCons(fs[1], [fs[2]] + ([fs[3]] + []));
    OctetsCons(fs[0], [fs[1]] + ([fs[2]] + ([fs[3]] + [])));
  }

  // Addresses of version 6.

  predicate Hexes(f: seq<byte>) {
    forall i :: 0 <= i < |f| ==> HexValue(f[i]).Some?
  }

  predicate Group(f: seq<byte>) {
    1 <= |f| <= 4 && Hexes(f)
  }

  predicate GroupsOrGaps(fs: seq<seq<byte>>) {
    forall i :: 0 <= i < |fs| ==> fs[i] == [] || Group(fs[i])
  }

  /** The number of empty fields. */
  function Gaps(fs: seq<seq<byte>>): (n: nat)
    ensures n <= |fs|
  {
    if fs == [] then 0 else (if fs[0] == [] then 1 else 0) + Gaps(fs[1..])
  }

  /** A quad whose first octet is short enough to be taken for a group up to its dot. */
  predicate DottedTail(f: seq<byte>) {
    var d := First(f, DOT);
    0 < d <= 4 && Hexes(f[..d]) && InetAddr(f).Some?
  }

  /** With a gap there is a word missing at least, without one there is none. */
  predicate Fills(words: int, gap: bool) {
    if gap then words < 8 else words == 8
  }

  /** What may follow n words, perhaps with a gap among them, and perhaps with a colon before. */
  predicate Accepts(n: nat, gap: bool, colon: bool, fs: seq<seq<byte>>)
    requires |fs| > 0
  {
    var init, last := fs[..|fs| - 1], fs[|fs| - 1];
    var words, gaps := n + |init| - Gaps(init), Gaps(init) + (if gap then 1 else 0);
    && GroupsOrGaps(init) && gaps <= 1
    && if DOT in last then DottedTail(last) && (colon || init != []) && Fills(words + 2, gaps == 1)
       else |last| <= 4 && Hexes(last) && (last != [] || gaps == 1) && Fills(words + 1, gaps == 1)
  }

  lemma AcceptsCons(n: nat, gap: bool, colon: bool, f: seq<byte>, fs: seq<seq<byte>>)
    requires |fs| > 0
    ensures Accepts(n, gap, colon, [f] + fs) <==>
      if f == [] then !gap && Accepts(n, true, true, fs) else Group(f) && Accepts(n + 1, gap, true, fs)
  {
    var all, init := [f] + fs, fs[..|fs| - 1];
    assert all[..|all| - 1] == [f] + init && ([f] + init)[1..] == init && ([f] + init)[0] == f;
    assert GroupsOrGaps([f] + init) <==> (f == [] || Group(f)) && GroupsOrGaps(init) by {
      assert forall i :: 0 <= i < |init| ==> init[i] == ([f] + init)[i + 1];
    }
  }

  lemma TooMany(n: nat, gap: bool, colon: bool, fs: seq<seq<byte>>)
    requires |fs| > 0 && n >= 8
    ensures !Accepts(n, gap, colon, fs)
  {
  }

  lemma HexIsPlain(c: byte)
    requires HexValue(c).Some?
    ensures c != COLON && c != DOT
  {
  }

  /** Where the parser stands after digits. */
  function After(s: State, f: seq<byte>): (r: State)
    requires Proper(s) && Hexes(f) && s.nibbles + |f| <= 4
    ensures Proper(r) && r.words == s.words && r.zero == s.zero && r.since == s.since && r.nibbles == s.nibbles + |f|
    decreases f
  {
    if f == [] then s
    else
      HexIsPlain(f[0]);
      After(Step(s, f[0], []).state, f[1..])
  }

  lemma {:induction false} HexesRead(s: State, f: seq<byte>, t: seq<byte>)
    requires Proper(s) && Hexes(f) && s.nibbles + |f| <= 4
    ensures Parse(s, f + t) == Parse(After(s, f), t)
    decreases f
  {
    if f == [] {
      assert f + t == t;
    } else {
      HexIsPlain(f[0]);
      assert f + t == [f[0]] + (f[1..] + t);
      ParseStep(s, f[0], f[1..] + t);
      HexesRead(Step(s, f[0], f[1..] + t).state, f[1..], t);
    }
  }

  /** A field that is no group is refused, unless it turns out to be a quad. */
  lemma {:induction false} FieldRefused(s: State, f: seq<byte>, t: seq<byte>)
    requires Proper(s) && COLON !in f && !(Hexes(f) && s.nibbles + |f| <= 4)
    requires DOT in f && s.since.Some? ==> InetAddr(s.since.value).None?
    ensures Parse(s, f + t) == None
    decreases f
  {
    if f != [] {
      assert f + t == [f[0]] + (f[1..] + t);
      ParseStep(s, f[0], f[1..] + t);
      if Step(s, f[0], f[1..] + t).Next? {
        FieldRefused(Step(s, f[0], f[1..] + t).state, f[1..], t);
      }
    }
  }

  lemma {:induction false} ColonRefused(s: V4, t: seq<byte>)
    requires COLON in t
    ensures V4Run(s, t) == None
    decreases t
  {
    assert t == [t[0]] + t[1..];
    V4Next(s, t[0], t[1..]);
    if V4Step(s, t[0]).Some? {
      ColonRefused(V4Step(s, t[0]).value, t[1..]);
    }
  }

  lemma GroupThenColon(words: seq<word>, zero: int, since: Option<seq<byte>>, f: seq<byte>, t: seq<byte>) returns (w: word)
    requires |words| < 8 && zero <= |words| && Group(f)
    ensures Parse(Plain(words, zero, since), f + [COLON] + t) == if |words| < 7 then Parse(Plain(words + [w], zero, Some(t)), t) else None
  {
    var s := After(Plain(words, zero, since), f);
    FourNibbles(s.nibbles);
    w := s.word;
    assert f + [COLON] + t == f + ([COLON] + t);
    HexesRead(Plain(words, zero, since), f, [COLON] + t);
    ParseStep(s, COLON, t);
  }

  lemma OtherThenColon(words: seq<word>, zero: int, since: Option<seq<byte>>, f: seq<byte>, t: seq<byte>)
    requires |words| < 8 && zero <= |words| && COLON !in f && !Group(f)
    requires since.Some? ==> since.value == f + [COLON] + t
    ensures Parse(Plain(words, zero, since), f + [COLON] + t) ==
      if f == [] && zero < 0 then Parse(Plain(words, |words|, Some(t)), t) else None
  {
    var s := Plain(words, zero, since);
    assert f + [COLON] + t == f + ([COLON] + t);
    if f == [] {
      assert f + [COLON] + t == [COLON] + t;
      ParseStep(s, COLON, t);
    } else {
      if since.Some? {
        assert since.value[|f|] == COLON;
        ColonRefused(V4(0, 0, 0), since.value);
      }
      FieldRefused(s, f, [COLON] + t);
    }
  }

  lemma DotReads(s: State, t: seq<byte>)
    requires Proper(s)
    ensures Parse(s, [DOT] + t).Some? <==>
      s.nibbles > 0 && |s.words| <= 6 && s.since.Some? && InetAddr(s.since.value).Some? && Fills(|s.words| + 2, s.zero >= 0)
  {
    ParseStep(s, DOT, t);
  }

  lemma LastQuad(words: seq<word>, zero: int, since: Option<seq<byte>>, t: seq<byte>)
    requires |words| < 8 && zero <= |words| && COLON !in t && DOT in t && (since.Some? ==> since.value == t)
    ensures Parse(Plain(words, zero, since), t).Some? <==> DottedTail(t) && since.Some? && Fills(|words| + 2, zero >= 0)
  {
    SplitsAt(t, DOT);
    var s, d := Plain(words, zero, since), First(t, DOT);
    var f, u := t[..d], t[d + 1..];
    assert t == f + ([DOT] + u);
    if Hexes(f) && d <= 4 {
      HexesRead(s, f, [DOT] + u);
      DotReads(After(s, f), u);
    } else {
      FieldRefused(s, f, [DOT] + u);
    }
  }

  lemma LastGroup(words: seq<word>, zero: int, since: Option<seq<byte>>, t: seq<byte>)
    requires |words| < 8 && zero <= |words| && COLON !in t && DOT !in t
    ensures Parse(Plain(words, zero, since), t).Some? <==>
      |t| <= 4 && Hexes(t) && (t != [] || zero >= 0) && Fills(|words| + 1, zero >= 0)
  {
    var s := Plain(words, zero, since);
    assert t + [] == t;
    if Hexes(t) && |t| <= 4 {
      HexesRead(s, t, []);
    } else {
      FieldRefused(s, t, []);
    }
  }

  lemma LastAccepted(words: seq<word>, zero: int, since: Option<seq<byte>>, t: seq<byte>)
    requires |words| < 8 && zero <= |words| && COLON !in t && (since.Some? ==> since.value == t)
    ensures Parse(Plain(words, zero, since), t).Some? <==> Accepts(|words|, zero >= 0, since.Some?, [t])
  {
    assert [t][..0] == [];
    if DOT in t {
      LastQuad(words, zero, since, t);
    } else {
      LastGroup(words, zero, since, t);
    }
  }

  lemma GroupAccepts(n: nat, gap: bool, colon: bool, f: seq<byte>, fs: seq<seq<byte>>, rest: bool)
    requires |fs| > 0 && Group(f) && (n < 7 ==> (rest <==> Accepts(n + 1, gap, true, fs)))
    ensures Accepts(n, gap, colon, [f] + fs) <==> n < 7 && rest
  {
    AcceptsCons(n, gap, colon, f, fs);
    if n >= 7 {
      TooMany(n + 1, gap, true, fs);
    }
  }

  lemma {:induction false} FieldsAccepted(words: seq<word>, zero: int, since: Option<seq<byte>>, t: seq<byte>)
    requires |words| < 8 && zero <= |words| && (since.Some? ==> since.value == t)
    ensures Parse(Plain(words, zero, since), t).Some? <==> Accepts(|words|, zero >= 0, since.Some?, Split(t, COLON))
    decreases |t|, 1
  {
    SplitsAt(t, COLON);
    var k := First(t, COLON);
    if k == |t| {
      LastAccepted(words, zero, since, t);
    } else {
      MoreAccepted(words, zero, since, t[..k], t[k + 1..]);
    }
  }

  lemma {:induction false} MoreAccepted(words: seq<word>, zero: int, since: Option<seq<byte>>, f: seq<byte>, u: seq<byte>)
    requires |words| < 8 && zero <= |words| && COLON !in f && (since.Some? ==> since.value == f + [COLON] + u)
    ensures Parse(Plain(words, zero, since), f + [COLON] + u).Some? <==>
      Accepts(|words|, zero >= 0, since.Some?, [f] + Split(u, COLON))
    decreases |f| + 1 + |u|, 0
  {
    if Group(f) {
      var w := GroupThenColon(words, zero, since, f, u);
      if |words| < 7 {
        FieldsAccepted(words + [w], zero, Some(u), u);
      }
      GroupAccepts(|words|, zero >= 0, since.Some?, f, Split(u, COLON), |words| < 7 && Parse(Plain(words + [w], zero, Some(u)), u).Some?);
    } else {
      OtherThenColon(words, zero, since, f, u);
      AcceptsCons(|words|, zero >= 0, since.Some?, f, Split(u, COLON));
      if f == [] && zero < 0 {
        FieldsAccepted(words, |words|, Some(u), u);
      }
    }
  }

  /**
   * ngx_inet6_addr accepts exactly these: after a first colon is dropped, fields between colons that are groups of
   * up to four digits, at most one of them empty before the last; the last may be a quad, worth two words, if a
   * colon precedes it; it may be empty after a gap; and eight words in all, or fewer with a gap.
   */
  lemma AddressAccepted(t: seq<byte>)
    ensures AddrOf(t).Some? <==>
      t != [] && Accepts(0, false, false, Split(if t[0] == COLON then t[1..] else t, COLON))
  {
    if t != [] {
      FieldsAccepted([], -1, None, if t[0] == COLON then t[1..] else t);
    }
  }
}
