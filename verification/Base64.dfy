/** ngx_encode_base64 and ngx_decode_base64 of src/core/ngx_string.c against section 4 of RFC 4648. */
module Base64 {

  import opened Bytes
  import opened Options

  const PAD: byte := 61

  type Alphabet = d: seq<byte> | |d| == 64 witness seq(64, i => 0)
  /** A decoding table: the value of each digit, 77 for a byte that is no digit. */
  type Basis = b: seq<int> | |b| == 256 && forall c :: 0 <= c < 256 ==> 0 <= b[c] < 64 || b[c] == 77
    witness seq(256, i => 0)

  /** basis64 of the encoder: A-Z a-z 0-9 + / */
  function Digit(v: int): (c: byte)
  {
    if 0 <= v < 26 then 65 + v
    else if 26 <= v < 52 then 97 + v - 26
    else if 52 <= v < 62 then 48 + v - 52
    else if v == 62 then 43 else 47
  }

  /** basis64 of ngx_decode_base64 */
  function Value(c: int): (v: int)
    ensures 0 <= v < 64 || v == 77
  {
    if 65 <= c <= 90 then c - 65
    else if 97 <= c <= 122 then c - 97 + 26
    else if 48 <= c <= 57 then c - 48 + 52
    else if c == 43 then 62 else if c == 47 then 63 else 77
  }

  const ENCODE: Alphabet := seq(64, i => Digit(i))
  const DECODE: Basis := seq(256, c => Value(c))

  /** The table undoes the alphabet, and padding is no digit. */
  ghost predicate Inverse(d: Alphabet, v: Basis) {
    forall i :: 0 <= i < 64 ==> v[d[i]] == i && d[i] != PAD
  }

  lemma TablesAgree()
    ensures Inverse(ENCODE, DECODE)
  {}

  /** The alphabet of table 1 of RFC 4648; every other byte is no digit. */
  lemma AlphabetIs(i: int, c: byte)
    requires 0 <= i < 64
    ensures i < 26 ==> ENCODE[i] == 'A' as int + i
    ensures 26 <= i < 52 ==> ENCODE[i] == 'a' as int + i - 26
    ensures 52 <= i < 62 ==> ENCODE[i] == '0' as int + i - 52
    ensures ENCODE[62] == '+' as int && ENCODE[63] == '/' as int
    ensures DECODE[ENCODE[i]] == i
    ensures DECODE[c] == 77 <==> !(65 <= c <= 90 || 97 <= c <= 122 || 48 <= c <= 57 || c == 43 || c == 47)
  {
    TablesAgree();
    assert ENCODE[i] == Digit(i) && DECODE[c] == Value(c);
  }

  // What the encoding is: 24-bit groups of three bytes, cut into four 6-bit digits.

  function Group(a: byte, b: byte, c: byte): (n: int)
    ensures 0 <= n < 0x100_0000
  {
    a * 0x1_0000 + b * 0x100 + c
  }

  /** The k-th 6-bit digit of a 24-bit group. */
  function Cut(n: int, k: int): (v: int)
    requires 0 <= n < 0x100_0000 && 0 <= k < 4
    ensures 0 <= v < 64
  {
    match k
    case 0 => n / 0x4_0000
    case 1 => n / 0x1000 % 64
    case 2 => n / 64 % 64
    case 3 => n % 64
  }

  function Digits(d: Alphabet, n: int): seq<byte>
    requires 0 <= n < 0x100_0000
  {
    [d[Cut(n, 0)], d[Cut(n, 1)], d[Cut(n, 2)], d[Cut(n, 3)]]
  }

  /** A last group of one or two bytes is filled with zero bits and padded. */
  function Encoded(d: Alphabet, s: seq<byte>): (t: seq<byte>)
  {
    if |s| == 0 then []
    else if |s| == 1 then Digits(d, Group(s[0], 0, 0))[..2] + [PAD, PAD]
    else if |s| == 2 then Digits(d, Group(s[0], s[1], 0))[..3] + [PAD]
    else Digits(d, Group(s[0], s[1], s[2])) + Encoded(d, s[3..])
  }

  /** The encoding is as long as ngx_base64_encoded_length says. */
  lemma {:induction false} EncodedLength(d: Alphabet, s: seq<byte>)
    ensures |Encoded(d, s)| == (|s| + 2) / 3 * 4
  {
    GroupCount(|s|);
    if |s| >= 3 {
      EncodedLength(d, s[3..]);
    }
  }

  lemma GroupCount(n: nat)
    ensures (n + 2) / 3 == if n == 0 then 0 else if n < 3 then 1 else (n - 3 + 2) / 3 + 1
  {}

  lemma CutsOf(w: int, x: int, y: int, z: int)
    requires 0 <= w < 64 && 0 <= x < 64 && 0 <= y < 64 && 0 <= z < 64
    ensures var n := w * 0x4_0000 + x * 0x1000 + y * 64 + z;
      0 <= n < 0x100_0000 && Cut(n, 0) == w && Cut(n, 1) == x && Cut(n, 2) == y && Cut(n, 3) == z
  {
    var n := w * 0x4_0000 + x * 0x1000 + y * 64 + z;
    assert n / 0x4_0000 == w;
    assert n / 0x1000 == w * 64 + x;
    assert n / 64 == w * 4096 + x * 64 + y;
  }

  /** The shifts and masks of the encoder compute the four digits of the group. */
  lemma EncoderCuts(a: byte, b: byte, c: byte)
    ensures Cut(Group(a, b, c), 0) == a / 4 % 64
    ensures Cut(Group(a, b, c), 1) == a % 4 * 16 + b / 16
    ensures Cut(Group(a, b, c), 2) == b % 16 * 4 + c / 64
    ensures Cut(Group(a, b, c), 3) == c % 64
  {
    assert a == 4 * (a / 4) + a % 4 && a / 4 < 64;
    assert b == 16 * (b / 16) + b % 16 && c == 64 * (c / 64) + c % 64;
    CutsOf(a / 4, a % 4 * 16 + b / 16, b % 16 * 4 + c / 64, c % 64);
  }

  /** The four digits as the encoder writes them. */
  function Quad(d: Alphabet, a: byte, b: byte, c: byte): (r: seq<byte>)
    ensures |r| == 4 && r == Digits(d, Group(a, b, c))
  {
    EncoderCuts(a, b, c);
    [d[a / 4 % 64], d[a % 4 * 16 + b / 16], d[b % 16 * 4 + c / 64], d[c % 64]]
  }

  function ByteOr0(s: seq<byte>, i: nat): byte {
    if i < |s| then s[i] else 0
  }

  /** The k-th six bits of three bytes. */
  function Six(a: byte, b: byte, c: byte, k: nat): (v: int)
    requires k < 4
    ensures 0 <= v < 64
  {
    match k
    case 0 => a / 4
    case 1 => a % 4 * 16 + b / 16
    case 2 => b % 16 * 4 + c / 64
    case 3 => c % 64
  }

  /** The six bits from bit 6 * j on of the string, zero bits after its end. */
  function SixBits(s: seq<byte>, j: nat): (v: int)
    ensures 0 <= v < 64
  {
    var i := j / 4 * 3;
    Six(ByteOr0(s, i), ByteOr0(s, i + 1), ByteOr0(s, i + 2), j % 4)
  }

  lemma SixBitsBehind(s: seq<byte>, j: nat)
    requires |s| >= 3 && j >= 4
    ensures SixBits(s, j) == SixBits(s[3..], j - 4)
  {
    assert j / 4 == (j - 4) / 4 + 1 && j % 4 == (j - 4) % 4;
  }

  lemma QuadIs(d: Alphabet, a: byte, b: byte, c: byte, k: nat)
    requires k < 4
    ensures Digits(d, Group(a, b, c))[k] == d[Six(a, b, c, k)]
  {
    EncoderCuts(a, b, c);
    assert a / 4 % 64 == a / 4;
  }

  lemma FirstDigits(d: Alphabet, s: seq<byte>, j: nat)
    requires s != [] && j < 4
    ensures Digits(d, Group(s[0], ByteOr0(s, 1), ByteOr0(s, 2)))[j] == d[SixBits(s, j)]
  {
    assert j / 4 * 3 == 0 && j % 4 == j;
    QuadIs(d, s[0], ByteOr0(s, 1), ByteOr0(s, 2), j);
  }

  /** Digit by digit: the j-th digit stands for the j-th six bits, and = stands where no bits of the string are left. */
  lemma {:induction false} EncodedAt(d: Alphabet, s: seq<byte>, j: nat)
    requires j < |Encoded(d, s)|
    ensures Encoded(d, s)[j] == if 6 * j < 8 * |s| then d[SixBits(s, j)] else 61
  {
    if j < 4 {
      FirstDigits(d, s, j);
    } else {
      SixBitsBehind(s, j);
      EncodedAt(d, s[3..], j - 4);
    }
  }

  lemma EncodedStep(d: Alphabet, src: seq<byte>, s: nat)
    requires s + 3 <= |src|
    ensures Encoded(d, src[s..]) == Quad(d, src[s], src[s + 1], src[s + 2]) + Encoded(d, src[s + 3..])
  {}

  lemma EncodedTail(d: Alphabet, src: seq<byte>, s: nat)
    requires s + 1 <= |src| <= s + 2
    ensures |src| == s + 1 ==> Encoded(d, src[s..]) == Quad(d, src[s], 0, 0)[..2] + [PAD, PAD]
    ensures |src| == s + 2 ==> Encoded(d, src[s..]) == Quad(d, src[s], src[s + 1], 0)[..3] + [PAD]
  {}

  /** ngx_encode_base64 */
  method Encode(d: Alphabet, src: seq<byte>) returns (dst: seq<byte>)
    ensures dst == Encoded(d, src)
  {
    dst := [];
    var s, len := 0, |src|;
    while len > 2
      invariant 0 <= s <= |src| && s + len == |src|
      invariant dst + Encoded(d, src[s..]) == Encoded(d, src)
      decreases len
    {
      EncodedStep(d, src, s);
      dst := dst + Quad(d, src[s], src[s + 1], src[s + 2]);
      s, len := s + 3, len - 3;
    }
    ghost var rest := Encoded(d, src[s..]);
    if len > 0 {
      EncodedTail(d, src, s);
      var quad := Quad(d, src[s], if len == 1 then 0 else src[s + 1], 0);
      dst := dst + [quad[0]];
      if len == 1 {
        dst := dst + [quad[1]] + [PAD];
      } else {
        dst := dst + [quad[1]] + [quad[2]];
      }
      dst := dst + [PAD];
    } else {
      assert rest == [];
    }
  }

  // Decoding.

  /** The digits in front of the first padding sign. */
  function Run(t: seq<byte>): (n: nat)
    ensures n <= |t| && (n < |t| ==> t[n] == PAD) && forall i :: 0 <= i < n ==> t[i] != PAD
  {
    if t == [] || t[0] == PAD then 0 else 1 + Run(t[1..])
  }

  predicate AllDigits(v: Basis, t: seq<byte>) {
    forall i :: 0 <= i < |t| ==> v[t[i]] != 77
  }

  /** The 24-bit group of up to four digits; missing ones count as zero. */
  function Joined(v: Basis, t: seq<byte>): (n: int)
    requires AllDigits(v, t) && |t| > 0
    ensures 0 <= n < 0x100_0000
  {
    v[t[0]] * 0x4_0000
    + (if |t| > 1 then v[t[1]] else 0) * 0x1000
    + (if |t| > 2 then v[t[2]] else 0) * 64
    + (if |t| > 3 then v[t[3]] else 0)
  }

  function Octets(n: int): (r: seq<byte>)
    requires 0 <= n < 0x100_0000
  {
    [n / 0x1_0000, n / 0x100 % 0x100, n % 0x100]
  }

  /** Each group of four digits is three bytes; two or three digits left over are one or two bytes. */
  function DecodedRun(v: Basis, t: seq<byte>): (s: seq<byte>)
    requires AllDigits(v, t)
    ensures |s| <= (|t| + 3) / 4 * 3
  {
    if |t| <= 1 then []
    else if |t| < 4 then Octets(Joined(v, t))[..|t| - 1]
    else Octets(Joined(v, t[..4])) + DecodedRun(v, t[4..])
  }

  function Decoded(v: Basis, t: seq<byte>): (r: Option<seq<byte>>) {
    var run := t[..Run(t)];
    if !AllDigits(v, run) || |run| % 4 == 1 then None else Some(DecodedRun(v, run))
  }

  lemma GroupBytes(a: int, b: int, c: int)
    requires 0 <= a < 256 && 0 <= b < 256 && 0 <= c < 256
    ensures Octets(Group(a, b, c)) == [a, b, c]
  {
    var n := Group(a, b, c);
    assert n / 0x1_0000 == a && n / 0x100 == a * 256 + b;
  }

  lemma Masks(x: int)
    requires 0 <= x < 64
    ensures x * 16 % 256 == x % 16 * 16 && x * 64 % 256 == x % 4 * 64
  {}

  /** The shifts of the decoder compute the three bytes of the group. */
  lemma DecoderShifts(w: int, x: int, y: int, z: int)
    requires 0 <= w < 64 && 0 <= x < 64 && 0 <= y < 64 && 0 <= z < 64
    ensures var n := w * 0x4_0000 + x * 0x1000 + y * 64 + z;
      0 <= n < 0x100_0000 && Octets(n) == [w * 4 + x / 16, x * 16 % 256 + y / 4, y * 64 % 256 + z]
  {
    var p, q, r, s := x / 16, x % 16, y / 4, y % 4;
    Masks(x);
    Masks(y);
    assert x == 16 * p + q && y == 4 * r + s;
    GroupBytes(w * 4 + p, q * 16 + r, s * 64 + z);
  }

  /** The three bytes as the decoder writes them. */
  function Triple(w: int, x: int, y: int, z: int): (r: seq<byte>)
    requires 0 <= w < 64 && 0 <= x < 64 && 0 <= y < 64 && 0 <= z < 64
    ensures |r| == 3 && r == Octets(w * 0x4_0000 + x * 0x1000 + y * 64 + z)
  {
    DecoderShifts(w, x, y, z);
    [w * 4 + x / 16, x * 16 % 256 + y / 4, y * 64 % 256 + z]
  }

  /** The value of the j-th digit. */
  function DigitOr0(v: Basis, t: seq<byte>, j: nat): (x: int)
    requires AllDigits(v, t)
    ensures 0 <= x < 64
  {
    if j < |t| then v[t[j]] else 0
  }

  /** Two neighbouring digits around byte i, and where in them it lies. */
  function EightBits(v: Basis, t: seq<byte>, i: nat): (b: int)
    requires AllDigits(v, t)
    ensures 0 <= b < 256
  {
    var j := i / 3 * 4;
    match i % 3
    case 0 => DigitOr0(v, t, j) * 4 + DigitOr0(v, t, j + 1) / 16
    case 1 => DigitOr0(v, t, j + 1) % 16 * 16 + DigitOr0(v, t, j + 2) / 4
    case 2 => DigitOr0(v, t, j + 2) % 4 * 64 + DigitOr0(v, t, j + 3)
  }

  lemma EightBitsBehind(v: Basis, t: seq<byte>, i: nat)
    requires AllDigits(v, t) && |t| >= 4 && i >= 3
    ensures EightBits(v, t, i) == EightBits(v, t[4..], i - 3)
  {
    assert i / 3 == (i - 3) / 3 + 1 && i % 3 == (i - 3) % 3;
  }

  lemma TripleIs(w: int, x: int, y: int, z: int)
    requires 0 <= w < 64 && 0 <= x < 64 && 0 <= y < 64 && 0 <= z < 64
    ensures Octets(w * 0x4_0000 + x * 0x1000 + y * 64 + z) == [w * 4 + x / 16, x % 16 * 16 + y / 4, y % 4 * 64 + z]
  {
    DecoderShifts(w, x, y, z);
    Masks(x);
    Masks(y);
  }

  lemma FirstBytes(v: Basis, t: seq<byte>, i: nat)
    requires AllDigits(v, t) && t != [] && i < 3
    ensures |t| <= 4 ==> Octets(Joined(v, t))[i] == EightBits(v, t, i)
    ensures |t| > 4 ==> Octets(Joined(v, t[..4]))[i] == EightBits(v, t, i)
  {
    TripleIs(DigitOr0(v, t, 0), DigitOr0(v, t, 1), DigitOr0(v, t, 2), DigitOr0(v, t, 3));
  }

  /** Byte by byte: the i-th byte is made of the i-th eight bits of the digits; bits that make no whole byte are dropped. */
  lemma {:induction false} DecodedAt(v: Basis, t: seq<byte>, i: nat)
    requires AllDigits(v, t) && |t| % 4 != 1
    ensures |DecodedRun(v, t)| == 6 * |t| / 8
    ensures i < |DecodedRun(v, t)| ==> DecodedRun(v, t)[i] == EightBits(v, t, i)
  {
    if |t| >= 4 {
      assert |t| == 4 ==> t[..4] == t;
      if i < 3 {
        DecodedAt(v, t[4..], 0);
        FirstBytes(v, t, i);
      } else {
        DecodedAt(v, t[4..], i - 3);
        EightBitsBehind(v, t, i);
      }
    } else if |t| >= 2 && i < 3 {
      FirstBytes(v, t, i);
    }
  }

  lemma DecodedAppends(v: Basis, quad: seq<byte>, run: seq<byte>)
    requires |quad| == 4 && AllDigits(v, quad) && AllDigits(v, run)
    ensures AllDigits(v, quad + run) && DecodedRun(v, quad + run) == Octets(Joined(v, quad)) + DecodedRun(v, run)
  {}

  lemma DecodedStep(v: Basis, run: seq<byte>, s: nat)
    requires AllDigits(v, run) && s + 4 <= |run|
    ensures var triple := Triple(v[run[s]], v[run[s + 1]], v[run[s + 2]], v[run[s + 3]]);
      DecodedRun(v, run[s..]) == triple + DecodedRun(v, run[s + 4..])
  {
    DecodedAppends(v, run[s..s + 4], run[s + 4..]);
    assert run[s..] == run[s..s + 4] + run[s + 4..];
  }

  lemma DecodedTail(v: Basis, run: seq<byte>, s: nat)
    requires AllDigits(v, run) && s + 2 <= |run| <= s + 3
    ensures var n := |run| - s;
      DecodedRun(v, run[s..]) == Triple(v[run[s]], v[run[s + 1]], if n > 2 then v[run[s + 2]] else 0, 0)[..n - 1]
  {}

  /** The first loop of the decoder: the length of the run of digits, or an error. */
  method Scan(v: Basis, src: seq<byte>) returns (ok: bool, len: nat)
    ensures ok <==> AllDigits(v, src[..Run(src)])
    ensures ok ==> len == Run(src)
  {
    len, ok := 0, true;
    while len < |src|
      invariant len <= |src|
      invariant forall i :: 0 <= i < len ==> src[i] != PAD && v[src[i]] != 77
    {
      if src[len] == PAD {
        break;
      }
      if v[src[len]] == 77 {
        assert src[..Run(src)][len] == src[len];
        return false, len;
      }
      len := len + 1;
    }
    assert len == Run(src);
  }

  /** The second loop of the decoder. */
  method DecodeRun(v: Basis, run: seq<byte>) returns (dst: seq<byte>)
    requires AllDigits(v, run)
    ensures dst == DecodedRun(v, run)
  {
    dst := [];
    var s, len := 0, |run|;
    while len > 3
      invariant 0 <= s <= |run| && s + len == |run|
      invariant dst + DecodedRun(v, run[s..]) == DecodedRun(v, run)
      decreases len
    {
      DecodedStep(v, run, s);
      dst := dst + Triple(v[run[s]], v[run[s + 1]], v[run[s + 2]], v[run[s + 3]]);
      s, len := s + 4, len - 4;
    }
    ghost var rest := DecodedRun(v, run[s..]);
    if len > 1 {
      DecodedTail(v, run, s);
      var last := Triple(v[run[s]], v[run[s + 1]], if len > 2 then v[run[s + 2]] else 0, 0);
      assert rest == last[..len - 1];
      dst := dst + [last[0]];
      if len > 2 {
        dst := dst + [last[1]];
      }
    } else {
      assert rest == [];
    }
  }

  /** ngx_decode_base64 */
  method Decode(v: Basis, src: seq<byte>) returns (r: Option<seq<byte>>)
    ensures r == Decoded(v, src)
    ensures r.None? <==> Run(src) % 4 == 1 || exists i :: 0 <= i < Run(src) && v[src[i]] == 77
    ensures r.Some? ==> |r.value| == Run(src) * 6 / 8
  {
    var ok, len := Scan(v, src);
    assert ok <==> forall i :: 0 <= i < Run(src) ==> v[src[i]] != 77;
    if !ok || len % 4 == 1 {
      return None;
    }
    var dst := DecodeRun(v, src[..len]);
    DecodedAt(v, src[..len], 0);
    return Some(dst);
  }

  lemma Recombine(n: int)
    requires 0 <= n < 0x100_0000
    ensures n == Cut(n, 0) * 0x4_0000 + Cut(n, 1) * 0x1000 + Cut(n, 2) * 64 + Cut(n, 3)
  {
    assert n / 0x1000 == n / 64 / 64;
    assert n / 0x4_0000 == n / 0x1000 / 64;
  }

  lemma JoinedDigits(d: Alphabet, v: Basis, n: int)
    requires Inverse(d, v) && 0 <= n < 0x100_0000
    ensures AllDigits(v, Digits(d, n)) && Joined(v, Digits(d, n)) == n && PAD !in Digits(d, n)
  {
    Recombine(n);
  }

  lemma {:induction false} RunAppends(a: seq<byte>, t: seq<byte>)
    requires PAD !in a
    ensures Run(a + t) == |a| + Run(t)
  {
    if a == [] {
      assert a + t == t;
    } else {
      assert (a + t)[1..] == a[1..] + t;
      RunAppends(a[1..], t);
    }
  }

  /** The run of an encoding, without its padding. */
  lemma RunOfPadded(a: seq<byte>, pads: seq<byte>)
    requires PAD !in a && pads != [] && pads[0] == PAD
    ensures Run(a + pads) == |a| && (a + pads)[..|a|] == a
  {}

  lemma TruncatedDigits(d: Alphabet, v: Basis, n: int, k: int)
    requires Inverse(d, v) && 0 <= n < 0x100_0000 && 2 <= k <= 3
    requires Cut(n, 3) == 0 && (k == 2 ==> Cut(n, 2) == 0)
    ensures var t := Digits(d, n)[..k];
      AllDigits(v, t) && PAD !in t && DecodedRun(v, t) == Octets(n)[..k - 1]
  {
    JoinedDigits(d, v, n);
    var t := Digits(d, n)[..k];
    assert forall i :: 0 <= i < k ==> t[i] == Digits(d, n)[i];
    Recombine(n);
    assert Joined(v, t) == n;
  }

  ghost predicate RunDecodesTo(v: Basis, run: seq<byte>, s: seq<byte>) {
    AllDigits(v, run) && |run| % 4 != 1 && DecodedRun(v, run) == s
  }

  ghost predicate DecodesTo(v: Basis, t: seq<byte>, s: seq<byte>) {
    RunDecodesTo(v, t[..Run(t)], s)
  }

  lemma OneByte(d: Alphabet, v: Basis, a: byte)
    requires Inverse(d, v)
    ensures DecodesTo(v, Digits(d, Group(a, 0, 0))[..2] + [PAD, PAD], [a])
  {
    var n := Group(a, 0, 0);
    GroupBytes(a, 0, 0);
    EncoderCuts(a, 0, 0);
    TruncatedDigits(d, v, n, 2);
    RunOfPadded(Digits(d, n)[..2], [PAD, PAD]);
  }

  lemma TwoBytes(d: Alphabet, v: Basis, a: byte, b: byte)
    requires Inverse(d, v)
    ensures DecodesTo(v, Digits(d, Group(a, b, 0))[..3] + [PAD], [a, b])
  {
    var n := Group(a, b, 0);
    GroupBytes(a, b, 0);
    EncoderCuts(a, b, 0);
    TruncatedDigits(d, v, n, 3);
    RunOfPadded(Digits(d, n)[..3], [PAD]);
  }

  lemma RunSlice(a: seq<byte>, t: seq<byte>)
    requires PAD !in a
    ensures (a + t)[..Run(a + t)] == a + t[..Run(t)]
  {
    RunAppends(a, t);
  }

  lemma FourMoreDigits(v: Basis, quad: seq<byte>, run: seq<byte>, s: seq<byte>)
    requires |quad| == 4 && AllDigits(v, quad) && RunDecodesTo(v, run, s)
    ensures RunDecodesTo(v, quad + run, Octets(Joined(v, quad)) + s)
  {}

  lemma OneMoreGroup(v: Basis, quad: seq<byte>, t: seq<byte>, s: seq<byte>)
    requires |quad| == 4 && AllDigits(v, quad) && PAD !in quad && DecodesTo(v, t, s)
    ensures DecodesTo(v, quad + t, Octets(Joined(v, quad)) + s)
  {
    RunSlice(quad, t);
    FourMoreDigits(v, quad, t[..Run(t)], s);
  }

  lemma {:induction false} DecodedEncoded(d: Alphabet, v: Basis, s: seq<byte>)
    requires Inverse(d, v)
    ensures DecodesTo(v, Encoded(d, s), s)
  {
    if |s| == 1 {
      OneByte(d, v, s[0]);
    } else if |s| == 2 {
      TwoBytes(d, v, s[0], s[1]);
    } else if |s| >= 3 {
      var n := Group(s[0], s[1], s[2]);
      DecodedEncoded(d, v, s[3..]);
      JoinedDigits(d, v, n);
      GroupBytes(s[0], s[1], s[2]);
      OneMoreGroup(v, Digits(d, n), Encoded(d, s[3..]), s[3..]);
      assert s == [s[0], s[1], s[2]] + s[3..];
    }
  }

  /** Decoding the encoding of any byte string gives it back. */
  lemma RoundTrip(s: seq<byte>)
    ensures Decoded(DECODE, Encoded(ENCODE, s)) == Some(s)
  {
    TablesAgree();
    DecodedEncoded(ENCODE, DECODE, s);
  }
}
