/** The chunk pages of src/core/ngx_slab.c: three bitmap layouts, with 64-bit words and 4096-byte pages. */
module SlabPage {
  import opened Words

  const PAGE: nat := 4096
  const WORD_BITS: nat := 64
  const BUSY: nat := 0xffff_ffff_ffff_ffff
  const PAGE_START: nat := 0x8000_0000_0000_0000
  const MAP_SHIFT: nat := 32

  const MIN_SHIFT: nat := 3
  const EXACT_SHIFT: nat := 6
  const MAX_SIZE: nat := 2048

  // The low bits of a descriptor's prev field.
  const PAGE_TYPE: nat := 0
  const BIG: nat := 1
  const EXACT: nat := 2
  const SMALL: nat := 3

  type Shift = s: nat | 3 <= s <= 11 witness 3

  /** 1 << shift */
  function Size(shift: Shift): (z: nat)
    ensures 8 <= z <= 2048
  {
    match shift
    case 3 => 8 case 4 => 16 case 5 => 32 case 6 => 64 case 7 => 128
    case 8 => 256 case 9 => 512 case 10 => 1024 case _ => 2048
  }

  /** Chunks in a page. */
  function Cap(shift: Shift): (c: nat)
    ensures c * Size(shift) == PAGE && 2 <= c <= 512
  {
    match shift
    case 3 => 512 case 4 => 256 case 5 => 128 case 6 => 64 case 7 => 32
    case 8 => 16 case 9 => 8 case 10 => 4 case _ => 2
  }

  /** Chunks at the start of a page that hold its own bitmap. */
  function Reserved(shift: Shift): (r: nat)
    ensures r < Cap(shift)
  {
    if shift >= EXACT_SHIFT then 0
    else
      var n := Cap(shift) / 8 / Size(shift);
      if n == 0 then 1 else n
  }

  /** Words of an in-page bitmap. */
  function MapWords(shift: Shift): nat
  {
    Cap(shift) / WORD_BITS
  }

  function Type(shift: Shift): nat
  {
    if shift < EXACT_SHIFT then SMALL else if shift == EXACT_SHIFT then EXACT else BIG
  }

  /** Below 64 bytes the reserved chunks are just enough for a bit per chunk, in whole words; from there on none is reserved. */
  lemma BitmapFits(shift: Shift)
    ensures shift < 6 ==> 1 <= MapWords(shift) <= 8 && MapWords(shift) * 64 == Cap(shift) && Reserved(shift) < 64
    ensures shift < 6 ==> (Reserved(shift) - 1) * Size(shift) < MapWords(shift) * 8 <= Reserved(shift) * Size(shift)
    ensures Reserved(shift) == if Size(shift) < 16 then 8 else if Size(shift) < 32 then 2 else if Size(shift) < 64 then 1 else 0
  {
  }

  /** The upper half of a slab field. */
  function MapOf(w: nat): nat
  {
    Shr(w, MAP_SHIFT)
  }

  /** w & (1 << (c + NGX_SLAB_MAP_SHIFT)) */
  predicate MapBit(w: nat, c: nat)
  {
    Bit(w, MAP_SHIFT + c)
  }

  lemma MapBits(w: nat, c: nat)
    ensures MapBit(w, c) <==> Bit(MapOf(w), c)
    ensures MapOf(SetBit(w, MAP_SHIFT + c)) == SetBit(MapOf(w), c)
    ensures MapOf(ClearBit(w, MAP_SHIFT + c)) == ClearBit(MapOf(w), c)
    ensures SetBit(w, MAP_SHIFT + c) % 16 == w % 16 && ClearBit(w, MAP_SHIFT + c) % 16 == w % 16
  {
    HighBits(w, MAP_SHIFT, c);
    LowBitsKept(w, MAP_SHIFT + c);
  }

  /** Is chunk c of a page in use, given the page's slab field and the words at its start? */
  predicate Used(w: nat, b: seq<nat>, shift: Shift, c: nat)
    requires |b| == 8 && c < Cap(shift)
  {
    if shift < EXACT_SHIFT then Bit(b[c / 64], c % 64)
    else if shift == EXACT_SHIFT then Bit(w, c)
    else MapBit(w, c)
  }

  /** The eight words at the start of a page. */
  predicate WordsOk(b: seq<nat>)
  {
    |b| == 8 && forall i :: 0 <= i < 8 ==> b[i] <= BUSY
  }

  /** The three layouts of a chunk page's bookkeeping. */
  predicate Layout(w: nat, b: seq<nat>, shift: Shift)
  {
    && |b| == 8
    && (if shift < EXACT_SHIFT then w == shift && forall i :: 0 <= i < 8 ==> b[i] <= BUSY
        else if shift == EXACT_SHIFT then w <= BUSY
        else w % 16 == shift && MapOf(w) < Pow2(Cap(shift)))
  }

  ghost predicate AllUsed(w: nat, b: seq<nat>, shift: Shift)
    requires |b| == 8
  {
    forall c: nat :: c < Cap(shift) ==> Used(w, b, shift, c)
  }

  ghost predicate SomeUsed(w: nat, b: seq<nat>, shift: Shift)
    requires |b| == 8
  {
    exists c: nat :: Reserved(shift) <= c < Cap(shift) && Used(w, b, shift, c)
  }

  ghost predicate ReservedUsed(w: nat, b: seq<nat>, shift: Shift)
    requires |b| == 8
  {
    forall c: nat :: c < Reserved(shift) ==> Used(w, b, shift, c)
  }

  lemma WordRange()
    ensures Pow2(64) == BUSY + 1
  {
    Pow2Words();
  }

  /** (w', b') is (w, b) with chunk c, the first free one, taken. */
  ghost predicate Taken(w: nat, b: seq<nat>, shift: Shift, w': nat, b': seq<nat>, c: nat)
  {
    && Layout(w, b, shift) && Layout(w', b', shift) && c < Cap(shift) && !Used(w, b, shift, c)
    && (forall d: nat :: d < c ==> Used(w, b, shift, d))
    && (forall d: nat :: d < Cap(shift) ==> (Used(w', b', shift, d) <==> d == c || Used(w, b, shift, d)))
  }

  /** A word that is not full has a clear bit, and the search loop stops at the first one. */
  method FirstClear(w: nat, ghost n: nat) returns (i: nat)
    requires w < Pow2(n) - 1
    ensures i < n && !Bit(w, i) && forall j: nat :: j < i ==> Bit(w, j)
  {
    ghost var k := MissingBit(w, n);
    i := 0;
    while Bit(w, i)
      invariant i <= k && forall j: nat :: j < i ==> Bit(w, j)
      decreases k - i
    {
      i := i + 1;
    }
  }

  /** All words of an in-page bitmap are full. */
  ghost predicate FullFrom(b: seq<nat>, shift: Shift, n: nat)
    requires |b| == 8 && shift < EXACT_SHIFT
  {
    forall m: nat :: n <= m < MapWords(shift) ==> m < 8 && b[m] == BUSY
  }

  lemma BusyBit(i: nat)
    requires i < 64
    ensures Bit(BUSY, i)
  {
    WordRange();
    OnesHaveBits(64, i);
  }

  lemma FullWord(w: nat)
    requires w <= BUSY
    ensures (forall i: nat :: i < 64 ==> Bit(w, i)) <==> w == BUSY
  {
    WordRange();
    AllOnes(w, 64);
  }

  /** Every chunk of a small page is used exactly when every word of its bitmap is full. */
  lemma SmallFull(w: nat, b: seq<nat>, shift: Shift)
    requires Layout(w, b, shift) && shift < EXACT_SHIFT
    ensures AllUsed(w, b, shift) <==> FullFrom(b, shift, 0)
  {
    BitmapFits(shift);
    if FullFrom(b, shift, 0) {
      forall c: nat | c < Cap(shift) ensures Used(w, b, shift, c) {
        assert b[c / 64] == BUSY;
        BusyBit(c % 64);
      }
    }
    if AllUsed(w, b, shift) {
      forall m: nat | m < MapWords(shift) ensures b[m] == BUSY {
        forall i: nat | i < 64 ensures Bit(b[m], i) {
          assert Used(w, b, shift, 64 * m + i);
        }
        FullWord(b[m]);
      }
    }
  }

  /** Setting bit i of word n is using chunk 64 * n + i. */
  lemma SmallTaken(w: nat, b: seq<nat>, shift: Shift, n: nat, i: nat)
    requires Layout(w, b, shift) && shift < EXACT_SHIFT && n < MapWords(shift) && i < 64 && n < 8
    requires !Bit(b[n], i) && (forall j: nat :: j < i ==> Bit(b[n], j)) && forall m: nat :: m < n ==> b[m] == BUSY
    ensures 64 * n + i < Cap(shift) && Taken(w, b, shift, w, b[n := SetBit(b[n], i)], 64 * n + i)
  {
    BitmapFits(shift);
    WordRange();
    BitRange(b[n], i, 64);
    var b' := b[n := SetBit(b[n], i)];
    var c := 64 * n + i;
    forall d: nat | d < Cap(shift) ensures Used(w, b', shift, d) <==> d == c || Used(w, b, shift, d) {
      SetBitBits(b[n], i, d % 64);
    }
    forall d: nat | d < c ensures Used(w, b, shift, d) {
      if d / 64 < n {
        assert b[d / 64] == BUSY;
        BusyBit(d % 64);
      }
    }
  }

  /** The search and the marking in a page whose bitmap lies in the page itself. */
  method TakeSmall(w: nat, b: seq<nat>, shift: Shift) returns (b': seq<nat>, c: nat, full: bool)
    requires shift < EXACT_SHIFT && Layout(w, b, shift) && !AllUsed(w, b, shift)
    ensures Taken(w, b, shift, w, b', c) && (full <==> AllUsed(w, b', shift))
  {
    BitmapFits(shift);
    SmallFull(w, b, shift);
    var map_ := MapWords(shift);
    var n := 0;
    while n < map_ && b[n] == BUSY
      invariant n <= map_ && forall m: nat :: m < n ==> b[m] == BUSY
    {
      n := n + 1;
    }
    assert n < map_;
    WordRange();
    var i := FirstClear(b[n], 64);
    SmallTaken(w, b, shift, n, i);
    b' := b[n := SetBit(b[n], i)];
    c := n * 64 + i;
    full := false;
    if b'[n] == BUSY {
      n := n + 1;
      while n < map_ && b'[n] == BUSY
        invariant n <= map_ && forall m: nat :: m < n ==> b'[m] == BUSY
      {
        n := n + 1;
      }
      full := n == map_;
    }
    SmallFull(w, b', shift);
  }

  lemma ExactTaken(w: nat, b: seq<nat>, i: nat)
    requires |b| == 8 && w <= BUSY && i < 64 && !Bit(w, i) && forall j: nat :: j < i ==> Bit(w, j)
    ensures Taken(w, b, EXACT_SHIFT, SetBit(w, i), b, i)
  {
    WordRange();
    BitRange(w, i, 64);
    forall d: nat | d < 64 ensures Used(SetBit(w, i), b, EXACT_SHIFT, d) <==> d == i || Used(w, b, EXACT_SHIFT, d) {
      SetBitBits(w, i, d);
    }
  }

  lemma ExactFull(w: nat, b: seq<nat>)
    requires |b| == 8 && w <= BUSY
    ensures AllUsed(w, b, EXACT_SHIFT) <==> w == BUSY
  {
    if w == BUSY {
      forall c: nat | c < 64 ensures Used(w, b, EXACT_SHIFT, c) {
        BusyBit(c);
      }
    } else {
      WordRange();
      var i := MissingBit(w, 64);
      assert !Used(w, b, EXACT_SHIFT, i);
    }
  }

  /** The search and the marking in a page of 64-byte chunks, whose slab field is the bitmap. */
  method TakeExact(w: nat, b: seq<nat>) returns (w': nat, c: nat, full: bool)
    requires Layout(w, b, EXACT_SHIFT) && !AllUsed(w, b, EXACT_SHIFT)
    ensures Taken(w, b, EXACT_SHIFT, w', b, c) && (full <==> AllUsed(w', b, EXACT_SHIFT))
  {
    ExactFull(w, b);
    WordRange();
    c := FirstClear(w, 64);
    ExactTaken(w, b, c);
    w' := SetBit(w, c);
    full := w' == BUSY;
    ExactFull(w', b);
  }

  lemma BigTaken(w: nat, b: seq<nat>, shift: Shift, i: nat)
    requires Layout(w, b, shift) && shift > EXACT_SHIFT && i < Cap(shift)
    requires !MapBit(w, i) && forall j: nat :: j < i ==> MapBit(w, j)
    ensures Taken(w, b, shift, SetBit(w, MAP_SHIFT + i), b, i)
  {
    var w' := SetBit(w, MAP_SHIFT + i);
    MapBits(w, i);
    BitRange(MapOf(w), i, Cap(shift));
    forall d: nat | d < Cap(shift) ensures Used(w', b, shift, d) <==> d == i || Used(w, b, shift, d) {
      BigUsed(w, b, shift, i, d);
    }
  }

  lemma BigUsed(w: nat, b: seq<nat>, shift: Shift, i: nat, d: nat)
    requires |b| == 8 && shift > EXACT_SHIFT && i < Cap(shift) && d < Cap(shift)
    ensures Used(SetBit(w, MAP_SHIFT + i), b, shift, d) <==> d == i || Used(w, b, shift, d)
  {
    SetBitBits(w, MAP_SHIFT + i, MAP_SHIFT + d);
  }

  lemma BigFull(w: nat, b: seq<nat>, shift: Shift)
    requires Layout(w, b, shift) && shift > EXACT_SHIFT
    ensures AllUsed(w, b, shift) <==> MapOf(w) == Pow2(Cap(shift)) - 1
  {
    var h := MapOf(w);
    if h == Pow2(Cap(shift)) - 1 {
      forall c: nat | c < Cap(shift) ensures Used(w, b, shift, c) {
        OnesHaveBits(Cap(shift), c);
        MapBits(w, c);
      }
    } else {
      var i := MissingBit(h, Cap(shift));
      MapBits(w, i);
      assert !Used(w, b, shift, i);
    }
  }

  /** The search and the marking in a page of larger chunks, whose bitmap is the upper half of the slab field. */
  method TakeBig(w: nat, b: seq<nat>, shift: Shift) returns (w': nat, c: nat, full: bool)
    requires shift > EXACT_SHIFT && Layout(w, b, shift) && !AllUsed(w, b, shift)
    ensures Taken(w, b, shift, w', b, c) && (full <==> AllUsed(w', b, shift))
  {
    BigFull(w, b, shift);
    ghost var k := MissingBit(MapOf(w), Cap(shift));
    MapBits(w, k);
    c := 0;
    while MapBit(w, c)
      invariant c <= k && forall j: nat :: j < c ==> MapBit(w, j)
      decreases k - c
    {
      c := c + 1;
    }
    BigTaken(w, b, shift, c);
    w' := SetBit(w, MAP_SHIFT + c);
    full := MapOf(w') == Pow2(Cap(shift)) - 1;
    BigFull(w', b, shift);
  }

  /** Take the first free chunk of a page that has one. */
  method Take(w: nat, b: seq<nat>, shift: Shift) returns (w': nat, b': seq<nat>, c: nat, full: bool)
    requires Layout(w, b, shift) && !AllUsed(w, b, shift) && WordsOk(b)
    ensures Taken(w, b, shift, w', b', c) && (full <==> AllUsed(w', b', shift)) && WordsOk(b')
  {
    w', b' := w, b;
    if shift < EXACT_SHIFT {
      b', c, full := TakeSmall(w, b, shift);
    } else if shift == EXACT_SHIFT {
      w', c, full := TakeExact(w, b);
    } else {
      w', c, full := TakeBig(w, b, shift);
    }
  }

  // ------------------------------------------------------------------ a new page

  /** Only the bitmap's own chunks and chunk c, the first one after them, are in use. */
  ghost predicate FirstOnly(w: nat, b: seq<nat>, shift: Shift, c: nat)
  {
    && Layout(w, b, shift) && c == Reserved(shift)
    && forall d: nat :: d < Cap(shift) ==> (Used(w, b, shift, d) <==> d <= c)
  }

  lemma LowOnes(n: nat, i: nat)
    ensures Bit(Pow2(n) - 1, i) <==> i < n
  {
    if i < n {
      OnesHaveBits(n, i);
    } else {
      NoHighBits(Pow2(n) - 1, n, i);
    }
  }

  method FreshSmall(b: seq<nat>, shift: Shift) returns (b': seq<nat>)
    requires shift < EXACT_SHIFT && |b| == 8 && forall i :: 0 <= i < 8 ==> b[i] <= BUSY
    ensures FirstOnly(shift, b', shift, Reserved(shift))
  {
    BitmapFits(shift);
    var n := Reserved(shift);
    WordRange();
    Pow2Monotone(n + 1, 64);
    b' := b[0 := 2 * Pow2(n) - 1];
    var i := 1;
    while i < MapWords(shift)
      invariant 1 <= i <= MapWords(shift) && |b'| == 8 && b'[0] == Pow2(n + 1) - 1
      invariant forall m :: 1 <= m < i ==> b'[m] == 0
      invariant forall m :: 0 <= m < 8 ==> b'[m] <= BUSY
    {
      b' := b'[i := 0];
      i := i + 1;
    }
    forall d: nat | d < Cap(shift) ensures Used(shift, b', shift, d) <==> d <= n {
      FreshBit(b', shift, d);
    }
  }

  lemma FreshBit(b: seq<nat>, shift: Shift, d: nat)
    requires shift < EXACT_SHIFT && |b| == 8 && d < Cap(shift) && b[0] == Pow2(Reserved(shift) + 1) - 1
    requires forall m :: 1 <= m < MapWords(shift) && m < 8 ==> b[m] == 0
    ensures Used(shift, b, shift, d) <==> d <= Reserved(shift)
  {
    BitmapFits(shift);
    if d / 64 == 0 {
      LowOnes(Reserved(shift) + 1, d % 64);
    } else {
      assert b[d / 64] == 0;
      NoBitsInZero(d % 64);
    }
  }

  lemma FreshExact(b: seq<nat>)
    requires |b| == 8
    ensures FirstOnly(1, b, EXACT_SHIFT, 0)
  {
    forall d: nat | d < 64 ensures Used(1, b, EXACT_SHIFT, d) <==> d <= 0 {
      LowOnes(1, d);
    }
  }

  /** ((uintptr_t) 1 << NGX_SLAB_MAP_SHIFT) | shift */
  function BigStart(shift: Shift): nat
  {
    0x1_0000_0000 + shift
  }

  lemma {:induction false} ShrSmall(w: nat, m: nat)
    requires w < Pow2(m)
    ensures Shr(w, m) == 0 && Shr(w + Pow2(m), m) == 1
  {
    if m > 0 {
      ShrSmall(w / 2, m - 1);
      assert (w + Pow2(m)) / 2 == w / 2 + Pow2(m - 1);
    }
  }

  lemma FreshBig(b: seq<nat>, shift: Shift)
    requires |b| == 8 && shift > EXACT_SHIFT
    ensures FirstOnly(BigStart(shift), b, shift, 0)
  {
    var w := BigStart(shift);
    MapStart(shift);
    Pow2Monotone(1, Cap(shift));
    forall d: nat | d < Cap(shift) ensures Used(w, b, shift, d) <==> d <= 0 {
      FreshMapBit(shift, d);
    }
  }

  lemma FreshMapBit(shift: Shift, d: nat)
    ensures MapBit(BigStart(shift), d) <==> d == 0
  {
    MapStart(shift);
    MapBits(BigStart(shift), d);
    LowOnes(1, d);
  }

  lemma MapStart(shift: Shift)
    ensures MapOf(BigStart(shift)) == 1
  {
    Pow2Words();
    ShrSmall(shift, MAP_SHIFT);
  }

  /** Lay out an empty page for chunks of one size and take its first chunk. */
  method Fresh(b: seq<nat>, shift: Shift) returns (w': nat, b': seq<nat>, c: nat)
    requires WordsOk(b)
    ensures FirstOnly(w', b', shift, c) && WordsOk(b')
  {
    w', b', c := shift, b, Reserved(shift);
    if shift < EXACT_SHIFT {
      b' := FreshSmall(b, shift);
    } else if shift == EXACT_SHIFT {
      w' := 1;
      FreshExact(b);
    } else {
      w' := BigStart(shift);
      FreshBig(b, shift);
    }
  }

  // ------------------------------------------------------------------ giving a chunk back

  ghost predicate Returned(w: nat, b: seq<nat>, shift: Shift, w': nat, b': seq<nat>, c: nat)
  {
    && Layout(w, b, shift) && Layout(w', b', shift) && c < Cap(shift)
    && (forall d: nat :: d < Cap(shift) ==> (Used(w', b', shift, d) <==> d != c && Used(w, b, shift, d)))
  }

  lemma SmallReturned(w: nat, b: seq<nat>, shift: Shift, c: nat)
    requires Layout(w, b, shift) && shift < EXACT_SHIFT && c < Cap(shift)
    ensures c / 64 < 8 && Returned(w, b, shift, w, b[c / 64 := ClearBit(b[c / 64], c % 64)], c)
  {
    BitmapFits(shift);
    WordRange();
    BitRange(b[c / 64], c % 64, 64);
    var b' := b[c / 64 := ClearBit(b[c / 64], c % 64)];
    forall d: nat | d < Cap(shift) ensures Used(w, b', shift, d) <==> d != c && Used(w, b, shift, d) {
      ClearBitBits(b[c / 64], c % 64, d % 64);
    }
  }

  lemma UpperBitUsed(w: nat, b: seq<nat>, shift: Shift)
    requires Layout(w, b, shift) && shift < EXACT_SHIFT && Shr(b[0], Reserved(shift)) != 0
    ensures SomeUsed(w, b, shift)
  {
    BitmapFits(shift);
    WordRange();
    var r := Reserved(shift);
    ShrRange(b[0], r, 64 - r);
    var i := SomeBit(Shr(b[0], r), 64 - r);
    HighBits(b[0], r, i);
    assert Used(w, b, shift, r + i);
  }

  lemma OtherWordUsed(w: nat, b: seq<nat>, shift: Shift, m: nat)
    requires Layout(w, b, shift) && shift < EXACT_SHIFT && 1 <= m < MapWords(shift) && m < 8 && b[m] != 0
    ensures SomeUsed(w, b, shift)
  {
    BitmapFits(shift);
    WordRange();
    var i := SomeBit(b[m], 64);
    assert (64 * m + i) / 64 == m && (64 * m + i) % 64 == i;
    assert Used(w, b, shift, 64 * m + i);
  }

  /** No chunk beyond the bitmap's own is used: the upper bits of word 0 and all other words are clear. */
  lemma SmallEmpty(w: nat, b: seq<nat>, shift: Shift)
    requires Layout(w, b, shift) && shift < EXACT_SHIFT
    ensures SomeUsed(w, b, shift) <==>
      Shr(b[0], Reserved(shift)) != 0 || exists m: nat :: 1 <= m < MapWords(shift) && m < 8 && b[m] != 0
  {
    BitmapFits(shift);
    var r := Reserved(shift);
    if SomeUsed(w, b, shift) {
      var c: nat :| r <= c < Cap(shift) && Used(w, b, shift, c);
      if c < 64 {
        HighBits(b[0], r, c - r);
        NoBitsInZero(c - r);
      } else {
        NoBitsInZero(c % 64);
        assert b[c / 64] != 0;
      }
    }
    if Shr(b[0], r) != 0 {
      UpperBitUsed(w, b, shift);
    }
    if m: nat :| 1 <= m < MapWords(shift) && m < 8 && b[m] != 0 {
      OtherWordUsed(w, b, shift, m);
    }
  }

  lemma {:induction false} ShrRange(w: nat, m: nat, n: nat)
    requires w < Pow2(m + n)
    ensures Shr(w, m) < Pow2(n)
  {
    if m > 0 {
      ShrRange(w / 2, m - 1, n);
    }
  }

  method ReturnSmall(w: nat, b: seq<nat>, shift: Shift, c: nat) returns (b': seq<nat>, empty: bool)
    requires shift < EXACT_SHIFT && Layout(w, b, shift) && c < Cap(shift)
    ensures Returned(w, b, shift, w, b', c) && (empty <==> !SomeUsed(w, b', shift))
  {
    BitmapFits(shift);
    SmallReturned(w, b, shift, c);
    b' := b[c / 64 := ClearBit(b[c / 64], c % 64)];
    SmallEmpty(w, b', shift);
    if Shr(b'[0], Reserved(shift)) != 0 {
      return b', false;
    }
    var n := 1;
    while n < MapWords(shift)
      invariant 1 <= n <= MapWords(shift) && forall m :: 1 <= m < n ==> b'[m] == 0
    {
      if b'[n] != 0 {
        return b', false;
      }
      n := n + 1;
    }
    empty := true;
  }

  lemma ExactReturned(w: nat, b: seq<nat>, c: nat)
    requires Layout(w, b, EXACT_SHIFT) && c < 64
    ensures Returned(w, b, EXACT_SHIFT, ClearBit(w, c), b, c)
    ensures SomeUsed(ClearBit(w, c), b, EXACT_SHIFT) <==> ClearBit(w, c) != 0
  {
    WordRange();
    BitRange(w, c, 64);
    var w' := ClearBit(w, c);
    forall d: nat | d < 64 ensures Used(w', b, EXACT_SHIFT, d) <==> d != c && Used(w, b, EXACT_SHIFT, d) {
      ClearBitBits(w, c, d);
    }
    if w' != 0 {
      var i := SomeBit(w', 64);
      assert Used(w', b, EXACT_SHIFT, i);
    } else {
      forall i: nat ensures !Bit(0, i) {
        NoBitsInZero(i);
      }
    }
  }

  lemma BigReturned(w: nat, b: seq<nat>, shift: Shift, c: nat)
    requires Layout(w, b, shift) && shift > EXACT_SHIFT && c < Cap(shift)
    ensures Returned(w, b, shift, ClearBit(w, MAP_SHIFT + c), b, c)
    ensures SomeUsed(ClearBit(w, MAP_SHIFT + c), b, shift) <==> MapOf(ClearBit(w, MAP_SHIFT + c)) != 0
  {
    var w' := ClearBit(w, MAP_SHIFT + c);
    MapBits(w, c);
    BitRange(MapOf(w), c, Cap(shift));
    forall d: nat | d < Cap(shift) ensures Used(w', b, shift, d) <==> d != c && Used(w, b, shift, d) {
      BigUnused(w, b, shift, c, d);
    }
    BigEmpty(w', b, shift);
  }

  lemma BigUnused(w: nat, b: seq<nat>, shift: Shift, c: nat, d: nat)
    requires |b| == 8 && shift > EXACT_SHIFT && c < Cap(shift) && d < Cap(shift)
    ensures Used(ClearBit(w, MAP_SHIFT + c), b, shift, d) <==> d != c && Used(w, b, shift, d)
  {
    ClearBitBits(w, MAP_SHIFT + c, MAP_SHIFT + d);
  }

  lemma BigEmpty(w': nat, b: seq<nat>, shift: Shift)
    requires |b| == 8 && shift > EXACT_SHIFT && MapOf(w') < Pow2(Cap(shift))
    ensures SomeUsed(w', b, shift) <==> MapOf(w') != 0
  {
    if MapOf(w') != 0 {
      var i := SomeBit(MapOf(w'), Cap(shift));
      MapBits(w', i);
      assert Used(w', b, shift, i);
    } else {
      forall i: nat | i < Cap(shift) ensures !Used(w', b, shift, i) {
        MapBits(w', i);
        NoBitsInZero(i);
      }
    }
  }

  /** Give chunk c back; is the page empty now? */
  method Return(w: nat, b: seq<nat>, shift: Shift, c: nat) returns (w': nat, b': seq<nat>, empty: bool)
    requires Layout(w, b, shift) && c < Cap(shift) && WordsOk(b)
    ensures Returned(w, b, shift, w', b', c) && (empty <==> !SomeUsed(w', b', shift)) && WordsOk(b')
  {
    w', b' := w, b;
    if shift < EXACT_SHIFT {
      b', empty := ReturnSmall(w, b, shift, c);
    } else if shift == EXACT_SHIFT {
      w' := ClearBit(w, c);
      ExactReturned(w, b, c);
      empty := w' == 0;
    } else {
      w' := ClearBit(w, MAP_SHIFT + c);
      BigReturned(w, b, shift, c);
      empty := MapOf(w') == 0;
    }
  }

  lemma BitUntouched(w: nat, b: seq<nat>, b': seq<nat>, shift: Shift, i: nat, c: nat)
    requires |b| == 8 == |b'| && i < 8 && b' == b[i := b'[i]] && (shift < EXACT_SHIFT ==> MapWords(shift) <= i) && c < Cap(shift)
    ensures Used(w, b', shift, c) <==> Used(w, b, shift, c)
  {
    if shift < EXACT_SHIFT {
      BitmapFits(shift);
      assert c / 64 < MapWords(shift);
    }
  }

  /** A word that is not part of a page's bitmap says nothing about its chunks. */
  lemma MapUntouched(w: nat, b: seq<nat>, b': seq<nat>, shift: Shift, i: nat)
    requires |b| == 8 == |b'| && i < 8 && b' == b[i := b'[i]] && (shift < EXACT_SHIFT ==> MapWords(shift) <= i)
    ensures forall c: nat :: c < Cap(shift) ==> (Used(w, b', shift, c) <==> Used(w, b, shift, c))
    ensures AllUsed(w, b', shift) <==> AllUsed(w, b, shift)
    ensures ReservedUsed(w, b', shift) <==> ReservedUsed(w, b, shift)
    ensures SomeUsed(w, b', shift) <==> SomeUsed(w, b, shift)
  {
    forall c: nat | c < Cap(shift) ensures Used(w, b', shift, c) <==> Used(w, b, shift, c) {
      BitUntouched(w, b, b', shift, i, c);
    }
  }
}
