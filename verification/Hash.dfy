/** The packed exact hash of src/core/ngx_hash.c: built once, then equal to a plain map. */
module Hash {
  import opened Bytes

  /** ngx_align: the next multiple of a, counted out. */
  function Align(n: nat, a: nat): (r: nat)
    requires a > 0
    ensures n <= r < n + a
  {
    if n == 0 then 0 else if n <= a then a else a + Align(n - a, a)
  }

  /** The formula of the macro, for the two alignments in use. */
  lemma {:induction false} AlignFormula(n: nat)
    ensures Align(n, 8) == (n + 7) / 8 * 8
    ensures Align(n, 64) == (n + 63) / 64 * 64
  {
    if n > 8 {
      AlignFormula(n - 8);
    }
    if n > 64 {
      AlignFormula(n - 64);
    }
  }

  /** Shifting by a multiple of the alignment shifts the result. */
  lemma {:induction false} AlignShifts(k: nat, n: nat, a: nat)
    requires a > 0 && n > 0
    ensures Align(k * a + n, a) == k * a + Align(n, a)
  {
    if k > 0 {
      AlignShifts(k - 1, n, a);
      assert k * a + n == a + ((k - 1) * a + n);
    }
  }

  /** ngx_tolower, by which ngx_strlow copies a name. */
  function LowerByte(c: byte): byte {
    if 65 <= c <= 90 then c + 32 else c
  }

  function Lower(s: seq<byte>): (r: seq<byte>)
    ensures |r| == |s|
  {
    if s == [] then [] else [LowerByte(s[0])] + Lower(s[1..])
  }

  /** Capital letters become small ones, everything else stays. */
  lemma {:induction false} LowerIs(s: seq<byte>, i: nat)
    requires i < |s|
    ensures Lower(s)[i] == if 65 <= s[i] <= 90 then s[i] + 32 else s[i]
  {
    if i > 0 {
      LowerIs(s[1..], i - 1);
    }
  }

  /** ngx_hash_key, as 64-bit unsigned arithmetic */
  function HashFrom(key: nat, s: seq<byte>): nat
    decreases |s|
  {
    if s == [] then key else HashFrom((key * 31 + s[0]) % 0x1_0000_0000_0000_0000, s[1..])
  }

  function HashKey(s: seq<byte>): nat {
    HashFrom(0, s)
  }

  /** The hash of a name read from its end: 31 times that of what comes before, and the last byte. */
  lemma {:induction false} HashOfLast(key: nat, s: seq<byte>, c: byte)
    ensures HashFrom(key, s + [c]) == (31 * HashFrom(key, s) + c) % 0x1_0000_0000_0000_0000
    decreases |s|
  {
    if s == [] {
      assert s + [c] == [c] && [c][1..] == [];
    } else {
      assert (s + [c])[0] == s[0] && (s + [c])[1..] == s[1..] + [c];
      HashOfLast((key * 31 + s[0]) % 0x1_0000_0000_0000_0000, s[1..], c);
    }
  }

  lemma HashIsPolynomial(s: seq<byte>, c: byte)
    ensures HashKey([]) == 0 && HashKey(s + [c]) == (31 * HashKey(s) + c) % 0x1_0000_0000_0000_0000
  {
    HashOfLast(0, s, c);
  }

  /** ngx_hash_key_t: a name, possibly removed (its data null), the hash computed for it, and a value. */
  datatype Key = Key(present: bool, data: seq<byte>, hash: nat, value: nat)

  /** What is stored for a name: its value, its length and its lower-case bytes. */
  datatype Elt = Elt(name: seq<byte>, value: nat)

  function Stored(k: Key): Elt {
    Elt(Lower(k.data), k.value)
  }

  /** NGX_HASH_ELT_SIZE */
  function EltSize(len: nat): (n: nat)
    ensures len + 10 <= n < len + 18
  {
    8 + Align(len + 2, 8)
  }

  /** An element takes eight bytes for its value, two for its length, its name, and what is missing to whole words. */
  lemma EltSizeIs(len: nat)
    ensures len + 10 <= EltSize(len) < len + 18 && EltSize(len) % 8 == 0
  {
    AlignFormula(len + 2);
  }

  function Total(es: seq<Elt>): (n: nat)
    ensures n >= |es|
  {
    if es == [] then 0 else Total(es[..|es| - 1]) + EltSize(|es[|es| - 1].name|)
  }

  /** Every element takes a whole number of words. */
  lemma {:induction false} TotalAligned(es: seq<Elt>)
    ensures Total(es) % 8 == 0
  {
    if es != [] {
      TotalAligned(es[..|es| - 1]);
      AlignFormula(|es[|es| - 1].name| + 2);
    }
  }

  function Slot(hash: nat, size: nat): (i: nat)
    requires size > 0
    ensures i < size
  {
    hash % size
  }

  /** The elements of bucket i, in the order of the names. */
  function Members(keys: seq<Key>, size: nat, i: nat): (es: seq<Elt>)
    requires size > 0
  {
    if keys == [] then []
    else
      var r, k := Members(keys[..|keys| - 1], size, i), keys[|keys| - 1];
      if k.present && Slot(k.hash, size) == i then r + [Stored(k)] else r
  }

  // The bytes of an element and of a bucket.

  function EltBytes(e: Elt): (r: seq<byte>)
    ensures |r| == 10 + |e.name|
  {
    LittleEndian(e.value, 8) + LittleEndian(|e.name|, 2) + e.name
  }

  ghost predicate EltAt(m: seq<byte>, at: nat, e: Elt) {
    at + 10 + |e.name| <= |m| && m[at..at + 10 + |e.name|] == EltBytes(e)
  }

  /** The elements stand one after the other from `at` on. */
  ghost predicate Holds(m: seq<byte>, at: nat, es: seq<Elt>) {
    es != [] ==>
      var l := |es| - 1;
      Holds(m, at, es[..l]) && EltAt(m, at + Total(es[..l]), es[l])
  }

  lemma {:induction false} TotalGrows(es: seq<Elt>, k: nat)
    requires k < |es|
    ensures Total(es[..k]) + EltSize(|es[k].name|) == Total(es[..k + 1]) <= Total(es)
    decreases |es|
  {
    assert es[..k + 1][..k] == es[..k];
    var l := |es| - 1;
    if k == l {
      assert es[..k + 1] == es;
    } else {
      TotalGrows(es[..l], k);
      assert es[..l][..k] == es[..k] && es[..l][..k + 1] == es[..k + 1] && es[..l][k] == es[k];
    }
  }

  lemma EltFrame(m: seq<byte>, m': seq<byte>, at: nat, e: Elt)
    requires EltAt(m, at, e) && |m| == |m'|
    requires forall j :: at <= j < at + 10 + |e.name| ==> m[j] == m'[j]
    ensures EltAt(m', at, e)
  {}

  lemma {:induction false} HoldsFrame(m: seq<byte>, m': seq<byte>, at: nat, es: seq<Elt>)
    requires Holds(m, at, es) && |m| == |m'|
    requires forall j :: at <= j < at + Total(es) && j < |m| ==> m[j] == m'[j]
    ensures Holds(m', at, es)
  {
    if es != [] {
      var l := |es| - 1;
      HoldsFrame(m, m', at, es[..l]);
      EltFrame(m, m', at + Total(es[..l]), es[l]);
    }
  }

  lemma HoldsMore(m: seq<byte>, at: nat, es: seq<Elt>, e: Elt)
    requires Holds(m, at, es) && EltAt(m, at + Total(es), e)
    ensures Holds(m, at, es + [e]) && Total(es + [e]) == Total(es) + EltSize(|e.name|)
  {}

  lemma {:induction false} HoldsAt(m: seq<byte>, at: nat, es: seq<Elt>, k: nat)
    requires Holds(m, at, es) && k < |es|
    ensures EltAt(m, at + Total(es[..k]), es[k])
    decreases |es|
  {
    var l := |es| - 1;
    if k < l {
      HoldsAt(m, at, es[..l], k);
      assert es[..l][..k] == es[..k];
    }
  }

  // Lookup, in a list of elements and in the list of all names; 0 is the null value.

  function First(es: seq<Elt>, name: seq<byte>): nat {
    if es == [] then 0
    else
      var r, e := First(es[..|es| - 1], name), es[|es| - 1];
      if r != 0 then r else if e.name == name then e.value else 0
  }

  /** The plain map: the value of the first name present that is the given one in lower case. */
  function Lookup(keys: seq<Key>, name: seq<byte>): nat {
    if keys == [] then 0
    else
      var r, k := Lookup(keys[..|keys| - 1], name), keys[|keys| - 1];
      if r != 0 then r else if k.present && Lower(k.data) == name then k.value else 0
  }

  /** What the callers of ngx_hash_init see to: real values, and the hash of the lower-case name. */
  predicate WellMade(k: Key) {
    k.present ==> 0 < k.value < 0x1_0000_0000_0000_0000 && k.hash == HashKey(Lower(k.data))
  }

  lemma {:induction false} BucketDecides(keys: seq<Key>, size: nat, name: seq<byte>)
    requires size > 0 && forall k :: k in keys ==> WellMade(k)
    ensures Lookup(keys, name) == First(Members(keys, size, Slot(HashKey(name), size)), name)
  {
    if keys != [] {
      var i, k := Slot(HashKey(name), size), keys[|keys| - 1];
      assert k in keys && WellMade(k);
      BucketDecides(keys[..|keys| - 1], size, name);
      var r := Members(keys[..|keys| - 1], size, i);
      assert (r + [Stored(k)])[..|r|] == r;
    }
  }

  lemma {:induction false} FirstStays(es: seq<Elt>, k: nat, name: seq<byte>)
    requires k <= |es| && First(es[..k], name) != 0
    ensures First(es, name) == First(es[..k], name)
    decreases |es|
  {
    if k == |es| {
      assert es[..k] == es;
    } else {
      var l := |es| - 1;
      assert es[..l][..k] == es[..k];
      FirstStays(es[..l], k, name);
    }
  }

  lemma FirstGrows(es: seq<Elt>, k: nat, name: seq<byte>)
    requires k < |es|
    ensures First(es[..k + 1], name) ==
      if First(es[..k], name) != 0 then First(es[..k], name) else if es[k].name == name then es[k].value else 0
  {
    assert es[..k + 1][..k] == es[..k];
  }

  lemma SubSlice(m: seq<byte>, at: nat, n: nat, a: nat, b: nat)
    requires at + n <= |m| && a <= b <= n
    ensures m[at..at + n][a..b] == m[at + a..at + b]
  {
    var x, y := m[at..at + n][a..b], m[at + a..at + b];
    assert forall i :: 0 <= i < |x| ==> x[i] == y[i];
  }

  /** Reading back an element. */
  lemma EltReads(m: seq<byte>, at: nat, e: Elt)
    requires EltAt(m, at, e) && e.value < 0x1_0000_0000_0000_0000 && |e.name| < 0x1_0000
    ensures Number(m[at..at + 8]) == e.value && Number(m[at + 8..at + 10]) == |e.name|
    ensures m[at + 10..at + 10 + |e.name|] == e.name
  {
    var b := EltBytes(e);
    var n := 10 + |e.name|;
    SubSlice(m, at, n, 0, 8);
    SubSlice(m, at, n, 8, 10);
    SubSlice(m, at, n, 10, n);
    assert b[..8] == LittleEndian(e.value, 8) && b[8..10] == LittleEndian(|e.name|, 2) && b[10..] == e.name;
    Powers();
    NumberOfBytes(e.value, 8);
    NumberOfBytes(|e.name|, 2);
  }

  lemma Powers()
    ensures Pow256(2) == 0x1_0000 && Pow256(8) == 0x1_0000_0000_0000_0000
  {}

  /** From an aligned element, the walk reaches the place right after it. */
  lemma NextElt(at: nat, len: nat)
    requires at % 8 == 0
    ensures Align(at + 10 + len, 8) == at + EltSize(len)
  {
    AlignShifts(at / 8 + 1, len + 2, 8);
  }

  /** Where a walk stands at its k-th element, and where it goes next. */
  lemma WalkNext(bucket: nat, es: seq<Elt>, k: nat)
    requires k < |es| && bucket % 8 == 0
    ensures Align(bucket + Total(es[..k]) + 10 + |es[k].name|, 8) == bucket + Total(es[..k + 1]) <= bucket + Total(es)
  {
    TotalGrows(es, k);
    TotalAligned(es[..k]);
    NextElt(bucket + Total(es[..k]), |es[k].name|);
  }

  /** A null value, at which a walk stops. */
  ghost predicate Ended(m: seq<byte>, at: nat) {
    at + 8 <= |m| && Number(m[at..at + 8]) == 0
  }

  /** elt->value, for the k-th element or the end of the bucket */
  method ValueAt(m: seq<byte>, at: nat, ghost bucket: nat, ghost es: seq<Elt>, ghost k: nat) returns (value: nat)
    requires Holds(m, bucket, es) && Ended(m, bucket + Total(es)) && k <= |es| && at == bucket + Total(es[..k])
    requires k < |es| ==> es[k].value < 0x1_0000_0000_0000_0000 && |es[k].name| < 0x1_0000
    ensures value == if k < |es| then es[k].value else 0
  {
    if k < |es| {
      HoldsAt(m, bucket, es, k);
      EltReads(m, at, es[k]);
    } else {
      assert es[..k] == es;
    }
    value := Number(m[at..at + 8]);
  }

  /** elt->len, and the comparison of the names */
  method NameAt(m: seq<byte>, at: nat, name: seq<byte>, ghost e: Elt) returns (len: nat, same: bool)
    requires EltAt(m, at, e) && e.value < 0x1_0000_0000_0000_0000 && |e.name| < 0x1_0000
    ensures len == |e.name| && same == (e.name == name)
  {
    EltReads(m, at, e);
    len := Number(m[at + 8..at + 10]);
    same := |name| == len && name == m[at + 10..at + 10 + len];
  }

  /** The walk of ngx_hash_find along one bucket. */
  method Walk(m: seq<byte>, bucket: nat, name: seq<byte>, ghost es: seq<Elt>) returns (value: nat)
    requires bucket % 8 == 0 && Holds(m, bucket, es) && Ended(m, bucket + Total(es))
    requires forall i :: 0 <= i < |es| ==> 0 < es[i].value < 0x1_0000_0000_0000_0000 && |es[i].name| < 0x1_0000
    ensures value == First(es, name)
  {
    var at := bucket;
    ghost var k := 0;
    value := ValueAt(m, at, bucket, es, k);
    while value != 0
      invariant 0 <= k <= |es| && at == bucket + Total(es[..k])
      invariant value == if k < |es| then es[k].value else 0
      invariant First(es[..k], name) == 0
      decreases |es| - k
    {
      HoldsAt(m, bucket, es, k);
      FirstGrows(es, k, name);
      var len, same := NameAt(m, at, name, es[k]);
      if same {
        FirstStays(es, k + 1, name);
        return;
      }
      WalkNext(bucket, es, k);
      at := Align(at + 10 + len, 8);
      k := k + 1;
      value := ValueAt(m, at, bucket, es, k);
    }
    assert es[..|es|] == es;
  }

  const NULL: int := -1

  class Table {
    const size: nat
    const buckets: seq<int>
    const mem: array<byte>
    ghost const keys: seq<Key>

    constructor (size: nat, buckets: seq<int>, mem: array<byte>, ghost keys: seq<Key>)
      ensures this.size == size && this.buckets == buckets && this.mem == mem && this.keys == keys
    {
      this.size, this.buckets, this.mem, this.keys := size, buckets, mem, keys;
    }

    /** A bucket holds its elements and, after them, a null value; an empty one is null. */
    ghost predicate BucketOk(i: nat)
      requires 0 < size == |buckets| && i < size
      reads this, mem
    {
      var es := Members(keys, size, i);
      if es == [] then buckets[i] == NULL
      else
        && 0 <= buckets[i] && buckets[i] % 8 == 0
        && Holds(mem[..], buckets[i], es) && Ended(mem[..], buckets[i] + Total(es))
    }

    ghost predicate Valid()
      reads this, mem
    {
      && 0 < size == |buckets|
      && (forall k :: k in keys ==> WellMade(k) && |k.data| < 0x1_0000)
      && (forall i {:trigger BucketOk(i)} :: 0 <= i < size ==> BucketOk(i))
    }

    /** ngx_hash_find: for the hash of the name asked for, the value the plain map has. */
    method Find(key: nat, name: seq<byte>) returns (value: nat)
      requires Valid() && key == HashKey(name)
      ensures value == Lookup(keys, name)
    {
      var i := Slot(key, size);
      assert BucketOk(i);
      BucketDecides(keys, size, name);
      MembersKeep(keys, size, i);
      if buckets[i] == NULL {
        return 0;
      }
      value := Walk(mem[..], buckets[i], name, Members(keys, size, i));
    }
  }

  lemma {:induction false} MembersKeep(keys: seq<Key>, size: nat, i: nat)
    requires size > 0 && forall k :: k in keys ==> WellMade(k) && |k.data| < 0x1_0000
    ensures forall e :: e in Members(keys, size, i) ==> 0 < e.value < 0x1_0000_0000_0000_0000 && |e.name| < 0x1_0000
  {
    if keys != [] {
      assert keys[|keys| - 1] in keys;
      MembersKeep(keys[..|keys| - 1], size, i);
    }
  }

  // Building: the size.

  /** With so many buckets, the elements of each fit in the room of a bucket. */
  ghost predicate Fits(keys: seq<Key>, size: nat, room: nat)
    requires size > 0
  {
    forall i :: 0 <= i < size ==> Total(Members(keys, size, i)) <= room
  }

  lemma MembersStep(keys: seq<Key>, size: nat, i: nat, n: nat)
    requires size > 0 && n < |keys|
    ensures var es, k := Members(keys[..n], size, i), keys[n];
      if k.present && Slot(k.hash, size) == i then
        && Members(keys[..n + 1], size, i) == es + [Stored(k)]
        && Total(Members(keys[..n + 1], size, i)) == Total(es) + EltSize(|k.data|)
      else Members(keys[..n + 1], size, i) == es
  {
    assert keys[..n + 1][..n] == keys[..n];
    var es := Members(keys[..n], size, i);
    assert (es + [Stored(keys[n])])[..|es|] == es;
  }

  lemma {:induction false} MembersGrow(keys: seq<Key>, size: nat, i: nat, n: nat)
    requires size > 0 && n <= |keys|
    ensures Total(Members(keys[..n], size, i)) <= Total(Members(keys, size, i))
    decreases |keys| - n
  {
    if n == |keys| {
      assert keys[..n] == keys;
    } else {
      MembersStep(keys, size, i, n);
      MembersGrow(keys, size, i, n + 1);
    }
  }

  /** How full the buckets are after the first n names. */
  function Loads(keys: seq<Key>, size: nat, n: nat): (r: seq<nat>)
    requires size > 0 && n <= |keys|
    ensures |r| == size
  {
    if n == 0 then seq(size, i => 0)
    else
      var r, k := Loads(keys, size, n - 1), keys[n - 1];
      if k.present then r[Slot(k.hash, size) := r[Slot(k.hash, size)] + EltSize(|k.data|)] else r
  }

  lemma {:induction false} LoadsAre(keys: seq<Key>, size: nat, n: nat, i: nat)
    requires size > 0 && n <= |keys| && i < size
    ensures Loads(keys, size, n)[i] == Total(Members(keys[..n], size, i))
  {
    if n > 0 {
      LoadsAre(keys, size, n - 1, i);
      MembersStep(keys, size, i, n - 1);
    }
  }

  lemma LoadsFit(keys: seq<Key>, size: nat, room: nat)
    requires size > 0 && forall i :: 0 <= i < size ==> Loads(keys, size, |keys|)[i] <= room
    ensures Fits(keys, size, room)
  {
    assert keys[..|keys|] == keys;
    forall i: nat | i < size ensures Total(Members(keys, size, i)) <= room {
      LoadsAre(keys, size, |keys|, i);
    }
  }

  lemma Overflow(keys: seq<Key>, size: nat, n: nat, i: nat, room: nat)
    requires size > 0 && n <= |keys| && i < size && Loads(keys, size, n)[i] > room
    ensures !Fits(keys, size, room)
  {
    LoadsAre(keys, size, n, i);
    MembersGrow(keys, size, i, n);
  }

  /** The trial of one size; the sums are 16-bit, which the bound on the room keeps from wrapping. */
  method TrySize(keys: seq<Key>, size: nat, room: nat) returns (ok: bool)
    requires size > 0 && room < 0x8000 && forall k :: k in keys ==> EltSize(|k.data|) <= room
    ensures ok <==> Fits(keys, size, room)
  {
    var test := new nat[size](i => 0);
    var n := 0;
    assert test[..] == Loads(keys, size, 0);
    while n < |keys|
      invariant 0 <= n <= |keys| && test[..] == Loads(keys, size, n)
      invariant forall i :: 0 <= i < size ==> test[i] <= room
    {
      if keys[n].present {
        var key := Slot(keys[n].hash, size);
        assert keys[n] in keys;
        test[key] := (test[key] + EltSize(|keys[n].data|)) % 0x1_0000;
        assert test[..] == Loads(keys, size, n + 1);
        if test[key] > room {
          Overflow(keys, size, n + 1, key, room);
          return false;
        }
      }
      n := n + 1;
    }
    LoadsFit(keys, size, room);
    return true;
  }

  /** Where the trials begin. */
  function StartSize(nelts: nat, maxSize: nat, room: nat): (start: nat)
    requires room >= 16
    ensures start > 0
  {
    var each := room / 16;
    assert each >= 1;
    var start := nelts / each;
    var start' := if start == 0 then 1 else start;
    if maxSize > 10000 && nelts > 0 && maxSize / nelts < 100 then maxSize - 1000 else start'
  }

  /**
   * Where the search begins: a thousand below a large maximum if there are many names for it, else at the number of
   * buckets that the names would fill if each took sixteen bytes, but not at zero.
   */
  lemma StartSizeIs(nelts: nat, maxSize: nat, room: nat)
    requires room >= 16
    ensures var start := StartSize(nelts, maxSize, room);
      if maxSize > 10000 && maxSize < 100 * nelts then start == maxSize - 1000
      else start >= 1 && nelts < (start + 1) * (room / 16) && (start > 1 ==> start * (room / 16) <= nelts)
  {
    var each := room / 16;
    if nelts > 0 {
      QuotientBound(maxSize, nelts, 100);
    }
    QuotientIs(nelts, each);
  }

  lemma QuotientIs(n: nat, d: nat)
    requires d > 0
    ensures n / d * d <= n < (n / d + 1) * d
  {
    assert n == n / d * d + n % d;
  }

  lemma QuotientBound(m: nat, n: nat, k: nat)
    requires n > 0
    ensures m / n < k <==> m < k * n
  {
    QuotientIs(m, n);
    if m / n < k {
      assert (m / n + 1) * n <= k * n;
    } else {
      assert k * n <= m / n * n;
    }
  }

  /** The first size from the start on that fits, if there is one below the maximum. */
  method ChooseSize(keys: seq<Key>, maxSize: nat, room: nat) returns (ok: bool, size: nat)
    requires 16 <= room < 0x8000 && forall k :: k in keys ==> EltSize(|k.data|) <= room
    ensures ok ==> StartSize(|keys|, maxSize, room) <= size < maxSize && size > 0 && Fits(keys, size, room)
    ensures ok ==> forall z {:trigger Fits(keys, z, room)} :: StartSize(|keys|, maxSize, room) <= z < size ==> !Fits(keys, z, room)
    ensures !ok ==> forall z {:trigger Fits(keys, z, room)} :: StartSize(|keys|, maxSize, room) <= z < maxSize ==> !Fits(keys, z, room)
  {
    size := StartSize(|keys|, maxSize, room);
    while size < maxSize
      invariant size >= StartSize(|keys|, maxSize, room)
      invariant forall z {:trigger Fits(keys, z, room)} :: StartSize(|keys|, maxSize, room) <= z < size ==> !Fits(keys, z, room)
    {
      ok := TrySize(keys, size, room);
      if ok {
        return;
      }
      size := size + 1;
    }
    ok := false;
  }

  // Building: where the buckets begin.

  /** The bytes set aside for a bucket: its elements, a null value, and the rest of the cache line. */
  function Area(load: nat): (n: nat)
    ensures load > 0 ==> load + 8 <= n < load + 72
  {
    if load == 0 then 0 else Align(8 + load, 64)
  }

  function Start(loads: seq<nat>, i: nat): (n: nat)
    requires i <= |loads|
  {
    if i == 0 then 0 else Start(loads, i - 1) + Area(loads[i - 1])
  }

  lemma {:induction false} StartAligned(loads: seq<nat>, i: nat)
    requires i <= |loads|
    ensures Start(loads, i) % 8 == 0
  {
    if i > 0 {
      StartAligned(loads, i - 1);
      AreaAligned(loads[i - 1]);
      SumAligned(Start(loads, i - 1), Area(loads[i - 1]));
    }
  }

  lemma AreaAligned(load: nat)
    ensures Area(load) % 8 == 0
  {
    AlignFormula(8 + load);
    Words(Area(load) / 64);
  }

  lemma SumAligned(a: nat, b: nat)
    requires a % 8 == 0 && b % 8 == 0
    ensures (a + b) % 8 == 0
  {}

  lemma Words(q: nat)
    ensures q * 64 % 8 == 0
  {}

  /** The areas follow one another without overlap. */
  lemma {:induction false} AreasApart(loads: seq<nat>, i: nat, j: nat)
    requires i < j <= |loads|
    ensures Start(loads, i) + Area(loads[i]) <= Start(loads, j)
  {
    if i < j - 1 {
      AreasApart(loads, i, j - 1);
    }
  }

  lemma LoadsBounded(keys: seq<Key>, size: nat, n: nat, i: nat, room: nat)
    requires size > 0 && n <= |keys| && i < size && Fits(keys, size, room)
    ensures Loads(keys, size, n)[i] <= Loads(keys, size, |keys|)[i] <= room
  {
    LoadsAre(keys, size, n, i);
    LoadsAre(keys, size, |keys|, i);
    MembersGrow(keys, size, i, n);
    assert keys[..|keys|] == keys;
  }

  lemma SumFits(load: nat, more: nat, room: nat)
    requires load + more <= room < 0x8000
    ensures (8 + load + more) % 0x1_0000 == 8 + (load + more)
  {}

  /** The second count: each bucket's 16-bit size, the null value included. */
  method Measure(keys: seq<Key>, size: nat, room: nat) returns (test: array<nat>)
    requires size > 0 && room < 0x8000 && Fits(keys, size, room)
    ensures test.Length == size
    ensures forall i :: 0 <= i < size ==> test[i] == 8 + Loads(keys, size, |keys|)[i]
  {
    test := new nat[size](i => 8);
    var n := 0;
    ghost var loads := Loads(keys, size, 0);
    while n < |keys|
      invariant 0 <= n <= |keys| && loads == Loads(keys, size, n)
      invariant forall i :: 0 <= i < size ==> test[i] == 8 + loads[i]
    {
      ghost var next := Loads(keys, size, n + 1);
      if keys[n].present {
        var key := Slot(keys[n].hash, size);
        LoadsBounded(keys, size, n + 1, key, room);
        SumFits(loads[key], EltSize(|keys[n].data|), room);
        assert next == loads[key := loads[key] + EltSize(|keys[n].data|)];
        test[key] := (test[key] + EltSize(|keys[n].data|)) % 0x1_0000;
      }
      n, loads := n + 1, next;
    }
  }

  /** The aligned 16-bit size of a bucket. */
  function Aligned(test: nat): nat {
    Align(test, 64) % 0x1_0000
  }

  lemma StartStep(loads: seq<nat>, i: nat)
    requires i < |loads| && loads[i] < 0x8000
    ensures Start(loads, i + 1) == Start(loads, i) + if loads[i] == 0 then 0 else Aligned(8 + loads[i])
  {}

  /** The loops that align the sizes and set the buckets. */
  method LayOut(test: array<nat>, ghost loads: seq<nat>) returns (buckets: seq<int>, len: nat)
    requires test.Length == |loads|
    requires forall i :: 0 <= i < |loads| ==> test[i] == 8 + loads[i] && loads[i] < 0x8000
    ensures |buckets| == |loads| && len == Start(loads, |loads|)
    ensures forall i {:trigger buckets[i]} :: 0 <= i < |loads| ==> buckets[i] == if loads[i] == 0 then NULL else Start(loads, i)
  {
    buckets, len := [], 0;
    var i := 0;
    while i < test.Length
      invariant 0 <= i <= test.Length && |buckets| == i && len == Start(loads, i)
      invariant forall j {:trigger buckets[j]} :: 0 <= j < i ==> buckets[j] == if loads[j] == 0 then NULL else Start(loads, j)
    {
      StartStep(loads, i);
      if test[i] == 8 {
        buckets := buckets + [NULL];
      } else {
        buckets := buckets + [len];
        len := len + Aligned(test[i]);
      }
      i := i + 1;
    }
  }

  // Building: filling the buckets.

  /** Where each bucket begins, with the load it will have; the buckets do not overlap and leave room for a null value. */
  ghost predicate Spaced(starts: seq<nat>, loads: seq<nat>, len: nat) {
    && |starts| == |loads|
    && (forall i {:trigger starts[i]} :: 0 <= i < |starts| ==>
        starts[i] % 8 == 0 && (loads[i] > 0 ==> starts[i] + loads[i] + 8 <= len))
    && (forall i, j {:trigger starts[i], starts[j]} :: 0 <= i < j < |starts| ==>
        loads[i] == 0 || loads[j] == 0 || starts[i] + loads[i] + 8 <= starts[j])
  }

  lemma RoomLeft(loads: seq<nat>, i: nat, j: nat)
    requires i < j <= |loads|
    ensures Start(loads, i) % 8 == 0 && (loads[i] > 0 ==> Start(loads, i) + loads[i] + 8 <= Start(loads, j))
  {
    AreasApart(loads, i, j);
    StartAligned(loads, i);
  }

  lemma StartsSpaced(starts: seq<nat>, loads: seq<nat>)
    requires |starts| == |loads| && forall i {:trigger starts[i]} :: 0 <= i < |loads| ==> starts[i] == Start(loads, i)
    ensures Spaced(starts, loads, Start(loads, |loads|))
  {
    forall i | 0 <= i < |starts| ensures starts[i] % 8 == 0 && (loads[i] > 0 ==> starts[i] + loads[i] + 8 <= Start(loads, |loads|)) {
      RoomLeft(loads, i, |loads|);
    }
    forall i, j | 0 <= i < j < |starts| ensures loads[i] == 0 || loads[j] == 0 || starts[i] + loads[i] + 8 <= starts[j] {
      RoomLeft(loads, i, j);
    }
  }

  /** After n names, every bucket holds its elements so far. */
  ghost predicate Filled(m: seq<byte>, keys: seq<Key>, size: nat, n: nat, starts: seq<nat>)
    requires size == |starts| > 0 && n <= |keys|
  {
    forall i {:trigger starts[i]} :: 0 <= i < size ==> Holds(m, starts[i], Members(keys[..n], size, i))
  }

  /** m' is m with data written at `at`. */
  ghost predicate Written(m: seq<byte>, m': seq<byte>, at: nat, data: seq<byte>) {
    && |m'| == |m| && at + |data| <= |m| && m'[at..at + |data|] == data
    && (forall j :: 0 <= j < |m| && !(at <= j < at + |data|) ==> m'[j] == m[j])
  }

  method Put(mem: array<byte>, at: nat, data: seq<byte>)
    requires at + |data| <= mem.Length
    modifies mem
    ensures Written(old(mem[..]), mem[..], at, data)
  {
    forall j | 0 <= j < |data| {
      mem[at + j] := data[j];
    }
  }

  lemma OthersKept(m: seq<byte>, m': seq<byte>, at: nat, data: seq<byte>, start: nat, es: seq<Elt>)
    requires Written(m, m', at, data) && Holds(m, start, es)
    requires Total(es) == 0 || start + Total(es) <= at || at + |data| <= start
    ensures Holds(m', start, es)
  {}

  lemma OneMore(m: seq<byte>, m': seq<byte>, start: nat, es: seq<Elt>, e: Elt)
    requires Written(m, m', start + Total(es), EltBytes(e)) && Holds(m, start, es)
    ensures Holds(m', start, es + [e])
  {
    HoldsFrame(m, m', start, es);
    HoldsMore(m', start, es, e);
  }

  /** The element of name n goes right behind those of its bucket, and clear of all others. */
  lemma StepApart(keys: seq<Key>, size: nat, n: nat, starts: seq<nat>, room: nat, len: nat, i: nat)
    requires size == |starts| > 0 && n < |keys| && keys[n].present && Fits(keys, size, room) && i < size
    requires Spaced(starts, Loads(keys, size, |keys|), len)
    ensures var k := Slot(keys[n].hash, size);
      var at, t := starts[k] + Loads(keys, size, n)[k], Total(Members(keys[..n], size, i));
      if i == k then at == starts[k] + t
      else t == 0 || starts[i] + t <= at || at + 10 + |keys[n].data| <= starts[i]
  {
    var k := Slot(keys[n].hash, size);
    LoadsAre(keys, size, n, i);
    LoadsBounded(keys, size, n, i, room);
    LoadsBounded(keys, size, n + 1, k, room);
    assert Loads(keys, size, n + 1)[k] == Loads(keys, size, n)[k] + EltSize(|keys[n].data|);
  }

  lemma FilledStep(m: seq<byte>, m': seq<byte>, keys: seq<Key>, size: nat, n: nat, starts: seq<nat>, room: nat, len: nat)
    requires size == |starts| > 0 && n < |keys| && keys[n].present && Fits(keys, size, room)
    requires Spaced(starts, Loads(keys, size, |keys|), len) && Filled(m, keys, size, n, starts)
    requires var i := Slot(keys[n].hash, size);
      Written(m, m', starts[i] + Loads(keys, size, n)[i], EltBytes(Stored(keys[n])))
    ensures Filled(m', keys, size, n + 1, starts)
  {
    var k := Slot(keys[n].hash, size);
    var at, e := starts[k] + Loads(keys, size, n)[k], Stored(keys[n]);
    forall i: nat | i < size ensures Holds(m', starts[i], Members(keys[..n + 1], size, i)) {
      var es := Members(keys[..n], size, i);
      MembersStep(keys, size, i, n);
      StepApart(keys, size, n, starts, room, len, i);
      if i == k {
        OneMore(m, m', starts[k], es, e);
      } else {
        OthersKept(m, m', at, EltBytes(e), starts[i], es);
      }
    }
  }

  /** The stores of one element. */
  method StoreOne(mem: array<byte>, keys: seq<Key>, size: nat, n: nat, ghost room: nat, at: nat, ghost starts: seq<nat>)
    requires size == |starts| > 0 && n < |keys| && keys[n].present && Fits(keys, size, room)
    requires Spaced(starts, Loads(keys, size, |keys|), mem.Length) && Filled(mem[..], keys, size, n, starts)
    requires at == starts[Slot(keys[n].hash, size)] + Loads(keys, size, n)[Slot(keys[n].hash, size)]
    requires at + 10 + |keys[n].data| <= mem.Length
    modifies mem
    ensures Filled(mem[..], keys, size, n + 1, starts)
  {
    ghost var m := mem[..];
    Put(mem, at, EltBytes(Stored(keys[n])));
    FilledStep(m, mem[..], keys, size, n, starts, room, mem.Length);
  }

  /** One turn of the loop that stores the elements. */
  method StoreNext(mem: array<byte>, test: array<nat>, keys: seq<Key>, n: nat, ghost room: nat, buckets: seq<int>, ghost starts: seq<nat>)
    requires 0 < test.Length == |starts| == |buckets| && n < |keys| && room < 0x8000
    requires Fits(keys, test.Length, room) && Spaced(starts, Loads(keys, test.Length, |keys|), mem.Length)
    requires forall i {:trigger buckets[i]} :: 0 <= i < test.Length ==>
      Loads(keys, test.Length, |keys|)[i] > 0 ==> buckets[i] == starts[i]
    requires test[..] == Loads(keys, test.Length, n) && Filled(mem[..], keys, test.Length, n, starts)
    modifies mem, test
    ensures test[..] == Loads(keys, test.Length, n + 1) && Filled(mem[..], keys, test.Length, n + 1, starts)
  {
    if keys[n].present {
      var key := Slot(keys[n].hash, test.Length);
      PlaceFor(keys, test.Length, n, room, starts, mem.Length);
      assert test[key] == test[..][key];
      StoreOne(mem, keys, test.Length, n, room, buckets[key] + test[key], starts);
      test[key] := (test[key] + EltSize(|keys[n].data|)) % 0x1_0000;
    } else {
      Skipped(mem[..], keys, test.Length, n, starts);
    }
  }

  lemma PlaceFor(keys: seq<Key>, size: nat, n: nat, room: nat, starts: seq<nat>, len: nat)
    requires size == |starts| > 0 && n < |keys| && keys[n].present && room < 0x8000 && Fits(keys, size, room)
    requires Spaced(starts, Loads(keys, size, |keys|), len)
    ensures var k, load := Slot(keys[n].hash, size), Loads(keys, size, n)[Slot(keys[n].hash, size)];
      && Loads(keys, size, |keys|)[k] > 0
      && load + EltSize(|keys[n].data|) < 0x8000
      && starts[k] + load + 10 + |keys[n].data| <= len
  {
    var k := Slot(keys[n].hash, size);
    LoadsBounded(keys, size, n + 1, k, room);
    assert starts[k] % 8 == 0;
  }

  lemma Skipped(m: seq<byte>, keys: seq<Key>, size: nat, n: nat, starts: seq<nat>)
    requires size == |starts| > 0 && n < |keys| && !keys[n].present && Filled(m, keys, size, n, starts)
    ensures Filled(m, keys, size, n + 1, starts)
  {
    forall i: nat | i < size ensures Holds(m, starts[i], Members(keys[..n + 1], size, i)) {
      MembersStep(keys, size, i, n);
    }
  }

  /** The loop that stores the elements. */
  method Store(mem: array<byte>, test: array<nat>, keys: seq<Key>, ghost room: nat, buckets: seq<int>, ghost starts: seq<nat>)
    requires 0 < test.Length == |starts| == |buckets| && room < 0x8000
    requires Fits(keys, test.Length, room) && Spaced(starts, Loads(keys, test.Length, |keys|), mem.Length)
    requires forall i {:trigger buckets[i]} :: 0 <= i < test.Length ==>
      Loads(keys, test.Length, |keys|)[i] > 0 ==> buckets[i] == starts[i]
    requires forall i :: 0 <= i < test.Length ==> test[i] == 0
    modifies mem, test
    ensures test[..] == Loads(keys, test.Length, |keys|) && Filled(mem[..], keys, test.Length, |keys|, starts)
  {
    assert test[..] == Loads(keys, test.Length, 0);
    var n := 0;
    while n < |keys|
      invariant 0 <= n <= |keys|
      invariant test[..] == Loads(keys, test.Length, n) && Filled(mem[..], keys, test.Length, n, starts)
    {
      StoreNext(mem, test, keys, n, room, buckets, starts);
      n := n + 1;
    }
  }

  ghost predicate EndedUpTo(m: seq<byte>, starts: seq<nat>, loads: seq<nat>, n: nat)
    requires n <= |starts| == |loads|
  {
    forall i {:trigger starts[i]} :: 0 <= i < n && loads[i] > 0 ==> Ended(m, starts[i] + loads[i])
  }

  lemma EndKept(m: seq<byte>, m': seq<byte>, at: nat, data: seq<byte>, end: nat)
    requires Written(m, m', at, data) && Ended(m, end) && (end + 8 <= at || at + |data| <= end)
    ensures Ended(m', end)
  {
    assert m'[end..end + 8] == m[end..end + 8];
  }

  lemma EndWritten(m: seq<byte>, m': seq<byte>, at: nat)
    requires Written(m, m', at, LittleEndian(0, 8))
    ensures Ended(m', at)
  {}

  lemma EndsStep(m: seq<byte>, m': seq<byte>, starts: seq<nat>, loads: seq<nat>, i: nat)
    requires Spaced(starts, loads, |m|) && i < |starts| && loads[i] > 0 && EndedUpTo(m, starts, loads, i)
    requires Written(m, m', starts[i] + loads[i], LittleEndian(0, 8))
    ensures EndedUpTo(m', starts, loads, i + 1)
  {
    var at := starts[i] + loads[i];
    EndWritten(m, m', at);
    forall j | 0 <= j < i && loads[j] > 0 ensures Ended(m', starts[j] + loads[j]) {
      EndKept(m, m', at, LittleEndian(0, 8), starts[j] + loads[j]);
    }
  }

  lemma FillKept(m: seq<byte>, m': seq<byte>, keys: seq<Key>, starts: seq<nat>, loads: seq<nat>, i: nat)
    requires 0 < |starts| && loads == Loads(keys, |starts|, |keys|)
    requires Spaced(starts, loads, |m|) && i < |starts| && loads[i] > 0 && Filled(m, keys, |starts|, |keys|, starts)
    requires Written(m, m', starts[i] + loads[i], LittleEndian(0, 8))
    ensures Filled(m', keys, |starts|, |keys|, starts)
  {}

  /** The loop that ends the buckets. */
  method Terminate(mem: array<byte>, test: array<nat>, keys: seq<Key>, buckets: seq<int>, ghost starts: seq<nat>, ghost loads: seq<nat>)
    requires 0 < test.Length == |starts| == |buckets| && loads == Loads(keys, |starts|, |keys|) == test[..]
    requires Spaced(starts, loads, mem.Length) && Filled(mem[..], keys, |starts|, |keys|, starts)
    requires forall i {:trigger buckets[i]} :: 0 <= i < test.Length ==>
      buckets[i] == if loads[i] == 0 then NULL else starts[i]
    modifies mem
    ensures Filled(mem[..], keys, |starts|, |keys|, starts) && EndedUpTo(mem[..], starts, loads, |starts|)
  {
    var i := 0;
    while i < test.Length
      invariant 0 <= i <= test.Length && loads == test[..]
      invariant Filled(mem[..], keys, |starts|, |keys|, starts) && EndedUpTo(mem[..], starts, loads, i)
    {
      if buckets[i] != NULL {
        ghost var m := mem[..];
        assert loads[i] == test[i] && starts[i] % 8 == 0;
        Put(mem, buckets[i] + test[i], LittleEndian(0, 8));
        EndsStep(m, mem[..], starts, loads, i);
        FillKept(m, mem[..], keys, starts, loads, i);
      }
      i := i + 1;
    }
  }

  /** A filled and ended memory is a valid table. */
  lemma Finished(t: Table, starts: seq<nat>, loads: seq<nat>)
    requires 0 < t.size == |starts| == |t.buckets| && loads == Loads(t.keys, t.size, |t.keys|)
    requires Spaced(starts, loads, t.mem.Length)
    requires Filled(t.mem[..], t.keys, t.size, |t.keys|, starts) && EndedUpTo(t.mem[..], starts, loads, t.size)
    requires forall i {:trigger t.buckets[i]} :: 0 <= i < t.size ==>
      t.buckets[i] == if loads[i] == 0 then NULL else starts[i]
    requires forall k :: k in t.keys ==> WellMade(k) && |k.data| < 0x1_0000
    ensures t.Valid()
  {
    assert t.keys[..|t.keys|] == t.keys;
    forall i: nat | i < t.size ensures t.BucketOk(i) {
      LoadsAre(t.keys, t.size, |t.keys|, i);
      var es := Members(t.keys, t.size, i);
      assert Total(es) == loads[i] && (es == [] <==> loads[i] == 0);
    }
  }

  /** The rest of ngx_hash_init, for a size that fits. */
  method Build(keys: seq<Key>, size: nat, room: nat) returns (t: Table)
    requires size > 0 && room < 0x8000 && Fits(keys, size, room)
    requires forall k :: k in keys ==> WellMade(k) && |k.data| < 0x1_0000
    ensures fresh(t) && t.Valid() && t.keys == keys && t.size == size
  {
    var test := Measure(keys, size, room);
    ghost var loads := Loads(keys, size, |keys|);
    forall i: nat | i < size ensures loads[i] < 0x8000 {
      LoadsBounded(keys, size, |keys|, i, room);
    }
    var buckets, len := LayOut(test, loads);
    ghost var starts := seq(size, i requires 0 <= i < size => Start(loads, i));
    StartsSpaced(starts, loads);
    var mem := new byte[len];
    var fill := new nat[size](i => 0);
    Store(mem, fill, keys, room, buckets, starts);
    Terminate(mem, fill, keys, buckets, starts, loads);
    t := new Table(size, buckets, mem, keys);
    Finished(t, starts, loads);
  }

  /** An element too large for a bucket, together with the null value. */
  predicate TooLarge(k: Key, bucketSize: nat) {
    bucketSize < EltSize(|k.data|) + 8
  }

  /**
   * ngx_hash_init. It fails exactly when an element is too large or no size tried fits; otherwise it
   * takes the first size that does, and the table answers every lookup like the plain map of the names.
   */
  method Init(keys: seq<Key>, maxSize: nat, bucketSize: nat) returns (t: Table?)
    requires bucketSize < 0x8000 && (keys == [] ==> bucketSize >= 24)
    requires forall k :: k in keys ==> WellMade(k)
    ensures t != null ==>
      && fresh(t) && t.Valid() && t.keys == keys
      && (forall k :: k in keys ==> !TooLarge(k, bucketSize))
      && bucketSize >= 24 && StartSize(|keys|, maxSize, bucketSize - 8) <= t.size < maxSize && t.size > 0
      && Fits(keys, t.size, bucketSize - 8)
      && (forall z {:trigger Fits(keys, z, bucketSize - 8)} ::
            StartSize(|keys|, maxSize, bucketSize - 8) <= z < t.size ==> !Fits(keys, z, bucketSize - 8))
    ensures t == null ==>
      || (exists k :: k in keys && TooLarge(k, bucketSize))
      || (bucketSize >= 24 && forall z {:trigger Fits(keys, z, bucketSize - 8)} ::
          StartSize(|keys|, maxSize, bucketSize - 8) <= z < maxSize ==> !Fits(keys, z, bucketSize - 8))
  {
    var n := 0;
    while n < |keys|
      invariant 0 <= n <= |keys| && forall i :: 0 <= i < n ==> !TooLarge(keys[i], bucketSize)
    {
      if TooLarge(keys[n], bucketSize) {
        return null;
      }
      n := n + 1;
    }
    assert keys != [] ==> !TooLarge(keys[0], bucketSize);
    var ok, size := ChooseSize(keys, maxSize, bucketSize - 8);
    if !ok {
      return null;
    }
    t := Build(keys, size, bucketSize - 8);
  }
}
