/** The Bloom filter policy (util/bloom.cc). The hash function is a parameter. */
module Bloom {
  import opened Coding

  type HashFunction = Bytes -> U32

  // ---- Bits of a byte ----------------------------------------------------------------------------

  function PowerOf2(n: nat): (r: nat)
    ensures r >= 1
  {
    if n == 0 then 1 else 2 * PowerOf2(n - 1)
  }

  /** x & (1 << i) */
  predicate HasBit(x: nat, i: nat) { if i == 0 then x % 2 == 1 else HasBit(x / 2, i - 1) }

  /** x | (1 << i), for an n-bit x */
  function WithBit(x: nat, i: nat, n: nat): (r: nat)
    requires i < n && x < PowerOf2(n)
    ensures r < PowerOf2(n)
  {
    var half, low := x / 2, x % 2;
    if i == 0 then 2 * half + 1 else 2 * WithBit(half, i - 1, n - 1) + low
  }

  lemma Halve(half: nat, low: nat)
    requires low < 2
    ensures (2 * half + low) / 2 == half && (2 * half + low) % 2 == low
  {
  }

  lemma {:induction false} WithBitSets(x: nat, i: nat, n: nat, j: nat)
    requires i < n && x < PowerOf2(n)
    ensures HasBit(WithBit(x, i, n), j) <==> HasBit(x, j) || j == i
  {
    var half, low := x / 2, x % 2;
    assert x == 2 * half + low;
    if i == 0 {
      Halve(half, 1);
    } else {
      var w := WithBit(half, i - 1, n - 1);
      Halve(w, low);
      assert WithBit(x, i, n) == 2 * w + low;
      if j > 0 {
        WithBitSets(half, i - 1, n - 1, j - 1);
      }
    }
  }

  // ---- Bit arrays ------------------------------------------------------------------------------

  predicate BitAt(bitmap: Bytes, pos: nat)
    requires pos < 8 * |bitmap|
  {
    HasBit(bitmap[pos / 8], pos % 8)
  }

  /** array[pos / 8] |= 1 << (pos % 8) */
  function SetAt(bitmap: Bytes, pos: nat): (r: Bytes)
    requires pos < 8 * |bitmap|
    ensures |r| == |bitmap|
  {
    assert PowerOf2(8) == 2 * 2 * 2 * 2 * PowerOf2(4) && PowerOf2(4) == 16;
    bitmap[pos / 8 := WithBit(bitmap[pos / 8], pos % 8, 8)]
  }

  lemma SetAtSets(bitmap: Bytes, pos: nat, other: nat)
    requires pos < 8 * |bitmap| && other < 8 * |bitmap|
    ensures BitAt(SetAt(bitmap, pos), other) <==> BitAt(bitmap, other) || other == pos
  {
    assert PowerOf2(8) == 2 * 2 * 2 * 2 * PowerOf2(4) && PowerOf2(4) == 16;
    if other / 8 == pos / 8 {
      WithBitSets(bitmap[pos / 8], pos % 8, 8, other % 8);
    }
  }

  // ---- Probes ------------------------------------------------------------------------------------

  /** Rotate right 17 bits. */
  function Delta(h: U32): U32 { h / 0x2_0000 + h % 0x2_0000 * 0x8000 }

  /** The j-th value of double hashing. */
  function HashAt(h: U32, j: nat): U32 {
    if j == 0 then h else (HashAt(h, j - 1) + Delta(h)) % 0x1_0000_0000
  }

  /** The bits of two numbers written one above the other. */
  lemma {:induction false} Joined(low: nat, n: nat, high: nat, i: nat)
    requires low < PowerOf2(n)
    ensures HasBit(low + high * PowerOf2(n), i) <==> if i < n then HasBit(low, i) else HasBit(high, i - n)
  {
    if n > 0 {
      var half, bit := low / 2, low % 2;
      var x := half + high * PowerOf2(n - 1);
      assert low + high * PowerOf2(n) == 2 * x + bit by {
        assert high * (2 * PowerOf2(n - 1)) == 2 * (high * PowerOf2(n - 1));
      }
      Halve(x, bit);
      if i > 0 {
        Joined(half, n - 1, high, i - 1);
      }
    }
  }

  /** Delta rotates: bit i of the step is bit i + 17 of the hash, counted around. */
  lemma DeltaRotates(h: U32, i: nat)
    requires i < 32
    ensures HasBit(Delta(h), i) <==> HasBit(h, (i + 17) % 32)
  {
    hide HasBit;
    assert PowerOf2(15) == 0x8000 && PowerOf2(17) == 0x2_0000 by {
      assert PowerOf2(5) == 32 && PowerOf2(10) == 1024;
    }
    Joined(h / 0x2_0000, 15, h % 0x2_0000, i);
    Joined(h % 0x2_0000, 17, h / 0x2_0000, (i + 17) % 32);
  }

  function Probe(h: U32, j: nat, bits: nat): (r: nat)
    requires bits > 0
    ensures r < bits
  {
    HashAt(h, j) % bits
  }

  /** The first k probes of the key hit bits that are set. */
  predicate AllSet(h: U32, bitmap: Bytes, k: nat)
    requires bitmap != []
  {
    forall j :: 0 <= j < k ==> BitAt(bitmap, Probe(h, j, 8 * |bitmap|))
  }

  /** Some key probes the bit. */
  ghost predicate Probed(hash: HashFunction, keys: seq<Bytes>, k: nat, bits: nat, pos: nat)
    requires bits > 0
  {
    exists n, j :: 0 <= n < |keys| && 0 <= j < k && Probe(hash(keys[n]), j, bits) == pos
  }

  /** Some of the first k probes hits the bit. */
  ghost predicate Hits(h: U32, k: nat, bits: nat, pos: nat)
    requires bits > 0
  {
    exists j :: 0 <= j < k && Probe(h, j, bits) == pos
  }

  lemma ProbedMore(hash: HashFunction, keys: seq<Bytes>, i: nat, k: nat, bits: nat, pos: nat)
    requires bits > 0 && i < |keys|
    ensures Probed(hash, keys[..i + 1], k, bits, pos) <==>
              Probed(hash, keys[..i], k, bits, pos) || Hits(hash(keys[i]), k, bits, pos)
  {
    hide Probe;
    if Probed(hash, keys[..i + 1], k, bits, pos) {
      var n, j :| 0 <= n < |keys[..i + 1]| && 0 <= j < k && Probe(hash(keys[..i + 1][n]), j, bits) == pos;
      assert n < i ==> keys[..i][n] == keys[..i + 1][n];
    }
    if Probed(hash, keys[..i], k, bits, pos) {
      var n, j :| 0 <= n < |keys[..i]| && 0 <= j < k && Probe(hash(keys[..i][n]), j, bits) == pos;
      assert keys[..i][n] == keys[..i + 1][n];
    }
    if Hits(hash(keys[i]), k, bits, pos) {
      assert keys[..i + 1][i] == keys[i];
    }
  }

  lemma {:induction false} NoBits(i: nat)
    ensures !HasBit(0, i)
  {
    if i > 0 {
      NoBits(i - 1);
    }
  }

  /** What a filter says about a key: the last byte is the number of probes. */
  predicate MayMatch(hash: HashFunction, key: Bytes, filter: Bytes) {
    |filter| >= 2 &&
    (filter[|filter| - 1] > 30 || AllSet(hash(key), filter[..|filter| - 1], filter[|filter| - 1]))
  }

  /** Setting more bits keeps those that are set. */
  lemma SetAtKeeps(h: U32, bitmap: Bytes, k: nat, pos: nat)
    requires bitmap != [] && pos < 8 * |bitmap| && AllSet(h, bitmap, k)
    ensures AllSet(h, SetAt(bitmap, pos), k)
  {
    hide BitAt, SetAt, Probe;
    forall j | 0 <= j < k ensures BitAt(SetAt(bitmap, pos), Probe(h, j, 8 * |SetAt(bitmap, pos)|)) {
      SetAtSets(bitmap, pos, Probe(h, j, 8 * |bitmap|));
    }
  }

  /** BloomFilterPolicy with `k` probes, 0.69 times bitsPerKey rounded down and brought between 1 and 30. */
  datatype BloomPolicy = BloomPolicy(bitsPerKey: nat, k: nat, hash: HashFunction) {
    ghost predicate Valid() { 1 <= k <= 30 }

    /** A filter for the keys: at least 64 bits, bitsPerKey for each of them, set exactly where a key probes, and the
        number of probes. */
    ghost predicate IsFilterOf(keys: seq<Bytes>, filter: Bytes) {
      && |filter| - 1 == ((if |keys| * bitsPerKey < 64 then 64 else |keys| * bitsPerKey) + 7) / 8
      && filter[|filter| - 1] == k
      && var bitmap := filter[..|filter| - 1];
         forall pos :: 0 <= pos < 8 * |bitmap| ==>
           (BitAt(bitmap, pos) <==> Probed(hash, keys, k, 8 * |bitmap|, pos))
    }

    /** It matches every one of them. */
    lemma FilterMatches(keys: seq<Bytes>, filter: Bytes, i: nat)
      requires Valid() && IsFilterOf(keys, filter) && i < |keys|
      ensures MayMatch(hash, keys[i], filter)
    {
      hide BitAt, Probe;
      var bitmap := filter[..|filter| - 1];
      forall j | 0 <= j < k ensures BitAt(bitmap, Probe(hash(keys[i]), j, 8 * |bitmap|)) {
        assert Probed(hash, keys, k, 8 * |bitmap|, Probe(hash(keys[i]), j, 8 * |bitmap|));
      }
    }

    /** Appends to dst a filter for the given keys. */
    method CreateFilter(keys: seq<Bytes>, dst: Bytes) returns (r: Bytes)
      requires Valid()
      ensures dst <= r && |r| >= |dst| + 9
      ensures forall i :: 0 <= i < |keys| ==> MayMatch(hash, keys[i], r[|dst|..])
      ensures IsFilterOf(keys, r[|dst|..])
    {
      hide AllSet, Probe, SetAt, BitAt, Probed, Hits;
      var bits := |keys| * bitsPerKey;
      if bits < 64 {
        bits := 64;
      }
      var bytes := (bits + 7) / 8;
      bits := bytes * 8;
      var bitmap: Bytes := seq(bytes, _ => 0);
      NothingProbed(hash, keys, bitmap, k);
      for i := 0 to |keys|
        invariant |bitmap| == bytes && OnlyProbed(hash, keys[..i], bitmap, k, 0, 0)
        invariant forall n :: 0 <= n < i ==> AllSet(hash(keys[n]), bitmap, k)
      {
        var h := hash(keys[i]);
        ghost var h0 := h;
        var delta := Delta(h);
        NoProbes(h0, bitmap);
        ProbedBefore(hash, keys[..i], bitmap, k, h0);
        for j := 0 to k
          invariant |bitmap| == bytes && h == HashAt(h0, j)
          invariant AllSet(h0, bitmap, j) && OnlyProbed(hash, keys[..i], bitmap, k, h0, j)
          invariant forall n :: 0 <= n < i ==> AllSet(hash(keys[n]), bitmap, k)
        {
          var bitpos := h % bits;
          OneMoreProbe(hash, keys[..i], bitmap, k, h0, j);
          forall n | 0 <= n < i ensures AllSet(hash(keys[n]), SetAt(bitmap, bitpos), k) {
            SetAtKeeps(hash(keys[n]), bitmap, k, bitpos);
          }
          ProbeSet(h0, bitmap, j);
          bitmap := SetAt(bitmap, bitpos);
          h := (h + delta) % 0x1_0000_0000;
        }
        KeyProbed(hash, keys, i, bitmap, k);
      }
      assert keys[..|keys|] == keys;
      AllProbed(hash, keys, bitmap, k);
      r := dst + bitmap + [k];
      assert r[|dst|..] == bitmap + [k] && (bitmap + [k])[..bytes] == bitmap;
    }

    method KeyMayMatch(key: Bytes, filter: Bytes) returns (r: bool)
      ensures r == MayMatch(hash, key, filter)
    {
      hide BitAt;
      var len := |filter|;
      if len < 2 {
        return false;
      }
      var bitmap := filter[..len - 1];
      var bits := (len - 1) * 8;
      var probes := filter[len - 1];
      if probes > 30 {
        return true;
      }
      var h := hash(key);
      ghost var h0 := h;
      var delta := Delta(h);
      for j := 0 to probes
        invariant h == HashAt(h0, j) && AllSet(h0, bitmap, j)
      {
        var bitpos := h % bits;
        if !BitAt(bitmap, bitpos) {
          assert !BitAt(bitmap, Probe(h0, j, bits));
          return false;
        }
        h := (h + delta) % 0x1_0000_0000;
      }
      r := true;
    }
  }

  /** The bits that are set are those that the keys probe, and the first j probes of one more. */
  ghost predicate OnlyProbed(hash: HashFunction, keys: seq<Bytes>, bitmap: Bytes, k: nat, h: U32, j: nat) {
    bitmap != [] &&
    forall pos :: 0 <= pos < 8 * |bitmap| ==>
      (BitAt(bitmap, pos) <==> Probed(hash, keys, k, 8 * |bitmap|, pos) || Hits(h, j, 8 * |bitmap|, pos))
  }

  lemma NothingProbed(hash: HashFunction, keys: seq<Bytes>, bitmap: Bytes, k: nat)
    requires bitmap != [] && forall i :: 0 <= i < |bitmap| ==> bitmap[i] == 0
    ensures OnlyProbed(hash, keys[..0], bitmap, k, 0, 0)
  {
    forall pos | 0 <= pos < 8 * |bitmap| ensures !BitAt(bitmap, pos) {
      NoBits(pos % 8);
    }
  }

  lemma ProbedBefore(hash: HashFunction, keys: seq<Bytes>, bitmap: Bytes, k: nat, h: U32)
    requires OnlyProbed(hash, keys, bitmap, k, 0, 0)
    ensures OnlyProbed(hash, keys, bitmap, k, h, 0)
  {
    hide BitAt, Probed;
  }

  lemma OneMoreProbe(hash: HashFunction, keys: seq<Bytes>, bitmap: Bytes, k: nat, h: U32, j: nat)
    requires OnlyProbed(hash, keys, bitmap, k, h, j)
    ensures OnlyProbed(hash, keys, SetAt(bitmap, HashAt(h, j) % (8 * |bitmap|)), k, h, j + 1)
  {
    hide BitAt, Probed, SetAt, HashAt;
    var bits := 8 * |bitmap|;
    var at := Probe(h, j, bits);
    var after := SetAt(bitmap, at);
    forall pos | 0 <= pos < bits
      ensures BitAt(after, pos) <==> Probed(hash, keys, k, bits, pos) || Hits(h, j + 1, bits, pos) {
      SetAtSets(bitmap, at, pos);
      assert Hits(h, j + 1, bits, pos) <==> Hits(h, j, bits, pos) || pos == at;
    }
  }

  lemma KeyProbed(hash: HashFunction, keys: seq<Bytes>, i: nat, bitmap: Bytes, k: nat)
    requires i < |keys| && OnlyProbed(hash, keys[..i], bitmap, k, hash(keys[i]), k)
    ensures OnlyProbed(hash, keys[..i + 1], bitmap, k, 0, 0)
  {
    hide BitAt, Probed, Probe;
    forall pos | 0 <= pos < 8 * |bitmap|
      ensures BitAt(bitmap, pos) <==>
                Probed(hash, keys[..i + 1], k, 8 * |bitmap|, pos) || Hits(0, 0, 8 * |bitmap|, pos)
    {
      ProbedMore(hash, keys, i, k, 8 * |bitmap|, pos);
    }
  }

  lemma AllProbed(hash: HashFunction, keys: seq<Bytes>, bitmap: Bytes, k: nat)
    requires OnlyProbed(hash, keys, bitmap, k, 0, 0)
    ensures forall pos :: 0 <= pos < 8 * |bitmap| ==>
              (BitAt(bitmap, pos) <==> Probed(hash, keys, k, 8 * |bitmap|, pos))
  {
    hide BitAt, Probed, Probe;
  }

  lemma NoProbes(h: U32, bitmap: Bytes)
    requires bitmap != []
    ensures AllSet(h, bitmap, 0)
  {
  }

  /** Setting the next probe's bit. */
  lemma ProbeSet(h: U32, bitmap: Bytes, j: nat)
    requires bitmap != [] && AllSet(h, bitmap, j)
    ensures Probe(h, j, 8 * |bitmap|) == HashAt(h, j) % (8 * |bitmap|)
    ensures AllSet(h, SetAt(bitmap, Probe(h, j, 8 * |bitmap|)), j + 1)
  {
    hide BitAt, SetAt, Probe;
    var pos := Probe(h, j, 8 * |bitmap|);
    SetAtKeeps(h, bitmap, j, pos);
    SetAtSets(bitmap, pos, pos);
    assert HashAt(h, j) % (8 * |bitmap|) == pos by { ProbeIs(h, j, 8 * |bitmap|); }
  }

  lemma ProbeIs(h: U32, j: nat, bits: nat)
    requires bits > 0
    ensures Probe(h, j, bits) == HashAt(h, j) % bits
  {
  }
}
