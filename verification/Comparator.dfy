/** The bytewise order on user keys and its representation by ranks (util/comparator.cc,
    include/leveldb/slice.h). */
module Comparator {
  import opened Coding

  /** Slice::compare: the first difference decides, and a proper prefix comes first. */
  function Compare(a: Bytes, b: Bytes): int {
    if a == [] then (if b == [] then 0 else -1)
    else if b == [] then 1
    else if a[0] < b[0] then -1
    else if a[0] > b[0] then 1
    else Compare(a[1..], b[1..])
  }

  lemma {:induction false} CompareIsOrder(a: Bytes, b: Bytes)
    ensures Compare(a, b) == 0 <==> a == b
    ensures Compare(a, b) == -Compare(b, a)
  {
    if a != [] && b != [] && a[0] == b[0] {
      CompareIsOrder(a[1..], b[1..]);
      assert a == [a[0]] + a[1..] && b == [b[0]] + b[1..];
    }
  }

  lemma {:induction false} CompareTransitive(a: Bytes, b: Bytes, c: Bytes)
    requires Compare(a, b) < 0 && Compare(b, c) < 0
    ensures Compare(a, c) < 0
  {
    if a != [] && b != [] && c != [] && a[0] == b[0] == c[0] {
      CompareTransitive(a[1..], b[1..], c[1..]);
    }
  }

  // ---- Internal keys -----------------------------------------------------------------------------

  /** ExtractUserKey: all but the last eight bytes. */
  function UserPart(k: Bytes): Bytes { if |k| >= 8 then k[..|k| - 8] else k }

  /** Sequence number and type, packed into the last eight bytes. */
  function PackedPart(k: Bytes): nat { if |k| >= 8 then DecodeFixed64(k[|k| - 8..]) else 0 }

  /** A table is ordered by the user comparator or by the internal key comparator over it. */
  datatype Order = Bytewise | InternalKeys {
    /** Compare of the comparator. */
    function Cmp(a: Bytes, b: Bytes): int {
      if Bytewise? || Compare(UserPart(a), UserPart(b)) != 0 then Compare(Sought(a), Sought(b))
      else if PackedPart(a) > PackedPart(b) then -1
      else if PackedPart(a) < PackedPart(b) then 1
      else 0
    }

    /** The part of a key that a reader looks for. */
    function Sought(k: Bytes): Bytes { if Bytewise? then k else UserPart(k) }

    predicate IsKey(k: Bytes) { InternalKeys? ==> |k| >= 8 }
  }

  lemma CmpOpposite(o: Order, a: Bytes, b: Bytes)
    ensures o.Cmp(a, b) == -o.Cmp(b, a)
    ensures o.Cmp(a, b) == 0 ==> o.Sought(a) == o.Sought(b)
  {
    hide Compare, UserPart, PackedPart;
    CompareIsOrder(o.Sought(a), o.Sought(b));
  }

  lemma CmpTransitive(o: Order, a: Bytes, b: Bytes, c: Bytes)
    requires o.Cmp(a, b) <= 0 && o.Cmp(b, c) <= 0
    ensures o.Cmp(a, c) <= 0 && (o.Cmp(a, b) < 0 || o.Cmp(b, c) < 0 ==> o.Cmp(a, c) < 0)
  {
    hide Compare, UserPart, PackedPart;
    var x, y, z := o.Sought(a), o.Sought(b), o.Sought(c);
    CompareIsOrder(x, y);
    CompareIsOrder(y, z);
    CompareIsOrder(x, z);
    if Compare(x, y) < 0 && Compare(y, z) < 0 {
      CompareTransitive(x, y, z);
    }
  }

  // ---- Shortening keys -------------------------------------------------------------------------

  /** A key that may stand between the two blocks that end with `start` and begin with `limit`: `start` itself,
      or something beyond it whose sought part is strictly between. */
  ghost predicate Separates(o: Order, start: Bytes, r: Bytes, limit: Bytes) {
    r == start || (o.IsKey(r) && Compare(o.Sought(start), o.Sought(r)) < 0 && Compare(o.Sought(r), o.Sought(limit)) < 0)
  }

  lemma {:induction false} DifferenceDecides(a: Bytes, b: Bytes, n: nat)
    requires n < |a| && n < |b| && a[..n] == b[..n] && a[n] < b[n]
    ensures Compare(a, b) < 0
  {
    if n > 0 {
      assert a[0] == a[..n][0] == b[0];
      assert a[1..][..n - 1] == a[..n][1..] == b[1..][..n - 1];
      DifferenceDecides(a[1..], b[1..], n - 1);
    }
  }

  /** The keys agree on their first n bytes, and the next byte of the first one leaves a byte in between. */
  predicate GapAt(start: Bytes, limit: Bytes, n: nat) {
    n < |start| && n < |limit| && start[..n] == limit[..n] && start[n] as int + 1 < limit[n]
  }

  /** BytewiseComparator's FindShortestSeparator, with the new contents of *start as the result. The key is cut off
      behind the byte in which the two differ, and that byte is raised by one, if there is room below the other. */
  method BytewiseSeparator(start: Bytes, limit: Bytes) returns (r: Bytes)
    ensures r == start || (|r| <= |start| && Compare(start, r) < 0 && Compare(r, limit) < 0)
    ensures forall n: nat :: GapAt(start, limit, n) ==> r == start[..n] + [start[n] + 1]
    ensures (forall n: nat :: !GapAt(start, limit, n)) ==> r == start
  {
    hide Compare;
    var minLength := if |start| < |limit| then |start| else |limit|;
    var diffIndex := 0;
    while diffIndex < minLength && start[diffIndex] == limit[diffIndex]
      invariant diffIndex <= minLength && start[..diffIndex] == limit[..diffIndex]
    {
      diffIndex := diffIndex + 1;
    }
    r := start;
    forall n: nat | GapAt(start, limit, n) ensures n == diffIndex {
      OneDifference(start, limit, n, diffIndex);
    }
    if diffIndex < minLength {
      var diffByte := start[diffIndex];
      if diffByte < 0xff && diffByte + 1 < limit[diffIndex] {
        r := r[diffIndex := diffByte + 1];
        r := r[..diffIndex + 1];
        assert start[..diffIndex] == r[..diffIndex] && r == start[..diffIndex] + [diffByte + 1];
        assert GapAt(start, limit, diffIndex);
        DifferenceDecides(start, r, diffIndex);
        DifferenceDecides(r, limit, diffIndex);
      }
    }
  }

  lemma OneDifference(a: Bytes, b: Bytes, n: nat, m: nat)
    requires n < |a| && n < |b| && a[..n] == b[..n] && a[n] != b[n]
    requires m <= |a| && m <= |b| && a[..m] == b[..m] && (m < |a| && m < |b| ==> a[m] != b[m])
    ensures n == m
  {
    PrefixAgrees(a, b, n, m);
    PrefixAgrees(a, b, m, n);
  }

  lemma PrefixAgrees(a: Bytes, b: Bytes, i: nat, n: nat)
    requires n <= |a| && n <= |b| && a[..n] == b[..n]
    ensures i < n ==> a[i] == b[i]
  {
    assert i < n ==> a[i] == a[..n][i];
  }

  /** BytewiseComparator's FindShortSuccessor: the key is cut off behind the first byte that can be raised. */
  method BytewiseSuccessor(key: Bytes) returns (r: Bytes)
    ensures r == key || (|r| <= |key| && Compare(key, r) < 0)
    ensures forall n: nat :: RaisableAt(key, n) ==> r == key[..n] + [key[n] + 1]
    ensures (forall n: nat :: !RaisableAt(key, n)) ==> r == key
  {
    hide Compare;
    for i := 0 to |key|
      invariant forall j :: 0 <= j < i ==> key[j] == 0xff
    {
      var byte := key[i];
      if byte != 0xff {
        r := key[i := byte + 1];
        r := r[..i + 1];
        assert key[..i] == r[..i] && r == key[..i] + [byte + 1];
        assert RaisableAt(key, i);
        DifferenceDecides(key, r, i);
        return;
      }
    }
    r := key;
  }

  const MAX_PACKED := 0xff_ffff_ffff_ffff * 256 + 1 // PackSequenceAndType(kMaxSequenceNumber, kValueTypeForSeek)

  /** The internal key with the shortened user key: the earliest one with it. */
  lemma WithEarliest(user: Bytes)
    ensures |user + Fixed64(MAX_PACKED)| >= 8 && UserPart(user + Fixed64(MAX_PACKED)) == user
  {
    var k := user + Fixed64(MAX_PACKED);
    assert k[..|k| - 8] == user;
  }

  /** The first key cut off at a gap below the second, where there is one; an internal key only if that makes its user
      key shorter. */
  ghost predicate IsShortestSeparator(o: Order, start: Bytes, r: Bytes, limit: Bytes) {
    var a, b := o.Sought(start), o.Sought(limit);
    && (forall n: nat :: GapAt(a, b, n) && (o.Bytewise? || n + 1 < |a|) ==>
          r == a[..n] + [a[n] + 1] + if o.Bytewise? then [] else Fixed64(MAX_PACKED))
    && ((forall n: nat :: GapAt(a, b, n) ==> o.InternalKeys? && n + 1 >= |a|) ==> r == start)
  }

  /** The first byte of the key that can be raised. */
  predicate RaisableAt(a: Bytes, n: nat) {
    n < |a| && a[n] != 0xff && forall j :: 0 <= j < n ==> a[j] == 0xff
  }

  /** The key cut off behind that byte; an internal key only if that makes its user key shorter. */
  ghost predicate IsShortSuccessor(o: Order, key: Bytes, r: Bytes) {
    var a := o.Sought(key);
    && (forall n: nat :: RaisableAt(a, n) && (o.Bytewise? || n + 1 < |a|) ==>
          r == a[..n] + [a[n] + 1] + if o.Bytewise? then [] else Fixed64(MAX_PACKED))
    && ((forall n: nat :: RaisableAt(a, n) ==> o.InternalKeys? && n + 1 >= |a|) ==> r == key)
  }

  /** FindShortestSeparator of either comparator. */
  method FindShortestSeparator(o: Order, start: Bytes, limit: Bytes) returns (r: Bytes)
    requires o.IsKey(start) && o.IsKey(limit)
    ensures o.IsKey(r) && Separates(o, start, r, limit)
    ensures IsShortestSeparator(o, start, r, limit)
  {
    hide Compare, Fixed64;
    if o.Bytewise? {
      r := BytewiseSeparator(start, limit);
      return;
    }
    var userStart, userLimit := start[..|start| - 8], limit[..|limit| - 8];
    var tmp := BytewiseSeparator(userStart, userLimit);
    r := start;
    if |tmp| < |userStart| && Compare(userStart, tmp) < 0 {
      CompareIsOrder(userStart, userStart);
      WithEarliest(tmp);
      r := tmp + Fixed64(MAX_PACKED);
    }
  }

  /** FindShortSuccessor of either comparator. */
  method FindShortSuccessor(o: Order, key: Bytes) returns (r: Bytes)
    requires o.IsKey(key)
    ensures o.IsKey(r) && (r == key || Compare(o.Sought(key), o.Sought(r)) < 0)
    ensures IsShortSuccessor(o, key, r)
  {
    hide Compare, Fixed64;
    if o.Bytewise? {
      r := BytewiseSuccessor(key);
      return;
    }
    var userKey := key[..|key| - 8];
    var tmp := BytewiseSuccessor(userKey);
    r := key;
    if |tmp| < |userKey| && Compare(userKey, tmp) < 0 {
      WithEarliest(tmp);
      r := tmp + Fixed64(MAX_PACKED);
    }
  }

  // ---- Ranks -----------------------------------------------------------------------------------

  function Smaller(keys: set<Bytes>, k: Bytes): set<Bytes> {
    set x | x in keys && Compare(x, k) < 0
  }

  /** The rank of a key among finitely many: how many of them come before it. */
  function Rank(keys: set<Bytes>, k: Bytes): int { |Smaller(keys, k)| }

  lemma SmallerRank(keys: set<Bytes>, a: Bytes, b: Bytes)
    requires a in keys && Compare(a, b) < 0
    ensures Rank(keys, a) < Rank(keys, b)
  {
    CompareIsOrder(a, a);
    forall x | x in Smaller(keys, a) ensures x in Smaller(keys, b) {
      CompareTransitive(x, a, b);
    }
    FewerElements(Smaller(keys, a), Smaller(keys, b), a);
  }

  lemma FewerElements(s: set<Bytes>, t: set<Bytes>, x: Bytes)
    requires s <= t && x in t && x !in s
    ensures |s| < |t|
  {
    var rest := t - s;
    assert t == s + rest && s !! rest && x in rest;
    assert |t| == |s| + |rest|;
  }

  /** The user keys of a finite run may be replaced by integers: comparing ranks is comparing keys. */
  lemma RanksRepresentKeys(keys: set<Bytes>, a: Bytes, b: Bytes)
    requires a in keys && b in keys
    ensures Compare(a, b) < 0 <==> Rank(keys, a) < Rank(keys, b)
    ensures a == b <==> Rank(keys, a) == Rank(keys, b)
  {
    CompareIsOrder(a, b);
    if Compare(a, b) < 0 {
      SmallerRank(keys, a, b);
    } else if Compare(b, a) < 0 {
      SmallerRank(keys, b, a);
    }
  }
}
