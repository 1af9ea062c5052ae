/** The field iterator and the bookkeeping of required fields (pb_common.c, pb_decode.c). */
module PbFields {
  import opened PbFormat

  const MAX_REQUIRED_FIELDS := 64

  /** How many of the first n fields are required. */
  function RequiredBefore(fields: seq<Field>, n: nat): (r: nat)
    requires n <= |fields|
    ensures r <= n
  {
    if n == 0 then 0 else RequiredBefore(fields, n - 1) + if fields[n - 1].htype.Required? then 1 else 0
  }

  /** Required fields that the decoder insists on: it keeps one bit for each of the first 64. */
  predicate Checked(fields: seq<Field>, i: nat) {
    i < |fields| && fields[i].htype.Required? && RequiredBefore(fields, i) < MAX_REQUIRED_FIELDS
  }

  lemma {:induction false} RequiredBeforeMonotone(fields: seq<Field>, i: nat, j: nat)
    requires i <= j <= |fields|
    ensures RequiredBefore(fields, i) <= RequiredBefore(fields, j)
    ensures i < j && fields[i].htype.Required? ==> RequiredBefore(fields, i) < RequiredBefore(fields, j)
    decreases j
  {
    if i < j {
      RequiredBeforeMonotone(fields, i, j - 1);
    }
  }

  /** Every number below the count belongs to exactly one required field. */
  lemma {:induction false} RequiredAt(fields: seq<Field>, k: nat, n: nat) returns (i: nat)
    requires n <= |fields| && k < RequiredBefore(fields, n)
    ensures i < n && fields[i].htype.Required? && RequiredBefore(fields, i) == k
  {
    if RequiredBefore(fields, n - 1) == k {
      i := n - 1;
    } else {
      i := RequiredAt(fields, k, n - 1);
    }
  }

  /** pb_field_iter_t over a descriptor; an empty descriptor leaves it on the terminator. */
  class FieldIter {
    const fields: seq<Field>
    var pos: nat
    var requiredIndex: nat

    ghost predicate Valid()
      reads this
    {
      && (pos < |fields| || (pos == 0 && fields == []))
      && requiredIndex == RequiredBefore(fields, pos)
    }

    /** pb_field_iter_begin. */
    constructor (fields: seq<Field>)
      ensures Valid() && this.fields == fields && pos == 0
    {
      this.fields := fields;
      pos, requiredIndex := 0, 0;
    }

    /** pb_field_iter_next: behind the last field it wraps around. */
    method Next() returns (more: bool)
      requires Valid()
      modifies this
      ensures Valid()
      ensures more <==> old(pos) + 1 < |fields|
      ensures pos == if more then old(pos) + 1 else 0
    {
      if fields == [] {
        return false;
      }
      var previous := pos;
      pos := pos + 1;
      if pos == |fields| {
        pos, requiredIndex := 0, 0;
        return false;
      }
      if fields[previous].htype.Required? {
        requiredIndex := requiredIndex + 1;
      }
      more := true;
    }

    /** pb_field_iter_find: at most one lap from wherever the iterator stands. */
    method Find(tag: nat) returns (found: bool)
      requires Valid()
      modifies this
      ensures Valid()
      ensures found <==> exists i :: 0 <= i < |fields| && fields[i].tag == tag
      ensures found ==> pos < |fields| && fields[pos].tag == tag
      ensures !found ==> pos == old(pos)
    {
      var start := pos;
      var lap := false;
      ghost var wrapped := false;
      while !lap
        invariant Valid() && (start < |fields| || (start == 0 && fields == []))
        invariant !wrapped ==> start <= pos && forall i :: start <= i < pos ==> fields[i].tag != tag
        invariant wrapped ==> pos <= start && forall i :: start <= i < |fields| || 0 <= i < pos ==> fields[i].tag != tag
        invariant lap ==> wrapped && pos == start
        invariant !lap && wrapped ==> pos < start
        decreases !lap, if wrapped then start - pos else |fields| + start - pos
      {
        if pos < |fields| {
          if fields[pos].tag == tag {
            return true;
          }
        }
        var more := Next();
        wrapped := wrapped || !more;
        lap := pos == start;
      }
      found := false;
    }
  }

  /** fields_seen: two words, each as the set of its one bits. */
  class SeenBits {
    var words: seq<set<nat>>

    ghost predicate Valid()
      reads this
    {
      |words| == 2 && forall w, b :: 0 <= w < 2 && b in words[w] ==> b < 32
    }

    ghost predicate Has(k: nat)
      requires Valid()
      reads this
    {
      k < MAX_REQUIRED_FIELDS && k % 32 in words[k / 32]
    }

    /** The bits below n, as far as there are bits. */
    ghost predicate HasAll(n: nat)
      requires Valid()
      reads this
    {
      forall k: nat :: k < n && k < MAX_REQUIRED_FIELDS ==> Has(k)
    }

    constructor ()
      ensures Valid() && forall k: nat :: !Has(k)
    {
      words := [{}, {}];
    }

    /** Setting the bit of a required field; fields from the 65th on have none. */
    method Mark(index: nat)
      requires Valid()
      modifies this
      ensures Valid() && forall k: nat :: Has(k) <==> (old(Has(k)) || (k == index && k < MAX_REQUIRED_FIELDS))
    {
      if index < MAX_REQUIRED_FIELDS {
        words := words[index / 32 := words[index / 32] + {index % 32}];
        forall k: nat | k < MAX_REQUIRED_FIELDS && k / 32 == index / 32 && k % 32 == index % 32 ensures k == index {
          assert k == 32 * (k / 32) + k % 32;
        }
      }
    }

    /** The check at the end of pb_decode_noinit: whole words first, then the bits of the last one. */
    method AllSeen(count: nat) returns (ok: bool)
      requires Valid() && forall k: nat :: Has(k) ==> k < count
      ensures ok <==> HasAll(count)
    {
      var n := if count > MAX_REQUIRED_FIELDS then MAX_REQUIRED_FIELDS else count;
      for i := 0 to n / 32
        invariant forall k :: 0 <= k < 32 * i ==> Has(k)
      {
        WordFull(i, 32);
        if words[i] != Ones(32) {
          return false;
        }
      }
      ok := true;
      if n % 32 != 0 {
        forall b | b in words[n / 32] ensures b < n % 32 {
          BitOf(n / 32, b);
        }
        WordFull(n / 32, n % 32);
        ok := words[n / 32] == Ones(n % 32);
      }
    }

    /** The bits of a word that has none from the n-th on. */
    lemma WordFull(w: nat, n: nat)
      requires Valid() && w < 2 && n <= 32 && forall b :: b in words[w] ==> b < n
      ensures words[w] == Ones(n) <==> forall k: nat :: 32 * w <= k < 32 * w + n ==> Has(k)
    {
      if words[w] == Ones(n) {
        forall k: nat | 32 * w <= k < 32 * w + n ensures Has(k) {
          BitOf(w, k - 32 * w);
        }
      } else {
        var b: nat :| b < n && b !in words[w];
        BitOf(w, b);
        assert !Has(32 * w + b);
      }
    }

    lemma BitOf(w: nat, b: nat)
      requires Valid() && w < 2 && b < 32
      ensures Has(32 * w + b) <==> b in words[w]
    {
    }
  }

  /** allbits >> (32 - n): the n low bits. */
  function Ones(n: nat): (r: set<nat>)
    ensures forall b :: b in r <==> 0 <= b < n
  {
    if n == 0 then {} else Ones(n - 1) + {n - 1}
  }

  /** Counting the required fields at the end of pb_decode_noinit: walk to the last field, then add it. */
  method CountRequired(iter: FieldIter) returns (count: nat)
    requires iter.Valid()
    modifies iter
    ensures count == RequiredBefore(iter.fields, |iter.fields|)
  {
    var more := true;
    var last := Singular;
    count := 0;
    while more
      invariant iter.Valid()
      invariant !more ==> count == RequiredBefore(iter.fields, if iter.fields == [] then 0 else |iter.fields| - 1)
      invariant !more && iter.fields != [] ==> last == iter.fields[|iter.fields| - 1].htype
      decreases more, |iter.fields| - iter.pos
    {
      count := iter.requiredIndex;
      // An empty descriptor's terminator reads as a required field.
      last := if iter.fields == [] then Required else iter.fields[iter.pos].htype;
      more := iter.Next();
    }
    if last.Required? && iter.fields != [] {
      count := count + 1;
    }
  }
}
