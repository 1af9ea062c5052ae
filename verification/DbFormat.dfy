/** Internal keys and entries (db/dbformat.h, db/dbformat.cc).

    A user key is represented by its rank in the order of the user comparator: above the table format
    the engine looks at user keys only through `user_comparator()->Compare`, and module Comparator
    proves that any finite set of byte strings embeds into such ranks. */
module DbFormat {
  type UserKey = int
  type Value = string

  datatype Option<+T> = None | Some(value: T)

  /** The numeric order of these tags is part of the on-disk format. */
  datatype ValueType = TypeDeletion | TypeValue {
    function Tag(): nat { if TypeDeletion? then 0 else 1 }
  }

  const KIND_FOR_SEEK := TypeValue
  const MAX_SEQUENCE: nat := 0xff_ffff_ffff_ffff // 2^56 - 1
  const NUM_LEVELS := 7
  const MAX_MEM_COMPACT_LEVEL := 2

  datatype InternalKey = InternalKey(user: UserKey, seqno: nat, kind: ValueType) {
    /** Sequence number and type share one 64-bit word; the type takes the low eight bits. */
    function Packed(): nat { seqno * 256 + kind.Tag() }
  }

  /** InternalKeyComparator::Compare(a, b) < 0: increasing user key, then decreasing packed word. */
  predicate Less(a: InternalKey, b: InternalKey) {
    a.user < b.user || (a.user == b.user && a.Packed() > b.Packed())
  }

  datatype Entry = Entry(key: InternalKey, value: Value)

  /** The internal key LookupKey builds to read user key `k` at sequence `s`. */
  function SeekKey(k: UserKey, s: nat): InternalKey {
    InternalKey(k, s, KIND_FOR_SEEK)
  }

  predicate Sorted(es: seq<Entry>) {
    forall i, j :: 0 <= i < j < |es| ==> Less(es[i].key, es[j].key)
  }

  /** Every entry of `newer` has a larger sequence number than any entry of `older` for its user key. */
  predicate Newer(newer: seq<Entry>, older: seq<Entry>) {
    forall x, y :: x in newer && y in older && x.key.user == y.key.user ==> x.key.seqno > y.key.seqno
  }
}

/** The specification every structure is compared with: what a reader sees in a set of entries. */
module Visibility {
  import opened DbFormat

  ghost predicate Visible(es: set<Entry>, k: UserKey, s: nat, e: Entry) {
    e in es && e.key.user == k && e.key.seqno <= s
  }

  /** `e` is the newest entry for `k` that a reader at sequence `s` may see. */
  ghost predicate Newest(es: set<Entry>, k: UserKey, s: nat, e: Entry) {
    Visible(es, k, s, e) && forall x :: Visible(es, k, s, x) ==> x.key.seqno <= e.key.seqno
  }

  /** No two entries share a user key and a sequence number. */
  ghost predicate Distinct(es: set<Entry>) {
    forall x, y :: x in es && y in es && x.key.user == y.key.user && x.key.seqno == y.key.seqno ==> x == y
  }

  function Answer(e: Entry): Option<Value> {
    if e.key.kind == TypeValue then Some(e.value) else None
  }

  /** What reading `k` at sequence `s` must return: the newest visible entry's value, or nothing
      when that entry is a deletion or when there is no such entry. */
  ghost function Lookup(es: set<Entry>, k: UserKey, s: nat): Option<Value> {
    if exists e :: Newest(es, k, s, e) then
      var e :| Newest(es, k, s, e); Answer(e)
    else
      None
  }

  lemma LookupIs(es: set<Entry>, k: UserKey, s: nat, e: Entry)
    requires Distinct(es) && Newest(es, k, s, e)
    ensures Lookup(es, k, s) == Answer(e)
  {
    forall x | Newest(es, k, s, x) ensures x == e {
      assert Visible(es, k, s, x) && Visible(es, k, s, e);
    }
  }

  lemma {:induction false} NewestExists(es: set<Entry>, k: UserKey, s: nat, w: Entry) returns (e: Entry)
    requires Visible(es, k, s, w)
    ensures Newest(es, k, s, e) && e.key.seqno >= w.key.seqno
    decreases es
  {
    var rest := es - {w};
    if x :| Visible(rest, k, s, x) && x.key.seqno > w.key.seqno {
      e := NewestExists(rest, k, s, x);
      forall y | Visible(es, k, s, y) ensures y.key.seqno <= e.key.seqno {
        assert y == w || Visible(rest, k, s, y);
      }
    } else {
      e := w;
      forall y | Visible(es, k, s, y) ensures y.key.seqno <= e.key.seqno {
        assert y == w || Visible(rest, k, s, y);
      }
    }
  }

  /** Adding entries that all are newer leaves readers of the old entries alone, and the combined
      answer depends on the older part only through its own answer. */
  lemma LookupLayers(top: set<Entry>, a: set<Entry>, b: set<Entry>, k: UserKey, s: nat)
    requires Distinct(top + a) && Distinct(top + b)
    requires forall x, y :: x in top && y in a + b && x.key.user == y.key.user ==> x.key.seqno > y.key.seqno
    requires Lookup(a, k, s) == Lookup(b, k, s)
    ensures Lookup(top + a, k, s) == Lookup(top + b, k, s)
  {
    if w :| Visible(top, k, s, w) {
      var e := NewestExists(top, k, s, w);
      assert Newest(top + a, k, s, e) && Newest(top + b, k, s, e);
      LookupIs(top + a, k, s, e);
      LookupIs(top + b, k, s, e);
    } else {
      LookupBelow(top, a, k, s);
      LookupBelow(top, b, k, s);
    }
  }

  lemma LookupAbove(top: set<Entry>, rest: set<Entry>, k: UserKey, s: nat, w: Entry)
    requires Distinct(top + rest) && Visible(top, k, s, w)
    requires forall x, y :: x in top && y in rest && x.key.user == y.key.user ==> x.key.seqno > y.key.seqno
    ensures Lookup(top + rest, k, s) == Lookup(top, k, s)
  {
    var e := NewestExists(top, k, s, w);
    assert Distinct(top);
    LookupIs(top, k, s, e);
    assert Newest(top + rest, k, s, e);
    LookupIs(top + rest, k, s, e);
  }

  lemma LookupBelow(top: set<Entry>, a: set<Entry>, k: UserKey, s: nat)
    requires Distinct(top + a)
    requires forall e :: !Visible(top, k, s, e)
    ensures Lookup(top + a, k, s) == Lookup(a, k, s)
  {
    if w :| Visible(a, k, s, w) {
      var e := NewestExists(a, k, s, w);
      forall x | Visible(top + a, k, s, x) ensures x.key.seqno <= e.key.seqno {
        assert Visible(top, k, s, x) || Visible(a, k, s, x);
      }
      LookupIs(top + a, k, s, e);
      assert Distinct(a);
      LookupIs(a, k, s, e);
    } else {
      forall x ensures !Visible(top + a, k, s, x) {
        assert !Visible(top, k, s, x) && !Visible(a, k, s, x);
      }
    }
  }

  /** Reading past the largest sequence number does not depend on how far past. */
  lemma LookupSaturates(es: set<Entry>, k: UserKey, s: nat, t: nat)
    requires Distinct(es)
    requires forall e :: e in es ==> e.key.seqno <= s && e.key.seqno <= t
    ensures Lookup(es, k, s) == Lookup(es, k, t)
  {
    if w :| Visible(es, k, s, w) {
      var e := NewestExists(es, k, s, w);
      LookupIs(es, k, s, e);
      forall x | Visible(es, k, t, x) ensures x.key.seqno <= e.key.seqno {
        assert Visible(es, k, s, x);
      }
      LookupIs(es, k, t, e);
    } else {
      forall x ensures !Visible(es, k, t, x) {
        assert !Visible(es, k, s, x);
      }
    }
  }
}
