/** The user-level iterator: a cursor over the map a reader sees, run over the merged list of internal
    entries (db/db_iter.cc). */
module DbIter {
  import opened DbFormat
  import opened Visibility
  import opened Version
  import opened Merger

  // ---- The map a reader sees, in terms of positions --------------------------------------------

  /** The user map at sequence s. */
  ghost function UserMap(es: seq<Entry>, s: nat, k: UserKey): Option<Value> {
    Lookup(Elements(es), k, s)
  }

  /** Entry i is visible at s. */
  predicate Shown(es: seq<Entry>, s: nat, i: int) {
    0 <= i < |es| && es[i].key.seqno <= s
  }

  /** Of the visible entries of one user key the one listed first decides. */
  lemma FirstShownDecides(es: seq<Entry>, s: nat, i: nat)
    requires Sorted(es) && Distinct(Elements(es)) && Shown(es, s, i)
    requires forall j :: 0 <= j < i && Shown(es, s, j) ==> es[j].key.user != es[i].key.user
    ensures UserMap(es, s, es[i].key.user) == Answer(es[i])
  {
    var k := es[i].key.user;
    forall x | Visible(Elements(es), k, s, x) ensures x.key.seqno <= es[i].key.seqno {
      var j :| 0 <= j < |es| && es[j] == x;
      assert j > i ==> Less(es[i].key, es[j].key);
    }
    assert Newest(Elements(es), k, s, es[i]);
    LookupIs(Elements(es), k, s, es[i]);
  }

  lemma NothingShown(es: seq<Entry>, s: nat, k: UserKey)
    requires forall j :: Shown(es, s, j) ==> es[j].key.user != k
    ensures UserMap(es, s, k) == None
  {
    forall x | x in Elements(es) && x.key.seqno <= s ensures x.key.user != k {
      var j :| 0 <= j < |es| && es[j] == x;
      assert Shown(es, s, j);
    }
  }

  lemma Ordered(es: seq<Entry>, i: nat, j: nat)
    requires Sorted(es) && i <= j < |es|
    ensures es[i].key.user <= es[j].key.user
  {
    assert i < j ==> Less(es[i].key, es[j].key);
  }

  /** Every visible entry before position p has a user key below `from`. */
  ghost predicate BelowBefore(es: seq<Entry>, s: nat, p: int, from: UserKey) {
    forall j :: Shown(es, s, j) && j < p ==> es[j].key.user < from
  }

  /** Every visible entry at or after position p has a user key of at least `k`. */
  ghost predicate AtLeastFrom(es: seq<Entry>, s: nat, p: int, k: UserKey) {
    forall j :: Shown(es, s, j) && j >= p ==> es[j].key.user >= k
  }

  /** No key in [from, to) is in the user map. */
  ghost predicate NoneIn(es: seq<Entry>, s: nat, from: UserKey, to: UserKey) {
    forall k :: from <= k < to ==> UserMap(es, s, k) == None
  }

  ghost predicate NoneFrom(es: seq<Entry>, s: nat, from: UserKey) {
    forall k :: k >= from ==> UserMap(es, s, k) == None
  }

  type UpperBound = Option<UserKey> // None: no bound

  predicate Under(k: UserKey, hi: UpperBound) { hi.None? || k < hi.value }

  /** No key above `k` and under `hi` is in the user map. */
  ghost predicate NoneBetween(es: seq<Entry>, s: nat, k: UserKey, hi: UpperBound) {
    forall x :: k < x && Under(x, hi) ==> UserMap(es, s, x) == None
  }

  ghost predicate NoneUnder(es: seq<Entry>, s: nat, hi: UpperBound) {
    forall x :: Under(x, hi) ==> UserMap(es, s, x) == None
  }

  // ---- Forward scanning ------------------------------------------------------------------------

  /** The first visible entry at or after p whose key reaches `from` skips no key. */
  lemma NextShown(es: seq<Entry>, s: nat, p: nat, from: UserKey)
    requires Sorted(es) && Distinct(Elements(es)) && Shown(es, s, p) && BelowBefore(es, s, p, from)
    requires es[p].key.user >= from
    ensures UserMap(es, s, es[p].key.user) == Answer(es[p])
    ensures NoneIn(es, s, from, es[p].key.user)
    ensures BelowBefore(es, s, p + 1, es[p].key.user + 1)
    ensures AtLeastFrom(es, s, p + 1, es[p].key.user)
  {
    hide UserMap, Elements;
    FirstShownDecides(es, s, p);
    forall j | p <= j < |es| ensures es[j].key.user >= es[p].key.user {
      Ordered(es, p, j);
    }
    forall k | from <= k < es[p].key.user ensures UserMap(es, s, k) == None {
      NothingShown(es, s, k);
    }
  }

  lemma NoMoreShown(es: seq<Entry>, s: nat, from: UserKey)
    requires BelowBefore(es, s, |es|, from)
    ensures NoneFrom(es, s, from)
  {
    hide UserMap;
    forall k | k >= from ensures UserMap(es, s, k) == None {
      NothingShown(es, s, k);
    }
  }

  // ---- Backward scanning -----------------------------------------------------------------------

  /** What a backward scan knows at position p: `c` is the key it is collecting (None before the first),
      and `decider` the first visible entry of that key seen so far. */
  ghost predicate Collected(es: seq<Entry>, s: nat, p: int, hi: UpperBound, c: Option<UserKey>, decider: int) {
    && -1 <= p < |es|
    && (c.None? ==> forall j :: Shown(es, s, j) && j > p ==> !Under(es[j].key.user, hi))
    && (c.Some? ==>
          && Under(c.value, hi) && Shown(es, s, decider) && decider > p && es[decider].key.user == c.value
          && AtLeastFrom(es, s, p + 1, c.value)
          && (forall j :: Shown(es, s, j) && p < j < decider ==> es[j].key.user != c.value)
          && NoneBetween(es, s, c.value, hi))
  }

  /** Key `c` is complete once a smaller visible key shows up, or the list ends. */
  lemma Complete(es: seq<Entry>, s: nat, p: int, hi: UpperBound, c: UserKey, decider: int)
    requires Sorted(es) && Distinct(Elements(es)) && Collected(es, s, p, hi, Some(c), decider)
    requires p >= 0 ==> es[p].key.user < c
    ensures UserMap(es, s, c) == Answer(es[decider])
  {
    hide UserMap, Elements, NoneBetween;
    forall j | Shown(es, s, j) && j < decider ensures es[j].key.user != c {
      if j <= p {
        Ordered(es, j, p);
      }
    }
    FirstShownDecides(es, s, decider);
  }

  /** Taking one more visible entry into account while going backwards. */
  lemma CollectOne(es: seq<Entry>, s: nat, p: int, hi: UpperBound, c: Option<UserKey>, decider: int)
    requires Sorted(es) && Distinct(Elements(es)) && Collected(es, s, p, hi, c, decider)
    requires Shown(es, s, p) && Under(es[p].key.user, hi)
    requires c.Some? && es[p].key.user < c.value ==> es[decider].key.kind == TypeDeletion
    ensures Collected(es, s, p - 1, hi, Some(es[p].key.user), p)
  {
    hide UserMap, Elements;
    var u := es[p].key.user;
    forall j | Shown(es, s, j) && j >= p ensures es[j].key.user >= u {
      Ordered(es, p, j);
    }
    forall x | u < x && Under(x, hi) ensures UserMap(es, s, x) == None {
      if c.Some? && x == c.value {
        Complete(es, s, p, hi, x, decider);
      } else if c.None? || x < c.value {
        forall j | Shown(es, s, j) ensures es[j].key.user != x {
          if j <= p {
            Ordered(es, j, p);
          }
        }
        NothingShown(es, s, x);
      }
    }
  }

  lemma SkipHidden(es: seq<Entry>, s: nat, p: int, hi: UpperBound, c: Option<UserKey>, decider: int)
    requires Collected(es, s, p, hi, c, decider) && p >= 0 && !Shown(es, s, p)
    ensures Collected(es, s, p - 1, hi, c, decider)
  {
    hide NoneBetween;
  }

  /** A backward scan that ran off the front with nothing to yield has seen every key under `hi`. */
  lemma ReachedStart(es: seq<Entry>, s: nat, hi: UpperBound, c: Option<UserKey>, decider: int)
    requires Sorted(es) && Distinct(Elements(es)) && Collected(es, s, -1, hi, c, decider)
    requires c.Some? ==> es[decider].key.kind == TypeDeletion
    ensures NoneUnder(es, s, hi)
  {
    hide UserMap, Elements;
    if c.Some? {
      Complete(es, s, -1, hi, c.value, decider);
    }
    forall x | Under(x, hi) && (c.None? || x < c.value) ensures UserMap(es, s, x) == None {
      NothingShown(es, s, x);
    }
  }

  // ---- The abstract cursor ---------------------------------------------------------------------

  /** What a user of the iterator sees: a key of the user map with its value, or the end. */
  datatype Cursor = End | At(key: UserKey, value: Value)

  /** `c` is the least key of the user map that is at least `from`, or End when there is none. */
  ghost predicate FirstFrom(es: seq<Entry>, s: nat, from: UserKey, c: Cursor) {
    match c
    case End => NoneFrom(es, s, from)
    case At(k, v) => from <= k && UserMap(es, s, k) == Some(v) && NoneIn(es, s, from, k)
  }

  /** `c` is the least key of the whole user map, or End when the map is empty. */
  ghost predicate First(es: seq<Entry>, s: nat, c: Cursor) {
    match c
    case End => NoneUnder(es, s, None)
    case At(k, v) => UserMap(es, s, k) == Some(v) && NoneUnder(es, s, Some(k))
  }

  /** `c` is the greatest key of the user map under `hi`, or End when there is none. */
  ghost predicate LastUnder(es: seq<Entry>, s: nat, hi: UpperBound, c: Cursor) {
    match c
    case End => NoneUnder(es, s, hi)
    case At(k, v) => Under(k, hi) && UserMap(es, s, k) == Some(v) && NoneBetween(es, s, k, hi)
  }

  /** These relations leave the iterator no choice. */
  lemma CursorsAreUnique(es: seq<Entry>, s: nat, from: UserKey, hi: UpperBound, c: Cursor, d: Cursor)
    ensures FirstFrom(es, s, from, c) && FirstFrom(es, s, from, d) ==> c == d
    ensures First(es, s, c) && First(es, s, d) ==> c == d
    ensures LastUnder(es, s, hi, c) && LastUnder(es, s, hi, d) ==> c == d
  {
    hide UserMap;
  }

  /** Stepping forward and then back, in either order, returns to the same place. */
  lemma StepsInvert(es: seq<Entry>, s: nat, c: Cursor, d: Cursor)
    requires c.At? && d.At? && UserMap(es, s, c.key) == Some(c.value) && UserMap(es, s, d.key) == Some(d.value)
    ensures FirstFrom(es, s, c.key + 1, d) <==> LastUnder(es, s, Some(d.key), c)
  {
    hide UserMap;
    if LastUnder(es, s, Some(d.key), c) {
      forall x | c.key + 1 <= x < d.key ensures UserMap(es, s, x) == None {
        assert Under(x, Some(d.key));
      }
    }
  }

  /** Where a seek to (target, s) lands no visible entry is lost and none of a smaller key remains. */
  lemma SeekSplits(es: seq<Entry>, s: nat, target: UserKey, p: nat)
    requires Sorted(es) && p == Version.Seek(es, SeekKey(target, s))
    ensures BelowBefore(es, s, p, target) && AtLeastFrom(es, s, p, target)
  {
    forall j | p <= j < |es| ensures !Less(es[j].key, SeekKey(target, s)) {
      assert p < j ==> Less(es[p].key, es[j].key);
    }
  }

  class DBIter {
    const iter: MergingIterator
    const sequence: nat
    var direction: Direction
    var valid: bool
    var savedKey: Option<UserKey> // None: the empty string of clear()
    var savedValue: Value

    constructor (iter: MergingIterator, sequence: nat)
      requires iter.Consistent() && Distinct(Elements(iter.merged))
      ensures Consistent() && Current() == End && this.iter == iter && this.sequence == sequence
    {
      this.iter := iter;
      this.sequence := sequence;
      direction, valid, savedKey, savedValue := Forward, false, None, "";
    }

    /** Moving forward, the internal iterator is at the entry yielded, the first visible one of its key.
        Moving backward, it is at the last visible entry of any smaller key, or before the first entry. */
    ghost predicate Consistent()
      reads this, iter, iter.children
    {
      var es := iter.merged;
      && iter.Consistent() && Distinct(Elements(es))
      && (valid && direction == Forward ==>
            && Shown(es, sequence, iter.pos) && es[iter.pos].key.kind == TypeValue
            && BelowBefore(es, sequence, iter.pos, es[iter.pos].key.user))
      && (valid && direction == Reverse ==>
            && savedKey.Some? && UserMap(es, sequence, savedKey.value) == Some(savedValue)
            && -1 <= iter.pos < |es| && AtLeastFrom(es, sequence, iter.pos + 1, savedKey.value)
            && (iter.pos >= 0 ==> Shown(es, sequence, iter.pos) && es[iter.pos].key.user < savedKey.value))
    }

    function Key(): UserKey
      requires Consistent() && valid
      reads this, iter, iter.children
    {
      if direction == Forward then iter.Key().user else savedKey.value
    }

    function GetValue(): Value
      requires Consistent() && valid
      reads this, iter, iter.children
    {
      if direction == Forward then iter.GetValue() else savedValue
    }

    ghost function Current(): Cursor
      requires Consistent()
      reads this, iter, iter.children
    {
      if valid then At(Key(), GetValue()) else End
    }

    /** Whatever the iterator yields is in the user map. */
    lemma CurrentIsShown()
      requires Consistent() && valid
      ensures UserMap(iter.merged, sequence, Key()) == Some(GetValue())
    {
      if direction == Forward {
        FirstShownDecides(iter.merged, sequence, iter.pos);
      }
    }

    method FindNextUserEntry(skipping: bool, ghost from: UserKey)
      requires direction == Forward && iter.Valid()
      requires iter.Consistent() && Distinct(Elements(iter.merged))
      requires BelowBefore(iter.merged, sequence, iter.pos, from)
      requires skipping ==> savedKey == Some(from - 1)
      requires AtLeastFrom(iter.merged, sequence, iter.pos, if skipping then from - 1 else from)
      modifies this, iter, iter.children
      ensures Consistent() && FirstFrom(iter.merged, sequence, from, Current())
    {
      hide UserMap, Elements, Distinct, Sorted, MergingIterator.Consistent, MergingIterator.Wired,
        MergingIterator.Valid, MergingIterator.Key, MergingIterator.GetValue;
      ghost var es, bound := iter.merged, from;
      var skips, skip := skipping, savedKey;
      while iter.Valid()
        invariant direction == Forward && iter.Consistent() && 0 <= iter.pos <= |es|
        invariant from <= bound && NoneIn(es, sequence, from, bound)
        invariant BelowBefore(es, sequence, iter.pos, bound)
        invariant skips ==> skip == Some(bound - 1)
        invariant AtLeastFrom(es, sequence, iter.pos, if skips then bound - 1 else bound)
        decreases |es| - iter.pos
      {
        var ikey := iter.Key();
        if ikey.seqno <= sequence {
          assert Shown(es, sequence, iter.pos);
          if ikey.user >= bound {
            NextShown(es, sequence, iter.pos, bound);
          }
          match ikey.kind
          case TypeDeletion =>
            skip := Some(ikey.user);
            skips := true;
            if ikey.user >= bound {
              bound := ikey.user + 1;
            }
          case TypeValue =>
            if skips && ikey.user <= skip.value {
              // Hidden by a newer entry for this key.
            } else {
              valid, savedKey := true, None;
              return;
            }
        }
        iter.Next();
      }
      NoMoreShown(es, sequence, bound);
      savedKey := None;
      valid := false;
    }

    method Next()
      requires Consistent() && valid
      modifies this, iter, iter.children
      ensures Consistent() && FirstFrom(iter.merged, sequence, old(Key()) + 1, Current())
    {
      hide UserMap, Elements, Distinct, Sorted, MergingIterator.Consistent, MergingIterator.Wired,
        MergingIterator.Valid, MergingIterator.Key, MergingIterator.GetValue;
      ghost var es, k := iter.merged, Key();
      if direction == Reverse {
        direction := Forward;
        forall j | Shown(es, sequence, j) && j <= iter.pos ensures es[j].key.user < k {
          Ordered(es, j, iter.pos);
        }
        if !iter.Valid() {
          iter.SeekToFirst();
        } else {
          iter.Next();
        }
      } else {
        NextShownFrom(es, sequence, iter.pos);
        savedKey := Some(iter.Key().user);
        iter.Next();
      }
      assert BelowBefore(es, sequence, iter.pos, k + 1);
      if !iter.Valid() {
        NoMoreShown(es, sequence, k + 1);
        valid, savedKey := false, None;
        return;
      }
      FindNextUserEntry(true, k + 1);
    }

    method FindPrevUserEntry(ghost hi: UpperBound)
      requires direction == Reverse && -1 <= iter.pos < |iter.merged|
      requires iter.Consistent() && Distinct(Elements(iter.merged))
      requires Collected(iter.merged, sequence, iter.pos, hi, None, 0)
      requires iter.Valid() ==> Under(iter.merged[iter.pos].key.user, hi)
      modifies this, iter, iter.children
      ensures Consistent() && LastUnder(iter.merged, sequence, hi, Current())
    {
      hide UserMap, Elements, Distinct, Sorted, AtLeastFrom, NoneBetween, NoneUnder, MergingIterator.Consistent,
        MergingIterator.Wired, MergingIterator.Valid, MergingIterator.Key, MergingIterator.GetValue;
      ghost var es := iter.merged;
      ghost var c: Option<UserKey>, decider := None, 0;
      var kind := TypeDeletion;
      while iter.Valid()
        invariant direction == Reverse && iter.Consistent() && -1 <= iter.pos < |es|
        invariant iter.Valid() ==> Under(es[iter.pos].key.user, hi)
        invariant Collected(es, sequence, iter.pos, hi, c, decider)
        invariant c.Some? ==> es[decider].key.kind == kind
        invariant kind == TypeValue ==> c.Some? && savedKey == c && savedValue == es[decider].value
        decreases iter.pos
      {
        var ikey := iter.Key();
        if ikey.seqno <= sequence {
          if kind != TypeDeletion && ikey.user < savedKey.value {
            break;
          }
          CollectOne(es, sequence, iter.pos, hi, c, decider);
          c, decider := Some(ikey.user), iter.pos;
          kind := ikey.kind;
          if kind == TypeDeletion {
            savedKey, savedValue := None, "";
          } else {
            savedKey, savedValue := Some(ikey.user), iter.GetValue();
          }
        } else {
          SkipHidden(es, sequence, iter.pos, hi, c, decider);
        }
        iter.Prev();
        if iter.Valid() {
          Ordered(es, iter.pos, iter.pos + 1);
        }
      }
      if kind == TypeDeletion {
        ReachedStart(es, sequence, hi, c, decider);
        valid := false;
        savedKey, savedValue := None, "";
        direction := Forward;
      } else {
        Complete(es, sequence, iter.pos, hi, c.value, decider);
        valid := true;
      }
    }

    method Prev()
      requires Consistent() && valid
      modifies this, iter, iter.children
      ensures Consistent() && LastUnder(iter.merged, sequence, Some(old(Key())), Current())
    {
      hide UserMap, Elements, Distinct, Sorted, MergingIterator.Consistent, MergingIterator.Wired,
        MergingIterator.Valid, MergingIterator.Key, MergingIterator.GetValue;
      ghost var es, k := iter.merged, Key();
      if direction == Forward {
        savedKey := Some(iter.Key().user);
        while true
          invariant iter.Consistent() && iter.Valid() && savedKey == Some(k)
          invariant es[iter.pos].key.user >= k
          decreases iter.pos
        {
          ghost var p := iter.pos;
          iter.Prev();
          if !iter.Valid() {
            EverythingFrom(es, sequence, 0, k);
            valid := false;
            savedKey, savedValue := None, "";
            NothingUnder(es, sequence, k);
            return;
          }
          if iter.Key().user < savedKey.value {
            EverythingFrom(es, sequence, p, k);
            break;
          }
        }
        direction := Reverse;
      }
      FindPrevUserEntry(Some(k));
    }

    method Seek(target: UserKey)
      requires Consistent()
      modifies this, iter, iter.children
      ensures Consistent() && FirstFrom(iter.merged, sequence, target, Current())
    {
      hide UserMap, Elements, Distinct, Sorted, MergingIterator.Consistent, MergingIterator.Wired,
        MergingIterator.Valid, MergingIterator.Key, MergingIterator.GetValue;
      direction := Forward;
      savedValue, savedKey := "", Some(target);
      iter.Seek(SeekKey(target, sequence));
      SeekSplits(iter.merged, sequence, target, iter.pos);
      if iter.Valid() {
        FindNextUserEntry(false, target);
      } else {
        NoMoreShown(iter.merged, sequence, target);
        valid := false;
      }
    }

    method SeekToFirst()
      requires Consistent()
      modifies this, iter, iter.children
      ensures Consistent() && First(iter.merged, sequence, Current())
    {
      hide UserMap, Elements, Distinct, Sorted, MergingIterator.Consistent, MergingIterator.Wired,
        MergingIterator.Valid, MergingIterator.Key, MergingIterator.GetValue;
      direction := Forward;
      savedValue := "";
      iter.SeekToFirst();
      if iter.Valid() {
        ghost var least := iter.merged[0].key.user;
        EverythingFrom(iter.merged, sequence, 0, least);
        NothingUnder(iter.merged, sequence, least);
        FindNextUserEntry(false, least);
      } else {
        NoMoreShown(iter.merged, sequence, 0);
        NothingUnder(iter.merged, sequence, 0);
        valid := false;
      }
    }

    method SeekToLast()
      requires Consistent()
      modifies this, iter, iter.children
      ensures Consistent() && LastUnder(iter.merged, sequence, None, Current())
    {
      hide UserMap, Elements, Distinct, Sorted, MergingIterator.Consistent, MergingIterator.Wired,
        MergingIterator.Valid, MergingIterator.Key, MergingIterator.GetValue;
      direction := Reverse;
      savedValue := "";
      iter.SeekToLast();
      FindPrevUserEntry(None);
    }
  }

  lemma EverythingFrom(es: seq<Entry>, s: nat, p: nat, k: UserKey)
    requires Sorted(es) && p < |es| && es[p].key.user >= k
    ensures AtLeastFrom(es, s, p, k)
  {
    forall j | Shown(es, s, j) && j >= p ensures es[j].key.user >= k {
      Ordered(es, p, j);
    }
  }

  lemma NothingUnder(es: seq<Entry>, s: nat, k: UserKey)
    requires AtLeastFrom(es, s, 0, k)
    ensures NoneUnder(es, s, Some(k))
  {
    hide UserMap, Elements;
    forall x | x < k ensures UserMap(es, s, x) == None {
      NothingShown(es, s, x);
    }
  }

  /** Everything visible before the entry after p has a key of at most es[p]'s. */
  lemma NextShownFrom(es: seq<Entry>, s: nat, p: nat)
    requires Sorted(es) && Shown(es, s, p) && BelowBefore(es, s, p, es[p].key.user)
    ensures BelowBefore(es, s, p + 1, es[p].key.user + 1)
    ensures AtLeastFrom(es, s, p + 1, es[p].key.user)
  {
    EverythingFrom(es, s, p, es[p].key.user);
  }
}
