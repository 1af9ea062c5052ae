/** Filter blocks: one Bloom filter for every 2 KB of file offsets (table/filter_block.cc, and
    InternalFilterPolicy of db/dbformat.cc). */
module FilterBlock {
  import opened Coding
  import opened Comparator
  import opened Bloom
  import opened BlockFormat

  const FILTER_BASE_LG := 11
  const FILTER_BASE := 2048 // 1 << kFilterBaseLg

  /** The keys one after the other, and where each begins. */
  function Flat(keys: seq<Bytes>): Bytes {
    if keys == [] then [] else Flat(keys[..|keys| - 1]) + keys[|keys| - 1]
  }

  lemma {:induction false} FlatSlice(keys: seq<Bytes>, i: nat)
    requires i < |keys|
    ensures |Flat(keys[..i])| <= |Flat(keys[..i + 1])| <= |Flat(keys)|
    ensures Flat(keys)[|Flat(keys[..i])|..|Flat(keys[..i + 1])|] == keys[i]
  {
    var before := keys[..|keys| - 1];
    assert keys[..i + 1][..i] == keys[..i];
    if i == |keys| - 1 {
      assert keys[..i + 1] == keys;
    } else {
      assert before[..i] == keys[..i] && before[..i + 1] == keys[..i + 1];
      FlatSlice(before, i);
    }
  }

  /** Where filter i ends. */
  function End(data: Bytes, offsets: seq<nat>, i: nat): nat
    requires i < |offsets|
  {
    if i + 1 < |offsets| then offsets[i + 1] else |data|
  }

  /** What filters are made of: the sought parts of the keys. */
  function SoughtParts(o: Order, keys: seq<Bytes>): (r: seq<Bytes>)
    ensures |r| == |keys| && forall i :: 0 <= i < |r| ==> r[i] == o.Sought(keys[i])
  {
    seq(|keys|, i requires 0 <= i < |keys| => o.Sought(keys[i]))
  }

  /** The filter of a group of keys; there is none for an empty group. */
  ghost predicate IsGroupFilter(policy: BloomPolicy, o: Order, group: seq<Bytes>, filter: Bytes) {
    if group == [] then filter == [] else policy.IsFilterOf(SoughtParts(o, group), filter)
  }

  lemma GroupMatches(policy: BloomPolicy, o: Order, group: seq<Bytes>, filter: Bytes, key: Bytes)
    requires policy.Valid() && IsGroupFilter(policy, o, group, filter) && Has(o, group, key)
    ensures MayMatch(policy.hash, o.Sought(key), filter)
  {
    hide MayMatch, Order.Sought, BloomPolicy.IsFilterOf;
    var k :| k in group && o.Sought(k) == o.Sought(key);
    var i :| 0 <= i < |group| && group[i] == k;
    policy.FilterMatches(SoughtParts(o, group), filter, i);
  }

  /** Filter i of the data is the one of group i. */
  ghost predicate FiltersMatch(policy: BloomPolicy, o: Order, data: Bytes, offsets: seq<nat>, groups: seq<seq<Bytes>>) {
    && policy.Valid() && |offsets| == |groups|
    && (forall i :: 0 <= i < |offsets| ==> offsets[i] <= End(data, offsets, i) <= |data|)
    && (forall i :: 0 <= i < |offsets| ==> IsGroupFilter(policy, o, groups[i], data[offsets[i]..End(data, offsets, i)]))
  }

  lemma MoreFilters(policy: BloomPolicy, o: Order, data: Bytes, offsets: seq<nat>, groups: seq<seq<Bytes>>,
                    filter: Bytes, group: seq<Bytes>)
    requires FiltersMatch(policy, o, data, offsets, groups)
    requires IsGroupFilter(policy, o, group, filter)
    ensures FiltersMatch(policy, o, data + filter, offsets + [|data|], groups + [group])
  {
    hide IsGroupFilter;
    var data', offsets', groups' := data + filter, offsets + [|data|], groups + [group];
    forall i | 0 <= i < |offsets| ensures End(data', offsets', i) == End(data, offsets, i) {
    }
    forall i | 0 <= i < |offsets'|
      ensures IsGroupFilter(policy, o, groups'[i], data'[offsets'[i]..End(data', offsets', i)])
    {
      if i < |offsets| {
        assert data'[offsets[i]..End(data, offsets, i)] == data[offsets[i]..End(data, offsets, i)];
      } else {
        assert data'[|data|..|data'|] == filter;
      }
    }
  }

  /** The whole block, with the offsets and the encoding parameter behind the filters. */
  ghost predicate IsFilterBlock(contents: Bytes, data: Bytes, offsets: seq<nat>) {
    contents == data + (Fixed32s(offsets) + Fixed32(|data| % 0x1_0000_0000)) + [FILTER_BASE_LG]
  }

  class FilterBlockBuilder {
    const policy: BloomPolicy
    const order: Order
    var keys: Bytes
    var start: seq<nat>
    var result: Bytes
    var filterOffsets: seq<nat>
    ghost var pending: seq<Bytes>
    ghost var groups: seq<seq<Bytes>>

    ghost predicate Valid()
      reads this
    {
      && policy.Valid()
      && keys == Flat(pending) && |start| == |pending|
      && (forall i :: 0 <= i < |start| ==> start[i] == |Flat(pending[..i])|)
      && FiltersMatch(policy, order, result, filterOffsets, groups)
    }

    /** The filter that a reader will ask for the offset has, or will have, the key. */
    ghost predicate Covers(offset: nat, key: Bytes)
      reads this
    {
      var index := offset / FILTER_BASE;
      index <= |groups| && key in (if index < |groups| then groups[index] else pending)
    }

    constructor (policy: BloomPolicy, order: Order)
      requires policy.Valid()
      ensures Valid() && groups == [] && pending == [] && this.policy == policy && this.order == order
    {
      this.policy, this.order := policy, order;
      keys, start, result, filterOffsets := [], [], [], [];
      pending, groups := [], [];
    }

    method StartBlock(blockOffset: nat)
      requires Valid() && |groups| <= blockOffset / FILTER_BASE
      modifies this
      ensures Valid() && |groups| == blockOffset / FILTER_BASE
      ensures forall offset: nat, key :: old(Covers(offset, key)) ==> Covers(offset, key)
    {
      hide FiltersMatch, Flat;
      var filterIndex := blockOffset / FILTER_BASE;
      FilterCount();
      while filterIndex > |filterOffsets|
        invariant Valid() && |filterOffsets| == |groups| <= filterIndex
        invariant forall offset: nat, key :: old(Covers(offset, key)) ==> Covers(offset, key)
      {
        GenerateFilter();
      }
    }

    lemma FilterCount()
      requires Valid()
      ensures |filterOffsets| == |groups|
    {
    }

    method AddKey(key: Bytes)
      requires Valid()
      modifies this
      ensures Valid() && groups == old(groups) && pending == old(pending) + [key]
      ensures forall offset: nat :: offset / FILTER_BASE == |groups| ==> Covers(offset, key)
      ensures forall offset: nat, k :: old(Covers(offset, k)) ==> Covers(offset, k)
    {
      hide FiltersMatch;
      start := start + [|keys|];
      keys := keys + key;
      pending := pending + [key];
      assert pending[..|pending| - 1] == old(pending);
      assert forall i :: 0 <= i < |pending| ==> pending[..i] == old(pending)[..i];
      assert pending[|pending| - 1] == key;
    }

    method GenerateFilter()
      requires Valid()
      modifies this
      ensures Valid() && groups == old(groups) + [old(pending)] && pending == [] && |filterOffsets| == |groups|
      ensures forall offset: nat, key :: old(Covers(offset, key)) ==> Covers(offset, key)
    {
      hide Flat, FiltersMatch, Order.Sought, BloomPolicy.IsFilterOf;
      FilterCount();
      var numKeys := |start|;
      if numKeys == 0 {
        filterOffsets := filterOffsets + [|result|];
        MoreFilters(policy, order, result, old(filterOffsets), groups, [], []);
        assert result + [] == result;
        groups := groups + [pending];
        return;
      }
      var bounds := start + [|keys|];
      var tmpKeys: seq<Bytes> := [];
      assert pending[..numKeys] == pending;
      for i := 0 to numKeys
        modifies {}
        invariant |tmpKeys| == i && forall j :: 0 <= j < i ==> tmpKeys[j] == order.Sought(pending[j])
      {
        FlatSlice(pending, i);
        var base := keys[bounds[i]..bounds[i + 1]];
        assert base == pending[i];
        tmpKeys := tmpKeys + [order.Sought(base)];
      }
      filterOffsets := filterOffsets + [|result|];
      var appended := policy.CreateFilter(tmpKeys, result);
      ghost var filter := appended[|result|..];
      assert appended == result + filter;
      assert tmpKeys == SoughtParts(order, pending);
      MoreFilters(policy, order, result, old(filterOffsets), groups, filter, pending);
      result := appended;
      keys, start := [], [];
      groups, pending := groups + [pending], [];
      NoKeys();
    }

    static lemma NoKeys()
      ensures Flat([]) == []
    {
    }

    method Finish() returns (contents: Bytes, ghost data: Bytes, ghost offsets: seq<nat>)
      requires Valid()
      modifies this
      ensures IsFilterBlock(contents, data, offsets) && FiltersMatch(policy, order, data, offsets, groups)
      ensures forall offset: nat, key :: old(Covers(offset, key)) ==>
                offset / FILTER_BASE < |groups| && key in groups[offset / FILTER_BASE]
    {
      hide FiltersMatch, Fixed32, Flat;
      if start != [] {
        GenerateFilter();
      }
      data, offsets := result, filterOffsets;
      var arrayOffset := |result| % 0x1_0000_0000;
      assert filterOffsets[..0] == [];
      for i := 0 to |filterOffsets|
        modifies this`result
        invariant result == data + Fixed32s(filterOffsets[..i])
      {
        assert filterOffsets[..i + 1][..i] == filterOffsets[..i];
        result := result + Fixed32(filterOffsets[i] % 0x1_0000_0000);
      }
      assert filterOffsets[..|filterOffsets|] == filterOffsets;
      result := result + Fixed32(arrayOffset);
      result := result + [FILTER_BASE_LG];
      contents := result;
      assert contents == data + (Fixed32s(offsets) + Fixed32(|data| % 0x1_0000_0000)) + [FILTER_BASE_LG];
    }
  }

  // ---- Reading ---------------------------------------------------------------------------------

  /** FilterBlockReader: `num` filters, whose offsets begin at `offset`. */
  class FilterBlockReader {
    const policy: BloomPolicy
    const order: Order
    const data: Bytes
    const offset: nat
    const num: nat
    const baseLg: nat
    ghost const filters: Bytes
    ghost const offsets: seq<nat>

    ghost predicate Valid() { num > 0 ==> offset + 4 * num + 5 <= |data| }

    /** The contents are what a builder finished. */
    ghost predicate IsGood() {
      && IsFilterBlock(data, filters, offsets) && |data| < 0x1_0000_0000
      && offset == |filters| && num == |offsets| && baseLg == FILTER_BASE_LG
    }

    constructor (policy: BloomPolicy, order: Order, contents: Bytes, ghost filters: Bytes, ghost offsets: seq<nat>)
      ensures Valid() && this.policy == policy && this.order == order && this.filters == filters
      ensures this.offsets == offsets
      ensures IsFilterBlock(contents, filters, offsets) && |contents| < 0x1_0000_0000 ==> IsGood()
    {
      hide Fixed32, DecodeFixed32, Fixed32s;
      this.policy, this.order, this.data := policy, order, contents;
      this.filters, this.offsets := filters, offsets;
      var n := |contents|;
      if n < 5 {
        offset, num, baseLg := 0, 0, 0;
      } else {
        baseLg := contents[n - 1];
        var lastWord := DecodeFixed32(contents[n - 5..]);
        if lastWord > n - 5 {
          offset, num := 0, 0;
        } else {
          offset := lastWord;
          num := (n - 5 - lastWord) / 4;
        }
      }
      new;
      if IsFilterBlock(contents, filters, offsets) && |contents| < 0x1_0000_0000 {
        LastWord(contents, filters, offsets);
      }
    }

    /** Filter i lets the key through. */
    ghost predicate Passes(i: nat, key: Bytes)
    {
      && i < |offsets| && offsets[i] <= End(filters, offsets, i) <= |filters|
      && MayMatch(policy.hash, key, filters[offsets[i]..End(filters, offsets, i)])
    }

    /** What the reader finds for an index that has a filter. */
    lemma FilterFound(groups: seq<seq<Bytes>>, i: nat, key: Bytes)
      requires IsGood() && FiltersMatch(policy, order, filters, offsets, groups) && i < num
      ensures i < |groups| && offset + 4 * i + 8 <= |data|
      ensures var begin, limit := DecodeFixed32(data[offset + i * 4..]), DecodeFixed32(data[offset + i * 4 + 4..]);
              && begin <= limit <= offset
              && (MayMatch(policy.hash, order.Sought(key), data[begin..limit]) <==> Passes(i, order.Sought(key)))
      ensures Has(order, groups[i], key) ==> Passes(i, order.Sought(key))
    {
      hide DecodeFixed32, MayMatch, FiltersMatch, Order.Sought, Has, IsGroupFilter;
      FilterAt(policy, order, data, filters, offsets, groups, i);
      assert policy.Valid() by { PolicyOk(policy, order, filters, offsets, groups); }
      if Has(order, groups[i], key) {
        GroupMatches(policy, order, groups[i], filters[offsets[i]..End(filters, offsets, i)], key);
      }
    }

    /** Whether the block at the offset may have the key; anything unreadable counts as a match. A key is turned away
        exactly if the filter for the block says no, so never if it was added for the block. */
    method KeyMayMatch(blockOffset: nat, key: Bytes, ghost groups: seq<seq<Bytes>>) returns (r: bool)
      requires Valid()
      ensures IsGood() && FiltersMatch(policy, order, filters, offsets, groups) ==>
                blockOffset / FILTER_BASE < |groups| && Has(order, groups[blockOffset / FILTER_BASE], key) ==> r
      ensures IsGood() && FiltersMatch(policy, order, filters, offsets, groups) ==>
                var i := blockOffset / FILTER_BASE;
                (r <==> i < |groups| ==> Passes(i, order.Sought(key)))
    {
      hide Passes, DecodeFixed32, MayMatch, FiltersMatch, IsFilterBlock, Order.Sought, Has, ShiftRight;
      var index := ShiftRight(blockOffset, baseLg);
      r := true;
      if IsGood() && FiltersMatch(policy, order, filters, offsets, groups) {
        Base(blockOffset);
        PolicyOk(policy, order, filters, offsets, groups);
      }
      if index < num {
        if IsGood() && FiltersMatch(policy, order, filters, offsets, groups) {
          FilterFound(groups, index, key);
        }
        var begin := DecodeFixed32(data[offset + index * 4..]);
        var limit := DecodeFixed32(data[offset + index * 4 + 4..]);
        if begin <= limit && limit <= offset {
          r := policy.KeyMayMatch(order.Sought(key), data[begin..limit]);
        } else if begin == limit {
          r := false;
        }
      }
    }
  }

  lemma PolicyOk(policy: BloomPolicy, o: Order, data: Bytes, offsets: seq<nat>, groups: seq<seq<Bytes>>)
    requires FiltersMatch(policy, o, data, offsets, groups)
    ensures policy.Valid() && |offsets| == |groups|
  {
    hide IsGroupFilter;
  }

  ghost predicate Has(o: Order, group: seq<Bytes>, key: Bytes) {
    exists k :: k in group && o.Sought(k) == o.Sought(key)
  }

  /** offset >> lg */
  function ShiftRight(offset: nat, lg: nat): nat { if lg == 0 then offset else ShiftRight(offset / 2, lg - 1) }

  lemma Base(offset: nat)
    ensures ShiftRight(offset, FILTER_BASE_LG) == offset / FILTER_BASE
  {
    ShiftBy4(offset, 7);
    ShiftBy4(offset / 16, 3);
    var rest := offset / 16 / 16;
    assert ShiftRight(rest, 3) == ShiftRight(rest / 2 / 2, 1) == rest / 2 / 2 / 2;
  }

  lemma ShiftBy4(offset: nat, lg: nat)
    ensures ShiftRight(offset, lg + 4) == ShiftRight(offset / 16, lg)
  {
    assert ShiftRight(offset, lg + 4) == ShiftRight(offset / 2 / 2, lg + 2);
    assert offset / 2 / 2 / 2 / 2 == offset / 16;
  }

  lemma LastWord(contents: Bytes, d: Bytes, offsets: seq<nat>)
    requires IsFilterBlock(contents, d, offsets) && |contents| < 0x1_0000_0000
    ensures |contents| == |d| + 4 * |offsets| + 5 && DecodeFixed32(contents[|contents| - 5..]) == |d|
    ensures contents[|contents| - 1] == FILTER_BASE_LG
  {
    hide Fixed32, DecodeFixed32, Fixed32s;
    var word := Fixed32(|d| % 0x1_0000_0000);
    assert contents == d + Fixed32s(offsets) + (word + [FILTER_BASE_LG]);
    assert contents[|contents| - 5..] == word + [FILTER_BASE_LG];
    DecodeInvertsFixed32(|d|, [FILTER_BASE_LG]);
  }

  /** The reader's two words delimit the filter. */
  lemma FilterAt(policy: BloomPolicy, o: Order, contents: Bytes, d: Bytes, offsets: seq<nat>, groups: seq<seq<Bytes>>,
                 i: nat)
    requires IsFilterBlock(contents, d, offsets) && |contents| < 0x1_0000_0000
    requires FiltersMatch(policy, o, d, offsets, groups)
    requires i < |offsets|
    ensures i < |groups| && |d| + 4 * i + 8 <= |contents|
    ensures DecodeFixed32(contents[|d| + i * 4..]) == offsets[i]
    ensures DecodeFixed32(contents[|d| + i * 4 + 4..]) == End(d, offsets, i)
    ensures offsets[i] <= End(d, offsets, i) <= |d|
    ensures contents[offsets[i]..End(d, offsets, i)] == d[offsets[i]..End(d, offsets, i)]
    ensures IsGroupFilter(policy, o, groups[i], d[offsets[i]..End(d, offsets, i)])
  {
    hide Fixed32, DecodeFixed32, IsGroupFilter;
    var word := Fixed32(|d| % 0x1_0000_0000);
    assert contents == d + (Fixed32s(offsets) + (word + [FILTER_BASE_LG]));
    assert contents[|d| + i * 4..] == (Fixed32s(offsets) + (word + [FILTER_BASE_LG]))[4 * i..];
    Fixed32At(offsets, i, word + [FILTER_BASE_LG]);
    if i + 1 < |offsets| {
      assert contents[|d| + i * 4 + 4..] == (Fixed32s(offsets) + (word + [FILTER_BASE_LG]))[4 * (i + 1)..];
      assert offsets[i + 1] <= End(d, offsets, i + 1);
      Fixed32At(offsets, i + 1, word + [FILTER_BASE_LG]);
    } else {
      LastWord(contents, d, offsets);
    }
    assert contents[offsets[i]..End(d, offsets, i)] == d[offsets[i]..End(d, offsets, i)];
  }
}
