/** The filter block of a table: one filter for every 2 KB of file offsets. */
module FilterBlocks {
  import opened Bloom
  import opened Coding
  import opened Common
  import opened Separators

  const BASE_LG: nat := 11

  const BASE: nat := 2048

  function UserParts(keys: seq<Bytes>): (users: seq<Bytes>)
    requires forall k :: k in keys ==> IsKey(k)
    ensures |users| == |keys| && forall i :: 0 <= i < |keys| ==> users[i] == UserPart(keys[i])
  {
    if keys == [] then [] else UserParts(keys[..|keys| - 1]) + [UserPart(keys[|keys| - 1])]
  }

  /** Filters are made of user keys, whatever the tags. */
  datatype InternalFilterPolicy = InternalFilterPolicy(user: BloomFilterPolicy) {

    method CreateFilter(keys: seq<Bytes>) returns (filter: Bytes)
      requires forall k :: k in keys ==> IsKey(k)
      ensures FilterOf(user.hash, UserParts(keys), filter)
    {
      var mkey := keys;
      for i := 0 to |keys|
        invariant |mkey| == |keys| && mkey[i..] == keys[i..] && mkey[..i] == UserParts(keys)[..i]
      {
        assert mkey[i] == mkey[i..][0] == keys[i..][0];
        mkey := mkey[i := UserPart(mkey[i])];
      }
      assert mkey[..|keys|] == mkey && UserParts(keys)[..|keys|] == UserParts(keys);
      filter := user.CreateFilter(mkey);
    }

    method KeyMayMatch(key: Bytes, filter: Bytes) returns (r: bool)
      requires IsKey(key)
      ensures r <==> MayMatch(user.hash, UserPart(key), filter)
    {
      r := user.KeyMayMatch(UserPart(key), filter);
    }
  }

  /** The bytes of the filter for a group of keys; none for no keys. */
  ghost predicate Serves(hash: Hash, group: seq<Bytes>, filter: Bytes) {
    && (forall k :: k in group ==> IsKey(k))
    && if group == [] then filter == [] else FilterOf(hash, UserParts(group), filter)
  }

  lemma {:induction false} KeyIsServed(hash: Hash, group: seq<Bytes>, filter: Bytes, key: Bytes)
    requires Serves(hash, group, filter) && key in group
    ensures MayMatch(hash, UserPart(key), filter)
  {
    var i :| 0 <= i < |group| && group[i] == key;
    assert UserParts(group)[i] == UserPart(key);
    AddedKeyMatches(hash, UserParts(group), filter, UserPart(key));
  }

  // ----- The finished block -----

  function WordAt(contents: Bytes, p: nat): Word
    requires p + 4 <= |contents|
  {
    DecodeFixed32(contents[p..p + 4])
  }

  /** Filter `i` lies between its offset and the next one, and serves group `i`. */
  ghost predicate ServesOne(hash: Hash, contents: Bytes, arrayAt: nat, groups: seq<seq<Bytes>>, i: nat)
    requires |contents| == arrayAt + 4 * |groups| + 5 && i < |groups|
  {
    var from, to := WordAt(contents, arrayAt + 4 * i), WordAt(contents, arrayAt + 4 * i + 4);
    from <= to <= arrayAt && Serves(hash, groups[i], contents[from..to])
  }

  /** The array of offsets is at `arrayAt`, and every filter serves its group. */
  ghost predicate ServesAll(hash: Hash, contents: Bytes, arrayAt: nat, groups: seq<seq<Bytes>>) {
    && |contents| == arrayAt + 4 * |groups| + 5
    && contents[|contents| - 1] == BASE_LG
    && WordAt(contents, |contents| - 5) == arrayAt
    && forall i {:trigger ServesOne(hash, contents, arrayAt, groups, i)} :: 0 <= i < |groups| ==>
         ServesOne(hash, contents, arrayAt, groups, i)
  }

  // ----- Building -----

  /** Where item `i` ends: where the next one starts, or at the end. */
  function Limit(starts: seq<nat>, i: nat, end: nat): nat
    requires i < |starts|
  {
    if i + 1 < |starts| then starts[i + 1] else end
  }

  /** The flattened keys are the pending ones. */
  ghost predicate Flattened(keys: Bytes, start: seq<nat>, pending: seq<Bytes>) {
    && |start| == |pending|
    && forall i {:trigger pending[i]} :: 0 <= i < |pending| ==>
         start[i] <= Limit(start, i, |keys|) <= |keys| && keys[start[i]..Limit(start, i, |keys|)] == pending[i]
  }

  ghost predicate Filter(hash: Hash, result: Bytes, ends: seq<nat>, groups: seq<seq<Bytes>>, i: nat)
    requires i < |groups| == |ends|
  {
    && ends[i] <= Limit(ends, i, |result|) <= |result|
    && Serves(hash, groups[i], result[ends[i]..Limit(ends, i, |result|)])
  }

  ghost predicate Filters(hash: Hash, result: Bytes, ends: seq<nat>, groups: seq<seq<Bytes>>) {
    && |ends| == |groups|
    && forall i {:trigger Filter(hash, result, ends, groups, i)} :: 0 <= i < |groups| ==>
         Filter(hash, result, ends, groups, i)
  }

  lemma {:induction false} AppendFilter(hash: Hash, result: Bytes, ends: seq<nat>, groups: seq<seq<Bytes>>,
                                        group: seq<Bytes>, filter: Bytes)
    requires Filters(hash, result, ends, groups) && Serves(hash, group, filter)
    ensures Filters(hash, result + filter, ends + [|result|], groups + [group])
  {
    var result', ends', groups' := result + filter, ends + [|result|], groups + [group];
    forall i | 0 <= i < |groups'| ensures Filter(hash, result', ends', groups', i) {
      if i < |groups| {
        assert Filter(hash, result, ends, groups, i) && Limit(ends', i, |result'|) == Limit(ends, i, |result|);
        assert result'[ends'[i]..Limit(ends', i, |result'|)] == result[ends[i]..Limit(ends, i, |result|)];
      } else {
        assert result'[|result|..|result'|] == filter;
      }
    }
  }

  lemma {:induction false} AppendKey(keys: Bytes, start: seq<nat>, pending: seq<Bytes>, key: Bytes)
    requires Flattened(keys, start, pending)
    ensures Flattened(keys + key, start + [|keys|], pending + [key])
  {
    var keys', start', pending' := keys + key, start + [|keys|], pending + [key];
    forall i | 0 <= i < |pending'|
      ensures start'[i] <= Limit(start', i, |keys'|) <= |keys'|
      ensures keys'[start'[i]..Limit(start', i, |keys'|)] == pending'[i]
    {
      if i < |pending| {
        assert pending'[i] == pending[i] && Limit(start', i, |keys'|) == Limit(start, i, |keys|);
        assert keys'[start'[i]..Limit(start', i, |keys'|)] == keys[start[i]..Limit(start, i, |keys|)];
      } else {
        assert keys'[|keys|..|keys'|] == key;
      }
    }
  }

  /** The keys of the blocks that start at offsets from `BASE * i` up to the next multiple; the pending ones
      are for the next filter. */
  function GroupOf(groups: seq<seq<Bytes>>, pending: seq<Bytes>, i: nat): seq<Bytes> {
    if i < |groups| then groups[i] else if i == |groups| then pending else []
  }

  class FilterBlockBuilder {
    const policy: InternalFilterPolicy
    var keys: Bytes
    var start: seq<nat>
    var result: Bytes
    var filterOffsets: seq<nat>
    /** Where the filters start, and the keys they are made of. */
    ghost var ends: seq<nat>
    ghost var groups: seq<seq<Bytes>>
    /** The keys that no filter has been made of. */
    ghost var pending: seq<Bytes>

    ghost predicate Wf()
      reads this
    {
      && Flattened(keys, start, pending) && Filters(policy.user.hash, result, ends, groups)
      && |filterOffsets| == |ends| && (forall i :: 0 <= i < |ends| ==> filterOffsets[i] == Truncate32(ends[i]))
      && forall k :: k in pending ==> IsKey(k)
    }

    constructor (policy: InternalFilterPolicy)
      ensures Wf() && this.policy == policy && groups == [] && pending == [] && result == []
    {
      this.policy := policy;
      keys, start, result, filterOffsets := [], [], [], [];
      ends, groups, pending := [], [], [];
    }

    method StartBlock(blockOffset: nat)
      requires Wf() && |filterOffsets| <= blockOffset / BASE
      modifies this
      ensures Wf() && |groups| == blockOffset / BASE
      ensures forall i: nat :: GroupOf(groups, pending, i) == old(GroupOf(groups, pending, i))
    {
      var filterIndex: nat := blockOffset / BASE;
      while filterIndex > |filterOffsets|
        invariant Wf() && |filterOffsets| <= filterIndex
        invariant forall i: nat :: GroupOf(groups, pending, i) == old(GroupOf(groups, pending, i))
      {
        label L:
        GenerateFilter();
        forall i: nat ensures GroupOf(groups, pending, i) == old(GroupOf(groups, pending, i)) {
          assert old@L(GroupOf(groups, pending, i)) == old(GroupOf(groups, pending, i));
        }
      }
    }

    method AddKey(key: Bytes)
      requires Wf() && IsKey(key)
      modifies `keys, `start, `pending
      ensures Wf() && pending == old(pending) + [key]
    {
      AppendKey(keys, start, pending, key);
      start := start + [|keys|];
      keys := keys + key;
      pending := pending + [key];
    }

    method GenerateFilter()
      requires Wf()
      modifies this
      ensures Wf() && groups == old(groups) + [old(pending)] && pending == [] && start == []
      ensures |filterOffsets| == old(|filterOffsets|) + 1
    {
      var numKeys := |start|;
      filterOffsets := filterOffsets + [Truncate32(|result|)];
      if numKeys == 0 {
        assert pending == [];
        AppendFilter(policy.user.hash, result, ends, groups, pending, []);
        assert result + [] == result;
        ends, groups := ends + [|result|], groups + [[]];
        return;
      }
      start := start + [|keys|];
      var tmpKeys: seq<Bytes> := [];
      for i := 0 to numKeys
        invariant |pending| == numKeys && tmpKeys == pending[..i]
      {
        assert pending[i] == pending[i] && Limit(old(start), i, |keys|) == start[i + 1];
        var base, length := start[i], start[i + 1] - start[i];
        tmpKeys := tmpKeys + [keys[base..base + length]];
      }
      assert tmpKeys == pending;
      var filter := policy.CreateFilter(tmpKeys);
      AppendFilter(policy.user.hash, result, ends, groups, pending, filter);
      ends, groups := ends + [|result|], groups + [pending];
      result := result + filter;
      keys, start, pending := [], [], [];
    }

    method AppendOffsets() returns (contents: Bytes)
      ensures contents == result + WordArray(filterOffsets)
    {
      contents := result;
      var i := 0;
      while i < |filterOffsets|
        invariant 0 <= i <= |filterOffsets|
        invariant contents == result + WordArray(filterOffsets[..i])
      {
        assert filterOffsets[..i + 1][..i] == filterOffsets[..i];
        contents := contents + Fixed32(Truncate32(filterOffsets[i]));
        i := i + 1;
      }
      assert filterOffsets[..i] == filterOffsets;
    }

    /** The block.  Offsets have 32 bits, so its filters must be smaller than 4 GB. */
    method Finish() returns (contents: Bytes)
      requires Wf()
      modifies this
      ensures groups == if old(pending) == [] then old(groups) else old(groups) + [old(pending)]
      ensures |result| <= |contents|
      ensures |result| < WORD ==> ServesAll(policy.user.hash, contents, |result|, groups)
    {
      assert |start| == |pending|;
      if |start| != 0 {
        GenerateFilter();
      }
      hide ServesAll, Filters, Flattened, WordArray, Fixed32;
      assert |result| < WORD ==> Truncate32(|result|) == |result|;
      hide Truncate32;
      assert |result| < WORD ==> filterOffsets == ends by {
        if |result| < WORD {
          SmallEnds(policy.user.hash, result, ends, groups);
        }
      }
      var arrayOffset := Truncate32(|result|);
      contents := AppendOffsets();
      contents := contents + Fixed32(arrayOffset) + [BASE_LG];
      if |result| < WORD {
        FinishedServes(policy.user.hash, result, ends, groups);
        assert contents == Finished(result, ends);
      }
    }
  }

  lemma {:induction false} SmallEnds(hash: Hash, result: Bytes, ends: seq<nat>, groups: seq<seq<Bytes>>)
    requires Filters(hash, result, ends, groups) && |result| < WORD
    ensures forall i :: 0 <= i < |ends| ==> ends[i] < WORD && Truncate32(ends[i]) == ends[i]
  {
    forall i | 0 <= i < |ends| ensures ends[i] < WORD {
      assert Filter(hash, result, ends, groups, i);
    }
  }

  /** Word `i` of an array is read back from its place. */
  lemma {:induction false} WordFromArray(front: Bytes, words: seq<nat>, back: Bytes, i: nat)
    requires SmallWords(words) && i < |words|
    ensures |WordArray(words)| == 4 * |words|
    ensures WordAt(front + WordArray(words) + back, |front| + 4 * i) == words[i]
  {
    hide Truncate32, Fixed32, DecodeFixed32, WordArray;
    WordArrayAt(words, i);
    var p, middle := |front| + 4 * i, WordArray(words);
    assert (front + middle + back)[p..p + 4] == middle[4 * i..4 * i + 4];
    Fixed32RoundTrip(words[i]);
  }

  /** The bytes of the finished block. */
  function Finished(result: Bytes, ends: seq<nat>): Bytes
    requires |result| < WORD
  {
    result + WordArray(ends) + Fixed32(|result|) + [BASE_LG]
  }

  lemma {:induction false} FinishedWords(result: Bytes, ends: seq<nat>, i: nat)
    requires SmallWords(ends) && |result| < WORD && i <= |ends|
    ensures |Finished(result, ends)| == |result| + 4 * |ends| + 5
    ensures WordAt(Finished(result, ends), |result| + 4 * i) == if i < |ends| then ends[i] else |result|
  {
    var words := ends + [|result|];
    assert words[..|ends|] == ends;
    assert Finished(result, ends) == result + WordArray(words) + [BASE_LG];
    WordFromArray(result, words, [BASE_LG], i);
  }

  lemma {:induction false} FinishedSlice(result: Bytes, ends: seq<nat>, from: nat, to: nat)
    requires SmallWords(ends) && |result| < WORD && from <= to <= |result|
    ensures |Finished(result, ends)| >= |result| && Finished(result, ends)[from..to] == result[from..to]
  {
  }

  lemma {:induction false} OneServes(hash: Hash, result: Bytes, ends: seq<nat>, groups: seq<seq<Bytes>>, i: nat)
    requires Filters(hash, result, ends, groups) && |result| < WORD && SmallWords(ends) && i < |groups|
    ensures |Finished(result, ends)| == |result| + 4 * |groups| + 5
    ensures ServesOne(hash, Finished(result, ends), |result|, groups, i)
  {
    hide Finished;
    var from, to := ends[i], Limit(ends, i, |result|);
    assert Filter(hash, result, ends, groups, i);
    FinishedWords(result, ends, i);
    FinishedWords(result, ends, i + 1);
    FinishedSlice(result, ends, from, to);
  }

  lemma {:induction false} FinishedServes(hash: Hash, result: Bytes, ends: seq<nat>, groups: seq<seq<Bytes>>)
    requires Filters(hash, result, ends, groups) && |result| < WORD
    ensures SmallWords(ends) && ServesAll(hash, Finished(result, ends), |result|, groups)
  {
    SmallEnds(hash, result, ends, groups);
    var contents := Finished(result, ends);
    FinishedWords(result, ends, |ends|);
    assert contents[|contents| - 1] == BASE_LG;
    hide Finished;
    forall i | 0 <= i < |groups| ensures ServesOne(hash, contents, |result|, groups, i) {
      OneServes(hash, result, ends, groups, i);
    }
  }

  // ----- Reading -----

  /** `offset >> lg`. */
  function Shift(offset: nat, lg: nat): nat {
    if lg == 0 then offset else Shift(offset / 2, lg - 1)
  }

  lemma {:induction false} ShiftByThree(offset: nat, lg: nat)
    requires lg >= 3
    ensures Shift(offset, lg) == Shift(offset / 8, lg - 3)
  {
    var half, quarter := offset / 2, offset / 4;
    assert half / 2 == quarter && quarter / 2 == offset / 8;
    assert Shift(offset, lg) == Shift(half, lg - 1) == Shift(quarter, lg - 2) == Shift(quarter / 2, lg - 3);
  }

  lemma {:induction false} ShiftByBase(offset: nat)
    ensures Shift(offset, BASE_LG) == offset / BASE
  {
    ShiftByThree(offset, BASE_LG);
    ShiftByThree(offset / 8, BASE_LG - 3);
    ShiftByThree(offset / 64, BASE_LG - 6);
    var o := offset / 512;
    assert Shift(o, BASE_LG - 9) == Shift(o / 2, BASE_LG - 10) == Shift(o / 2 / 2, BASE_LG - 11) == o / 4;
  }

  class FilterBlockReader {
    const policy: InternalFilterPolicy
    const data: Bytes
    const offset: nat
    const num: nat
    const baseLg: nat
    /** The keys behind the filters, if a builder made the block. */
    ghost const groups: Option<seq<seq<Bytes>>>

    ghost predicate Wf() {
      && (num > 0 ==> offset + 4 * num + 5 <= |data|)
      && (groups.Some? ==>
            num == |groups.value| && baseLg == BASE_LG && ServesAll(policy.user.hash, data, offset, groups.value))
    }

    constructor (policy: InternalFilterPolicy, contents: Bytes, ghost arrayAt: nat, ghost groups: Option<seq<seq<Bytes>>>)
      requires groups.Some? ==> ServesAll(policy.user.hash, contents, arrayAt, groups.value)
      ensures Wf() && this.policy == policy && this.groups == groups
    {
      this.policy := policy;
      this.groups := groups;
      data, offset, num, baseLg := contents, 0, 0, 0;
      var n := |contents|;
      if n >= 5 {
        baseLg := contents[n - 1];
        var lastWord := WordAt(contents, n - 5);
        if lastWord <= n - 5 {
          offset := lastWord;
          num := (n - 5 - lastWord) / 4;
        }
      }
    }

    /** A filter that cannot be read matches every key, unless it is empty. */
    method KeyMayMatch(blockOffset: nat, key: Bytes) returns (r: bool)
      requires Wf() && IsKey(key)
      ensures Shift(blockOffset, baseLg) >= num ==> r
      ensures groups.Some? && blockOffset / BASE < num ==>
        var i := blockOffset / BASE;
        var from, to := WordAt(data, offset + 4 * i), WordAt(data, offset + 4 * i + 4);
        from <= to <= |data| && (r <==> MayMatch(policy.user.hash, UserPart(key), data[from..to]))
      ensures groups.Some? && blockOffset / BASE < num ==>
        forall k :: k in groups.value[blockOffset / BASE] && IsKey(k) && UserPart(k) == UserPart(key) ==> r
    {
      hide FilterOf, DecodeFixed32, MayMatch, Shift, UserParts;
      ShiftByBase(blockOffset);
      var index := Shift(blockOffset, baseLg);
      if index < num {
        var from, limit := WordAt(data, offset + index * 4), WordAt(data, offset + index * 4 + 4);
        if groups.Some? {
          assert ServesOne(policy.user.hash, data, offset, groups.value, index);
        }
        if from <= limit && limit <= offset {
          var filter := data[from..limit];
          r := policy.KeyMayMatch(key, filter);
          if groups.Some? {
            forall k | k in groups.value[index] && IsKey(k) && UserPart(k) == UserPart(key) ensures r {
              KeyIsServed(policy.user.hash, groups.value[index], filter, k);
            }
          }
          return r;
        } else if from == limit {
          return false;
        }
      }
      return true;
    }
  }
}
