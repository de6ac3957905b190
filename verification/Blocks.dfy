/** Blocks of a table: keys with shared prefixes, and restart points that store whole keys. */
module Blocks {
  import opened Coding
  import opened Common

  datatype Pair = Pair(key: Bytes, value: Bytes)

  /** An entry as it is stored: the key is the start of the previous key and then `delta`. */
  datatype Item = Item(shared: nat, delta: Bytes, value: Bytes)

  /** The user's comparator: whether one key comes before another. */
  type Order = (Bytes, Bytes) -> bool

  ghost predicate Transitive(less: Order) {
    forall a, b, c {:trigger less(a, b), less(b, c)} :: less(a, b) && less(b, c) ==> less(a, c)
  }

  function Header(it: Item): Bytes {
    Varint(it.shared) + Varint(|it.delta|) + Varint(|it.value|)
  }

  function EncodeItem(it: Item): (b: Bytes)
    ensures |b| >= 3
  {
    Header(it) + it.delta + it.value
  }

  predicate Small(it: Item) {
    it.shared < WORD && |it.delta| < WORD && |it.value| < WORD
  }

  /** What a block's bytes mean: the pairs, how they are stored, where each of them starts and which
      of them are restart points. */
  datatype Layout = Layout(pairs: seq<Pair>, items: seq<Item>, starts: seq<nat>, heads: seq<nat>) {

    function Previous(i: nat): Bytes
      requires i <= |pairs|
    {
      if i == 0 then [] else pairs[i - 1].key
    }

    ghost predicate Stored(body: Bytes, i: nat)
      requires i < |pairs| == |items| && |starts| == |pairs| + 1
    {
      var it := items[i];
      && Small(it)
      && starts[i + 1] == starts[i] + |EncodeItem(it)|
      && AtPos(body, starts[i], EncodeItem(it))
      && it.shared <= |Previous(i)|
      && pairs[i] == Pair(Previous(i)[..it.shared] + it.delta, it.value)
    }

    /** Restart point `k` stores a whole key. */
    ghost predicate Head(k: nat)
      requires k < |heads|
    {
      && heads[k] <= |pairs|
      && (k == 0 ==> heads[k] == 0)
      && (k > 0 ==> heads[k - 1] < heads[k] < |pairs|)
      && (heads[k] < |items| ==> items[heads[k]].shared == 0)
    }

    ghost predicate Wf(body: Bytes) {
      && |pairs| == |items| && |starts| == |pairs| + 1
      && starts[0] == 0 && starts[|pairs|] == |body|
      && (forall i {:trigger Stored(body, i)} :: 0 <= i < |pairs| ==> Stored(body, i))
      && |heads| > 0 && (forall k {:trigger Head(k)} :: 0 <= k < |heads| ==> Head(k))
    }

    lemma {:induction false} Ascending(body: Bytes, i: nat, j: nat)
      requires Wf(body) && i <= j <= |pairs|
      ensures i < j ==> starts[i] < starts[j]
      ensures starts[j] <= |body| && (j < |pairs| ==> starts[j] < |body|)
      decreases j - i, |pairs| - j
    {
      if j < |pairs| {
        assert Stored(body, j);
        Ascending(body, j + 1, j + 1);
      }
      if i < j {
        assert Stored(body, j - 1);
        Ascending(body, i, j - 1);
      }
    }

    /** The order of offsets is the order of entries. */
    lemma {:induction false} Order(body: Bytes, i: nat, j: nat)
      requires Wf(body) && i <= |pairs| && j <= |pairs|
      ensures starts[i] < starts[j] <==> i < j
      ensures starts[i] <= |body| && (i < |pairs| ==> starts[i] < |body|)
    {
      Ascending(body, i, i);
      if i < j {
        Ascending(body, i, j);
      } else if j < i {
        Ascending(body, j, i);
      }
    }

    ghost predicate SortedBy(less: Order) {
      forall i, j {:trigger less(pairs[i].key, pairs[j].key)} :: 0 <= i < j < |pairs| ==> less(pairs[i].key, pairs[j].key)
    }
  }

  // ----- Reading one entry -----

  datatype Decoded = Decoded(shared: nat, nonShared: nat, valueLength: nat, pos: nat)

  /** The three lengths at `p`, and the position after them. */
  function DecodeLengths(data: Bytes, p: nat): (r: Option<Decoded>)
    ensures r.Some? ==> p < r.value.pos <= |data|
  {
    if |data| < p + 3 then None
    else if data[p] < 128 && data[p + 1] < 128 && data[p + 2] < 128 then
      Some(Decoded(data[p], data[p + 1], data[p + 2], p + 3))
    else
      match GetVarint32(data, p)
      case None => None
      case Some((shared, p1)) =>
        match GetVarint32(data, p1)
        case None => None
        case Some((nonShared, p2)) =>
          match GetVarint32(data, p2)
          case None => None
          case Some((valueLength, p3)) => Some(Decoded(shared, nonShared, valueLength, p3))
  }

  /** The lengths are added in 32 bits. */
  function DecodeEntry(data: Bytes, p: nat): (r: Option<Decoded>)
    ensures r.Some? ==> p < r.value.pos && r.value.pos + Truncate32(r.value.nonShared + r.value.valueLength) <= |data|
  {
    match DecodeLengths(data, p)
    case None => None
    case Some(d) => if Truncate32(|data| - d.pos) < Truncate32(d.nonShared + d.valueLength) then None else Some(d)
  }

  /** An entry that is accepted ends inside the entries exactly if its lengths do not wrap around. */
  lemma {:induction false} EntryEndsInside(data: Bytes, p: nat)
    requires |data| < WORD && DecodeEntry(data, p).Some?
    ensures var d := DecodeEntry(data, p).value;
            d.pos + d.nonShared + d.valueLength <= |data| <==> d.nonShared + d.valueLength < WORD
  {
  }

  /** An entry of eight bytes with a key of 2^32 - 1 bytes and a value of two. */
  const OVERLONG: Bytes := [0x00, 0xff, 0xff, 0xff, 0xff, 0x0f, 0x02, 0x00]

  lemma {:induction false} OverlongIsAccepted()
    ensures DecodeEntry(OVERLONG, 0) == Some(Decoded(0, 0xffff_ffff, 2, 7))
  {
    assert DecodeVarint(OVERLONG, 5, 1) == Some((15, 6));
    assert DecodeVarint(OVERLONG, 4, 2) == Some((2047, 6));
    assert DecodeVarint(OVERLONG, 3, 3) == Some((0x3_ffff, 6));
    assert DecodeVarint(OVERLONG, 2, 4) == Some((0x1ff_ffff, 6));
    assert DecodeVarint(OVERLONG, 1, 5) == Some((0xffff_ffff, 6));
  }

  /** The bytes at `p` are read as `v`, in one byte just when `v` is small. */
  ghost predicate ReadsAs(data: Bytes, p: nat, v: nat, next: nat) {
    && GetVarint32(data, p) == Some((v, next))
    && p < |data| && (data[p] < 128 <==> v < 128) && (v < 128 ==> data[p] == v && next == p + 1)
  }

  lemma {:induction false} VarintAt(data: Bytes, p: nat, v: nat)
    requires v < WORD
    ensures AtPos(data, p, Varint(v)) ==> ReadsAs(data, p, v, p + |Varint(v)|)
  {
    if AtPos(data, p, Varint(v)) {
      Varint32RoundTrip(data, p, v);
    }
  }

  /** Three varints in a row are read back, on the fast path and on the slow one. */
  lemma {:induction false} LengthsRoundTrip(data: Bytes, p: nat, a: nat, b: nat, c: nat, p1: nat, p2: nat, p3: nat)
    requires ReadsAs(data, p, a, p1) && ReadsAs(data, p1, b, p2) && ReadsAs(data, p2, c, p3)
    ensures DecodeLengths(data, p) == Some(Decoded(a, b, c, p3))
  {
  }

  lemma {:induction false} ThreePieces(data: Bytes, p: nat, a: nat, b: nat, c: nat, va: Bytes, vb: Bytes, vc: Bytes)
    requires AtPos(data, p, va + vb + vc)
    requires AtPos(data, p, va) ==> ReadsAs(data, p, a, p + |va|)
    requires AtPos(data, p + |va|, vb) ==> ReadsAs(data, p + |va|, b, p + |va| + |vb|)
    requires AtPos(data, p + |va| + |vb|, vc) ==> ReadsAs(data, p + |va| + |vb|, c, p + |va| + |vb| + |vc|)
    ensures DecodeLengths(data, p) == Some(Decoded(a, b, c, p + |va + vb + vc|))
  {
    hide AtPos, DecodeLengths, ReadsAs;
    AtSplit(data, p, va + vb, vc);
    AtSplit(data, p, va, vb);
    LengthsRoundTrip(data, p, a, b, c, p + |va|, p + |va| + |vb|, p + |va| + |vb| + |vc|);
  }

  lemma {:induction false} HeaderRoundTrip(data: Bytes, p: nat, it: Item)
    requires Small(it) && AtPos(data, p, Header(it))
    ensures DecodeLengths(data, p) == Some(Decoded(it.shared, |it.delta|, |it.value|, p + |Header(it)|))
  {
    hide AtPos, DecodeLengths, ReadsAs, Varint;
    var va, vb, vc := Varint(it.shared), Varint(|it.delta|), Varint(|it.value|);
    VarintAt(data, p, it.shared);
    VarintAt(data, p + |va|, |it.delta|);
    VarintAt(data, p + |va| + |vb|, |it.value|);
    ThreePieces(data, p, it.shared, |it.delta|, |it.value|, va, vb, vc);
  }

  lemma {:induction false} EntryRoundTrip(data: Bytes, p: nat, it: Item)
    requires Small(it) && AtPos(data, p, EncodeItem(it)) && |data| < WORD
    ensures DecodeEntry(data, p) == Some(Decoded(it.shared, |it.delta|, |it.value|, p + |Header(it)|))
    ensures AtPos(data, p + |Header(it)|, it.delta)
    ensures AtPos(data, p + |Header(it)| + |it.delta|, it.value)
    ensures p + |Header(it)| + |it.delta| + |it.value| <= |data|
  {
    AtSplit(data, p, Header(it) + it.delta, it.value);
    AtSplit(data, p, Header(it), it.delta);
    HeaderRoundTrip(data, p, it);
    assert p + |Header(it)| + |it.delta| + |it.value| <= |data|;
  }

  // ----- The finished block -----

  /** Restart point `k` of a block whose restart array is at `restarts`. */
  function RestartPoint(data: Bytes, restarts: nat, k: nat): nat
    requires restarts + 4 * k + 4 <= |data|
  {
    DecodeFixed32(data[restarts + 4 * k..restarts + 4 * k + 4])
  }

  /** The block's bytes stand for the layout; its restart array is at `restarts`. */
  ghost predicate Laid(data: Bytes, restarts: nat, num: nat, layout: Layout) {
    && num == |layout.heads| && restarts + 4 * num + 4 <= |data| && restarts < WORD
    && layout.Wf(data[..restarts])
    && forall k {:trigger RestartPoint(data, restarts, k)} :: 0 <= k < num ==>
         layout.Head(k) && RestartPoint(data, restarts, k) == layout.starts[layout.heads[k]]
  }

  /** The whole block stands for the layout. */
  ghost predicate Stands(block: Bytes, layout: Layout) {
    var num := |layout.heads|;
    && |block| >= 4 * num + 4 && num + 1 < WORD
    && DecodeFixed32(block[|block| - 4..]) == num
    && Laid(block, |block| - 4 * num - 4, num, layout)
  }

  /** Entry `i` is read back from its place. */
  lemma {:induction false} EntryAt(data: Bytes, restarts: nat, num: nat, layout: Layout, i: nat)
    requires Laid(data, restarts, num, layout) && i < |layout.pairs|
    ensures var it := layout.items[i];
            var p := layout.starts[i];
            var q := p + |Header(it)|;
            && p < restarts && layout.starts[i + 1] <= restarts
            && layout.starts[i + 1] == q + |it.delta| + |it.value|
            && DecodeEntry(data[..restarts], p) == Some(Decoded(it.shared, |it.delta|, |it.value|, q))
            && data[q..q + |it.delta|] == it.delta
            && data[q + |it.delta|..layout.starts[i + 1]] == it.value
  {
    hide DecodeEntry, Header, AtPos;
    var body := data[..restarts];
    assert layout.Stored(body, i);
    var it := layout.items[i];
    var q := layout.starts[i] + |Header(it)|;
    layout.Order(body, i, i + 1);
    EntryRoundTrip(body, layout.starts[i], it);
    AtSlice(body, q, it.delta);
    AtSlice(body, q + |it.delta|, it.value);
    assert data[q..q + |it.delta|] == body[q..q + |it.delta|];
    assert data[q + |it.delta|..layout.starts[i + 1]] == body[q + |it.delta|..q + |it.delta| + |it.value|];
  }

  datatype Status = Ok | Corruption

  /** Block::Iter.  `layout` is what the bytes stand for, if the block was made by a builder. */
  class Iter {
    const data: Bytes
    const restarts: nat
    const num: nat
    const less: Order
    ghost const layout: Option<Layout>
    var current: nat
    var restartIndex: nat
    var key: Bytes
    var valueStart: nat
    var valueEnd: nat
    var status: Status
    /** The pair that the iterator is at; their number when it is not valid. */
    ghost var index: nat

    predicate Valid()
      reads `current
    {
      current < restarts
    }

    /** The offset of the next entry, in 32 bits. */
    function NextEntryOffset(): Word
      reads `valueEnd
    {
      Truncate32(valueEnd)
    }

    ghost predicate IsLaid() {
      layout.Some? && Laid(data, restarts, num, layout.value)
    }

    ghost predicate Wf()
      reads this
    {
      && num > 0 && restarts + 4 * num + 4 <= |data| && restarts < WORD
      && (layout.Some? ==> IsLaid())
      && (Valid() ==> restartIndex < num && current < NextEntryOffset() <= restarts && valueStart <= valueEnd)
      && (layout.Some? ==> if Valid() then At(index) else index == |layout.value.pairs|)
    }

    /** The fields hold pair `i`. */
    ghost predicate At(i: nat)
      requires IsLaid()
      reads this
    {
      var l := layout.value;
      && i < |l.pairs| && current == l.starts[i] && valueEnd == l.starts[i + 1]
      && key == l.pairs[i].key
      && valueStart <= valueEnd <= |data| && data[valueStart..valueEnd] == l.pairs[i].value
      && restartIndex < num && l.Head(restartIndex) && l.heads[restartIndex] <= i
    }

    /** The next entry to parse is pair `i`, and the key that is there fits it. */
    ghost predicate Ready(i: nat)
      requires IsLaid()
      reads this
    {
      var l := layout.value;
      && i <= |l.pairs| && valueEnd == l.starts[i]
      && restartIndex < num && l.Head(restartIndex) && l.heads[restartIndex] <= i
      && (i < |l.pairs| ==>
            && l.items[i].shared <= |key|
            && l.pairs[i] == Pair(key[..l.items[i].shared] + l.items[i].delta, l.items[i].value))
    }

    constructor (data: Bytes, restarts: nat, num: nat, less: Order, ghost layout: Option<Layout>)
      requires num > 0 && restarts + 4 * num + 4 <= |data| && restarts < WORD
      requires layout.Some? ==> Laid(data, restarts, num, layout.value)
      ensures Wf() && !Valid() && status == Ok && this.data == data && this.layout == layout && this.less == less
      ensures this.restarts == restarts && this.num == num
    {
      this.data, this.restarts, this.num, this.less, this.layout := data, restarts, num, less, layout;
      current, restartIndex, key, valueStart, valueEnd := restarts, num, [], 0, 0;
      status, index := Ok, if layout.Some? then |layout.value.pairs| else 0;
    }

    lemma {:induction false} NextReady(i: nat)
      requires IsLaid() && At(i)
      ensures Ready(i + 1)
    {
      var l := layout.value;
      if i + 1 < |l.pairs| {
        assert l.Stored(data[..restarts], i + 1);
      }
    }

    method SeekToRestartPoint(k: nat)
      requires num > 0 && restarts + 4 * num + 4 <= |data| && k < num
      modifies `key, `restartIndex, `valueStart, `valueEnd
      ensures key == [] && restartIndex == k && valueEnd == RestartPoint(data, restarts, k)
      ensures IsLaid() ==> Ready(layout.value.heads[k])
    {
      key := [];
      restartIndex := k;
      valueStart, valueEnd := RestartPoint(data, restarts, k), RestartPoint(data, restarts, k);
      if IsLaid() {
        var l := layout.value;
        assert l.Head(k);
        if l.heads[k] < |l.pairs| {
          assert l.Stored(data[..restarts], l.heads[k]);
        }
      }
    }

    method CorruptionError()
      modifies `current, `restartIndex, `status, `key, `valueStart, `valueEnd
      ensures current == restarts && restartIndex == num && status == Corruption
    {
      current, restartIndex, status, key, valueStart, valueEnd := restarts, num, Corruption, [], 0, 0;
    }

    /** Move on to the restart point before the current entry. */
    method AdvanceRestart()
      requires num > 0 && restarts + 4 * num + 4 <= |data| && restartIndex < num
      modifies `restartIndex
      ensures old(restartIndex) <= restartIndex < num
      ensures restartIndex > old(restartIndex) ==> RestartPoint(data, restarts, restartIndex) < current
    {
      while restartIndex + 1 < num && RestartPoint(data, restarts, restartIndex + 1) < current
        invariant old(restartIndex) <= restartIndex < num
        invariant restartIndex > old(restartIndex) ==> RestartPoint(data, restarts, restartIndex) < current
      {
        restartIndex := restartIndex + 1;
      }
    }

    /** The `n` bytes from offset `p` on; past the block they are whatever is in memory there. */
    method ReadMemory(p: nat, n: nat) returns (b: Bytes)
      ensures |b| == n && forall i :: 0 <= i < n && p + i < |data| ==> b[i] == data[p + i]
    {
      b := [];
      while |b| < n
        invariant |b| <= n && forall i :: 0 <= i < |b| && p + i < |data| ==> b[i] == data[p + i]
      {
        var other: Byte := *;
        if p + |b| < |data| {
          other := data[p + |b|];
        }
        b := b + [other];
      }
    }

    /** The entry after the current value. */
    ghost function NextEntry(): Option<Decoded>
      requires restarts <= |data|
      reads `valueEnd
    {
      EntryFrom(NextEntryOffset())
    }

    ghost function EntryFrom(p: nat): Option<Decoded>
      requires restarts <= |data|
    {
      if p < restarts then DecodeEntry(data[..restarts], p) else None
    }

    /** The key and the value of an accepted entry; the key may come from past the block. */
    method TakeEntry(d: Decoded)
      requires restarts <= |data| && restarts < WORD && d.shared <= |key|
      requires exists p :: DecodeEntry(data[..restarts], p) == Some(d)
      modifies `key, `valueStart, `valueEnd
      ensures |key| == d.shared + d.nonShared && key[..d.shared] == old(key)[..d.shared]
      ensures valueStart == d.pos + d.nonShared && valueEnd == valueStart + d.valueLength
      ensures NextEntryOffset() == d.pos + Truncate32(d.nonShared + d.valueLength) <= restarts
      ensures valueEnd <= restarts <==> d.nonShared + d.valueLength < WORD
      ensures valueEnd <= restarts ==> key[d.shared..] == data[d.pos..valueStart]
    {
      hide Truncate32, DecodeLengths;
      ghost var p :| DecodeEntry(data[..restarts], p) == Some(d);
      EntryEndsInside(data[..restarts], p);
      var delta := ReadMemory(d.pos, d.nonShared);
      key := key[..d.shared] + delta;
      valueStart := d.pos + d.nonShared;
      valueEnd := valueStart + d.valueLength;
      NextOffset(d.pos, d.nonShared + d.valueLength);
      assert valueEnd <= restarts ==> delta == data[d.pos..valueStart];
    }

    /** Parse the entry after the current value; `i` is its number if the block is laid out.  On any bytes the next
        entry is further on; the key and the value are inside the entries exactly if the lengths do not wrap around. */
    method ParseNextKey(ghost i: nat) returns (ok: bool)
      requires num > 0 && restarts + 4 * num + 4 <= |data| && restarts < WORD && restartIndex < num
      modifies `current, `restartIndex, `status, `key, `valueStart, `valueEnd
      ensures ok <==> old(NextEntry()).Some? && old(NextEntry()).value.shared <= old(|key|)
      ensures ok ==> var d := old(NextEntry()).value;
                     && current == old(NextEntryOffset()) < NextEntryOffset() <= restarts && restartIndex < num
                     && |key| == d.shared + d.nonShared && key[..d.shared] == old(key)[..d.shared]
                     && valueStart == d.pos + d.nonShared && valueEnd == valueStart + d.valueLength
                     && (valueEnd <= restarts <==> d.nonShared + d.valueLength < WORD)
                     && (valueEnd <= restarts ==> key[d.shared..] == data[d.pos..valueStart])
      ensures !ok ==> current == restarts
      ensures IsLaid() && old(Ready(i)) ==>
        (ok <==> i < |layout.value.pairs|) && (ok ==> At(i)) && status == old(status)
    {
      hide Layout.Wf, DecodeEntry, Header, Layout.Stored;
      if IsLaid() && Ready(i) {
        ParsesTo(i);
      }
      current := NextEntryOffset();
      if current >= restarts {
        current, restartIndex := restarts, num;
        return false;
      }
      var d := DecodeEntry(data[..restarts], current);
      if d.None? || |key| < d.value.shared {
        CorruptionError();
        return false;
      }
      TakeEntry(d.value);
      AdvanceRestart();
      if IsLaid() && old(Ready(i)) {
        assert layout.value.Head(restartIndex);
        layout.value.Order(data[..restarts], layout.value.heads[restartIndex], i);
      }
      return true;
    }

    lemma {:induction false} NextOffset(p: nat, n: nat)
      requires p + Truncate32(n) < WORD
      ensures Truncate32(p + n) == p + Truncate32(n)
    {
      var q := n / 0x1_0000_0000;
      assert n == q * 0x1_0000_0000 + n % 0x1_0000_0000;
      assert p + n == q * 0x1_0000_0000 + (p + n % 0x1_0000_0000);
    }

    /** The bytes of the value. */
    method Value() returns (value: Bytes)
      requires Wf() && Valid()
      ensures |value| == valueEnd - valueStart
      ensures layout.Some? ==> value == layout.value.pairs[index].value
    {
      value := ReadMemory(valueStart, valueEnd - valueStart);
      assert layout.Some? ==> value == data[valueStart..valueEnd];
    }

    lemma {:induction false} ParsesTo(i: nat)
      requires IsLaid() && Ready(i)
      ensures NextEntryOffset() == valueEnd && (valueEnd < restarts <==> i < |layout.value.pairs|)
      ensures i < |layout.value.pairs| ==>
        var l := layout.value;
        var d := DecodeEntry(data[..restarts], valueEnd);
        && d.Some? && d.value.shared <= |key|
        && var p, q := d.value.pos, d.value.pos + d.value.nonShared;
        && q + d.value.valueLength == l.starts[i + 1] <= restarts
        && key[..d.value.shared] + data[p..q] == l.pairs[i].key
        && data[q..q + d.value.valueLength] == l.pairs[i].value
    {
      var l := layout.value;
      l.Order(data[..restarts], i, |l.pairs|);
      if i < |l.pairs| {
        EntryAt(data, restarts, num, l, i);
      }
    }

    method Next()
      requires Wf() && Valid()
      modifies this
      ensures Wf() && (layout.Some? ==> index == old(index) + 1 && status == old(status))
    {
      if layout.Some? {
        NextReady(index);
      }
      var _ := ParseNextKey(index + 1);
      index := index + 1;
    }

    method SeekToFirst()
      requires Wf()
      modifies this
      ensures Wf() && (layout.Some? ==> index == 0 && status == old(status))
      // on any bytes: where the first entry ends up
      ensures var d := EntryFrom(RestartPoint(data, restarts, 0));
              && (Valid() <==> d.Some? && d.value.shared == 0)
              && (Valid() ==> |key| == d.value.nonShared && valueStart == d.value.pos + d.value.nonShared)
    {
      SeekToRestartPoint(0);
      assert layout.Some? ==> layout.value.Head(0);
      var _ := ParseNextKey(0);
      index := 0;
    }

    /** Skip entries up to the last one that ends before `limit`, or the first after it. */
    method SkipTo(limit: nat, ghost i: nat, ghost goal: nat)
      requires num > 0 && restarts + 4 * num + 4 <= |data| && restarts < WORD && restartIndex < num && limit <= restarts
      requires layout.Some? ==> IsLaid() && Ready(i)
      requires layout.Some? ==> i <= goal <= |layout.value.pairs| && layout.value.starts[goal] == limit
      modifies this
      ensures Wf()
      ensures layout.Some? ==> index == (if i < goal then goal - 1 else i) && status == old(status)
    {
      hide DecodeEntry, Header, Layout.Stored, Iter.NextEntry, Truncate32;
      index := i;
      var ok := ParseNextKey(index);
      if layout.Some? {
        layout.value.Order(data[..restarts], goal, |layout.value.pairs|);
      }
      while ok && NextEntryOffset() < limit
        invariant ok ==> Valid()
        invariant Wf()
        invariant layout.Some? ==> status == old(status) && (ok <==> index < |layout.value.pairs|)
        invariant layout.Some? ==> index == i || index < goal
        decreases ok, restarts - NextEntryOffset()
      {
        if layout.Some? {
          NextReady(index);
          layout.value.Order(data[..restarts], index + 1, goal);
        }
        index := index + 1;
        ok := ParseNextKey(index);
      }
      if layout.Some? && ok {
        layout.value.Order(data[..restarts], index + 1, goal);
      }
    }

    method SeekToLast()
      requires Wf()
      modifies this
      ensures Wf()
      ensures layout.Some? ==>
        && status == old(status)
        && index == if |layout.value.pairs| == 0 then 0 else |layout.value.pairs| - 1
    {
      SeekToRestartPoint(num - 1);
      ghost var i, goal := 0, 0;
      if layout.Some? {
        i, goal := layout.value.heads[num - 1], |layout.value.pairs|;
        assert layout.value.Head(num - 1);
      }
      SkipTo(restarts, i, goal);
    }

    method Prev()
      requires Wf() && Valid()
      modifies this
      ensures Wf()
      ensures layout.Some? ==>
        && status == old(status)
        && index == if old(index) == 0 then |layout.value.pairs| else old(index) - 1
    {
      var original := current;
      while RestartPoint(data, restarts, restartIndex) >= original
        invariant restartIndex < num && num > 0 && restarts + 4 * num + 4 <= |data|
        invariant current == original && status == old(status) && index == old(index)
        invariant layout.Some? ==> IsLaid() && index < |layout.value.pairs| && original == layout.value.starts[index]
        invariant layout.Some? ==> layout.value.Head(restartIndex) && layout.value.heads[restartIndex] <= index
        decreases restartIndex
      {
        if layout.Some? {
          layout.value.Order(data[..restarts], layout.value.heads[restartIndex], index);
        }
        if restartIndex == 0 {
          current, restartIndex := restarts, num;
          index := if layout.Some? then |layout.value.pairs| else 0;
          return;
        }
        restartIndex := restartIndex - 1;
        assert layout.Some? ==> layout.value.Head(restartIndex);
      }
      ghost var i, goal := 0, index;
      if layout.Some? {
        i := layout.value.heads[restartIndex];
        layout.value.Order(data[..restarts], i, index);
      }
      SeekToRestartPoint(restartIndex);
      SkipTo(original, i, goal);
    }

    /** All entries before `i` come before `target`. */
    ghost predicate Below(i: nat, target: Bytes)
      requires layout.Some? && i <= |layout.value.pairs|
    {
      forall j :: 0 <= j < i ==> less(layout.value.pairs[j].key, target)
    }

    ghost predicate Searchable() {
      layout.Some? && layout.value.SortedBy(less) && Transitive(less)
    }

    lemma {:induction false} BelowKey(i: nat, target: Bytes)
      requires Searchable() && i < |layout.value.pairs| && less(layout.value.pairs[i].key, target)
      ensures Below(i, target) && Below(i + 1, target)
    {
      var l := layout.value;
      forall j | 0 <= j < i ensures less(l.pairs[j].key, target) {
        assert less(l.pairs[j].key, l.pairs[i].key);
      }
    }

    /** The key at a restart point is stored whole. */
    lemma {:induction false} WholeKey(k: nat)
      requires IsLaid() && k < num
      ensures layout.value.Head(k)
      ensures layout.value.heads[k] < |layout.value.pairs| ==>
        var d := DecodeEntry(data[..restarts], RestartPoint(data, restarts, k));
        && d.Some? && d.value.shared == 0 && d.value.pos + d.value.nonShared <= restarts
        && data[d.value.pos..d.value.pos + d.value.nonShared] == layout.value.pairs[layout.value.heads[k]].key
    {
      hide DecodeEntry, Header, RestartPoint;
      var l := layout.value;
      var offset := RestartPoint(data, restarts, k);
      assert l.Head(k) && offset == l.starts[l.heads[k]];
      var i := l.heads[k];
      if i < |l.pairs| {
        EntryAt(data, restarts, num, l, i);
        assert l.Stored(data[..restarts], i);
      }
    }

    /** The binary search: the last restart point whose key comes before `target`, or the first. */
    method FindRestart(target: Bytes) returns (left: Option<nat>)
      requires Wf()
      modifies `current, `restartIndex, `status, `key, `valueStart, `valueEnd
      ensures left.Some? ==> left.value < num && status == old(status)
      ensures left.None? ==> current == restarts
      ensures layout.Some? ==> left.Some?
      ensures Searchable() && left.Some? ==>
        layout.value.Head(left.value) && Below(layout.value.heads[left.value], target)
    {
      hide DecodeEntry, Layout.SortedBy, Transitive, Header;
      var lo, hi := 0, num - 1;
      assert layout.Some? ==> layout.value.Head(0);
      while lo < hi
        invariant 0 <= lo <= hi < num
        invariant status == old(status)
        invariant Searchable() ==> layout.value.Head(lo) && Below(layout.value.heads[lo], target)
      {
        var mid := (lo + hi + 1) / 2;
        var d := DecodeEntry(data[..restarts], RestartPoint(data, restarts, mid));
        if layout.Some? {
          WholeKey(mid);
        }
        if d.None? || d.value.shared != 0 {
          CorruptionError();
          return None;
        }
        var midKey := ReadMemory(d.value.pos, d.value.nonShared);
        assert layout.Some? ==> midKey == data[d.value.pos..d.value.pos + d.value.nonShared];
        if less(midKey, target) {
          if Searchable() {
            BelowKey(layout.value.heads[mid], target);
          }
          lo := mid;
        } else {
          hi := mid - 1;
        }
      }
      return Some(lo);
    }

    /** Skip entries whose keys come before `target`. */
    method SkipBefore(target: Bytes, ghost i: nat)
      requires num > 0 && restarts + 4 * num + 4 <= |data| && restarts < WORD && restartIndex < num
      requires layout.Some? ==> IsLaid() && Ready(i)
      requires Searchable() ==> Below(i, target)
      modifies this
      ensures Wf() && (layout.Some? ==> status == old(status))
      ensures Searchable() ==> index <= |layout.value.pairs| && Below(index, target)
      ensures Searchable() && Valid() ==> !less(layout.value.pairs[index].key, target)
    {
      hide DecodeEntry, Header, Transitive, Layout.SortedBy, Layout.Wf;
      index := i;
      var ok := ParseNextKey(index);
      while ok && less(key, target)
        invariant Wf() && (ok ==> Valid())
        invariant layout.Some? ==> status == old(status) && (ok <==> index < |layout.value.pairs|)
        invariant Searchable() ==> Below(index, target)
        decreases ok, restarts - NextEntryOffset()
      {
        if layout.Some? {
          NextReady(index);
        }
        if Searchable() {
          BelowKey(index, target);
        }
        index := index + 1;
        ok := ParseNextKey(index);
      }
    }

    /** Position at the first key that does not come before `target`. */
    method Seek(target: Bytes)
      requires Wf()
      modifies this
      ensures Wf() && (layout.Some? ==> status == old(status))
      ensures Searchable() ==> index <= |layout.value.pairs| && Below(index, target)
      ensures Searchable() && Valid() ==> !less(layout.value.pairs[index].key, target)
    {
      hide DecodeEntry, Header, Transitive, Layout.SortedBy, Layout.Wf;
      var left := FindRestart(target);
      if left.None? {
        return;
      }
      SeekToRestartPoint(left.value);
      assert layout.Some? ==> layout.value.Head(left.value);
      SkipBefore(target, if layout.Some? then layout.value.heads[left.value] else 0);
    }
  }

  // ----- Building -----

  /** One more entry at the end, a restart point if `restart` says so. */
  lemma {:induction false} AppendEntry(layout: Layout, body: Bytes, pair: Pair, it: Item, restart: bool) returns (more: Layout)
    requires layout.Wf(body) && Small(it) && it.shared <= |layout.Previous(|layout.pairs|)|
    requires pair == Pair(layout.Previous(|layout.pairs|)[..it.shared] + it.delta, it.value)
    requires restart ==> |layout.pairs| > 0 && it.shared == 0
    ensures more == Layout(layout.pairs + [pair], layout.items + [it], layout.starts + [|body + EncodeItem(it)|],
                           if restart then layout.heads + [|layout.pairs|] else layout.heads)
    ensures more.Wf(body + EncodeItem(it))
  {
    var after := body + EncodeItem(it);
    var n := |layout.pairs|;
    more := Layout(layout.pairs + [pair], layout.items + [it], layout.starts + [|after|],
                   if restart then layout.heads + [n] else layout.heads);
    forall i | 0 <= i < n + 1 ensures more.Stored(after, i) {
      if i < n {
        assert layout.Stored(body, i);
        AtPrefix(body, EncodeItem(it), layout.starts[i], EncodeItem(layout.items[i]));
        assert more.Previous(i) == layout.Previous(i);
      } else {
        AtEnd(body, EncodeItem(it));
        assert more.Previous(n) == layout.Previous(n);
      }
    }
    assert layout.Head(|layout.heads| - 1);
    forall k | 0 <= k < |more.heads| ensures more.Head(k) {
      assert k < |layout.heads| ==> layout.Head(k);
    }
  }

  /** The builder's fields stand for the pairs, with a restart point every `interval` pairs. */
  ghost predicate Built(interval: nat, buffer: Bytes, restarts: seq<nat>, counter: nat, lastKey: Bytes, layout: Layout) {
    && interval >= 1 && layout.Wf(buffer)
    && lastKey == layout.Previous(|layout.pairs|)
    && |restarts| == |layout.heads|
    && (forall k {:trigger RestartAt(interval, restarts, layout, k)} :: 0 <= k < |restarts| ==>
          RestartAt(interval, restarts, layout, k))
    && |layout.pairs| == layout.heads[|restarts| - 1] + counter && counter <= interval
    && (|layout.pairs| > 0 ==> counter > 0)
  }

  ghost predicate RestartAt(interval: nat, restarts: seq<nat>, layout: Layout, k: nat)
    requires k < |restarts| == |layout.heads|
  {
    && layout.Head(k) && layout.heads[k] < |layout.starts| && restarts[k] == layout.starts[layout.heads[k]]
    && (k > 0 ==> layout.heads[k] == layout.heads[k - 1] + interval)
  }

  lemma {:induction false} BuiltNext(interval: nat, buffer: Bytes, restarts: seq<nat>, counter: nat, lastKey: Bytes,
                                     layout: Layout, key: Bytes, it: Item) returns (more: Layout)
    requires Built(interval, buffer, restarts, counter, lastKey, layout)
    requires Small(it) && it.shared <= |lastKey| && key == lastKey[..it.shared] + it.delta
    requires counter == interval ==> it.shared == 0
    ensures more.pairs == layout.pairs + [Pair(key, it.value)]
    ensures if counter == interval
            then Built(interval, buffer + EncodeItem(it), restarts + [|buffer|], 1, key, more)
            else Built(interval, buffer + EncodeItem(it), restarts, counter + 1, key, more)
  {
    var restart := counter == interval;
    more := AppendEntry(layout, buffer, Pair(key, it.value), it, restart);
    var restarts' := if restart then restarts + [|buffer|] else restarts;
    assert RestartAt(interval, restarts, layout, |restarts| - 1);
    forall k | 0 <= k < |restarts'| ensures RestartAt(interval, restarts', more, k) {
      if k < |restarts| {
        assert RestartAt(interval, restarts, layout, k);
      }
      assert more.Head(k);
    }
  }

  lemma {:induction false} StartsGrow(layout: Layout, body: Bytes, i: nat)
    requires layout.Wf(body) && i <= |layout.pairs|
    ensures layout.starts[i] >= i
  {
    if i > 0 {
      StartsGrow(layout, body, i - 1);
      assert layout.Stored(body, i - 1);
    }
  }

  lemma {:induction false} HeadsGrow(layout: Layout, body: Bytes, k: nat)
    requires layout.Wf(body) && k < |layout.heads|
    ensures layout.heads[k] >= k && layout.Head(k)
  {
    assert layout.Head(k);
    if k > 0 {
      HeadsGrow(layout, body, k - 1);
    }
  }

  /** All offsets of a block under 4 GB fit the restart array, and so does their number. */
  lemma {:induction false} RestartsFit(interval: nat, buffer: Bytes, restarts: seq<nat>, counter: nat, lastKey: Bytes,
                                       layout: Layout)
    requires Built(interval, buffer, restarts, counter, lastKey, layout) && |buffer| < WORD - 1
    ensures SmallWords(restarts) && |restarts| + 1 < WORD
  {
    forall k | 0 <= k < |restarts| ensures restarts[k] < WORD {
      assert RestartAt(interval, restarts, layout, k);
      layout.Order(buffer, layout.heads[k], layout.heads[k]);
    }
    HeadsGrow(layout, buffer, |restarts| - 1);
    StartsGrow(layout, buffer, |layout.pairs|);
  }

  lemma {:induction false} BlockIsLaid(interval: nat, buffer: Bytes, restarts: seq<nat>, counter: nat, lastKey: Bytes,
                                       layout: Layout, tail: Bytes)
    requires Built(interval, buffer, restarts, counter, lastKey, layout) && SmallWords(restarts) && |tail| == 4
    requires |buffer| < WORD
    ensures var block := buffer + WordArray(restarts) + tail;
            && |block| == |buffer| + 4 * |restarts| + 4
            && Laid(block, |buffer|, |layout.heads|, layout)
            && block[|block| - 4..] == tail
  {
    assert |restarts| > 0;
    hide Truncate32, Fixed32, DecodeFixed32, WordArray, Layout.Wf;
    WordArrayAt(restarts, 0);
    var middle := WordArray(restarts);
    var block := buffer + middle + tail;
    assert block[..|buffer|] == buffer;
    forall k | 0 <= k < |restarts|
      ensures RestartAt(interval, restarts, layout, k)
      ensures RestartPoint(block, |buffer|, k) == layout.starts[layout.heads[k]]
    {
      assert RestartAt(interval, restarts, layout, k);
      WordArrayAt(restarts, k);
      assert block[|buffer| + 4 * k..|buffer| + 4 * k + 4] == middle[4 * k..4 * k + 4];
      Fixed32RoundTrip(restarts[k]);
    }
  }

  class BlockBuilder {
    const interval: nat
    const less: Order
    var buffer: Bytes
    var restarts: seq<nat>
    var counter: nat
    var lastKey: Bytes
    var finished: bool
    ghost var layout: Layout

    ghost predicate Wf()
      reads this
    {
      Built(interval, buffer, restarts, counter, lastKey, layout)
    }

    constructor (interval: nat, less: Order)
      requires interval >= 1
      ensures Wf() && layout.pairs == [] && buffer == [] && !finished
      ensures this.interval == interval && this.less == less
    {
      this.interval, this.less := interval, less;
      buffer, restarts, counter, lastKey, finished := [], [0], 0, [], false;
      layout := Layout([], [], [0], [0]);
    }

    /** The length of the common prefix. */
    /** The first `n` bytes are the same, and no more. */
    static predicate SharesMost(a: Bytes, b: Bytes, n: nat) {
      && n <= |a| && n <= |b| && a[..n] == b[..n]
      && (n < |a| && n < |b| ==> a[n] != b[n])
    }

    static method Shared(a: Bytes, b: Bytes) returns (shared: nat)
      ensures SharesMost(a, b, shared)
    {
      var minLength := if |a| < |b| then |a| else |b|;
      shared := 0;
      while shared < minLength && a[shared] == b[shared]
        invariant shared <= minLength && a[..shared] == b[..shared]
      {
        shared := shared + 1;
      }
    }

    method Add(key: Bytes, value: Bytes)
      requires Wf() && !finished && |key| < WORD && |value| < WORD
      requires |layout.pairs| > 0 ==> less(lastKey, key)
      modifies `buffer, `restarts, `counter, `lastKey, `layout
      ensures Wf() && layout.pairs == old(layout.pairs) + [Pair(key, value)]
      ensures old(buffer) <= buffer && |buffer| <= |old(buffer)| + |key| + |value| + 15
      // the key is stored without what it shares with the last one, or whole at a restart point
      ensures exists shared: nat :: shared <= |key| && buffer == old(buffer) + EncodeItem(Item(shared, key[shared..], value)) &&
                if old(counter) < interval then SharesMost(old(lastKey), key, shared) else shared == 0
    {
      var shared: nat := 0;
      if counter < interval {
        shared := Shared(lastKey, key);
      }
      AddItem(key, value, shared);
    }

    /** The key without its first `shared` bytes. */
    method AddItem(key: Bytes, value: Bytes, shared: nat)
      requires Wf() && !finished && |key| < WORD && |value| < WORD
      requires |layout.pairs| > 0 ==> less(lastKey, key)
      requires shared <= |key| && shared <= |lastKey| && lastKey[..shared] == key[..shared] && (counter >= interval ==> shared == 0)
      modifies `buffer, `restarts, `counter, `lastKey, `layout
      ensures Wf() && layout.pairs == old(layout.pairs) + [Pair(key, value)]
      ensures buffer == old(buffer) + EncodeItem(Item(shared, key[shared..], value))
      ensures |buffer| <= |old(buffer)| + |key| + |value| + 15
    {
      ghost var it := Item(shared, key[shared..], value);
      assert lastKey[..shared] + key[shared..] == key;
      layout := BuiltNext(interval, buffer, restarts, counter, lastKey, layout, key, it);
      if counter == interval {
        restarts := restarts + [|buffer|];
        counter := 0;
      }
      var nonShared := |key| - shared;
      Varint32Size(shared);
      Varint32Size(nonShared);
      Varint32Size(|value|);
      buffer := buffer + (Varint(shared) + Varint(nonShared) + Varint(|value|) + key[shared..] + value);
      lastKey := lastKey[..shared] + key[shared..];
      counter := counter + 1;
    }

    /** The block: the entries, the restart array and its length.  Offsets have 32 bits, so the entries
        must be smaller than 4 GB. */
    method Finish() returns (block: Bytes)
      requires Wf() && !finished
      modifies `finished
      ensures finished && |block| == CurrentSizeEstimate() == old(CurrentSizeEstimate())
      ensures |buffer| < WORD - 1 ==> Stands(block, layout)
    {
      block := buffer;
      var i := 0;
      while i < |restarts|
        invariant 0 <= i <= |restarts|
        invariant block == buffer + WordArray(restarts[..i])
      {
        assert restarts[..i + 1][..i] == restarts[..i];
        block := block + Fixed32(Truncate32(restarts[i]));
        i := i + 1;
      }
      assert restarts[..i] == restarts;
      finished := true;
      block := block + Fixed32(Truncate32(|restarts|));
      WordArrayAt(restarts, 0);
      if |buffer| < WORD - 1 {
        RestartsFit(interval, buffer, restarts, counter, lastKey, layout);
        BlockIsLaid(interval, buffer, restarts, counter, lastKey, layout, Fixed32(|restarts|));
        Fixed32RoundTrip(|restarts|);
      }
    }

    method Reset()
      requires interval >= 1
      modifies this
      ensures Wf() && layout.pairs == [] && !finished && buffer == []
    {
      buffer, restarts, counter, lastKey, finished := [], [0], 0, [], false;
      layout := Layout([], [], [0], [0]);
    }

    /** What Finish would return. */
    function CurrentSizeEstimate(): nat
      reads `buffer, `restarts
    {
      |buffer| + 4 * |restarts| + 4
    }

    predicate Empty()
      reads `buffer
    {
      buffer == []
    }

    lemma {:induction false} EmptyMeansNoPairs()
      requires Wf()
      ensures Empty() <==> layout.pairs == []
    {
      StartsGrow(layout, buffer, |layout.pairs|);
    }
  }

  // ----- Opening a block -----

  /** The constructor of Block and NewIterator: where the restart array is, unless the contents
      cannot be a block, and no iterator positions if there are no restart points. */
  method OpenBlock(data: Bytes) returns (place: Option<(Word, nat)>)
    ensures place.Some? <==> |data| >= 4 && 4 * DecodeFixed32(data[|data| - 4..]) + 4 <= |data|
    ensures place.Some? ==>
      && place.value.1 == DecodeFixed32(data[|data| - 4..])
      && place.value.0 + 4 * place.value.1 + 4 <= |data|
      && (place.value.1 + 1 < WORD ==> place.value.0 == Truncate32(|data| - 4 * place.value.1 - 4))
  {
    if |data| < 4 {
      return None;
    }
    var num := DecodeFixed32(data[|data| - 4..]);
    var maxRestartsAllowed := (|data| - 4) / 4;
    if num > maxRestartsAllowed {
      return None;
    }
    return Some((Truncate32(|data| - Truncate32(1 + num) * 4), num));
  }

  /** Block::NewIterator: no iterator if the contents are not a block, or have no restart points. */
  method NewIterator(data: Bytes, less: Order, ghost layout: Option<Layout>) returns (iter: Iter?, ok: bool)
    requires layout.Some? ==> Stands(data, layout.value)
    ensures iter != null ==> fresh(iter) && iter.Wf() && !iter.Valid() && iter.status == Ok
    ensures iter != null ==> iter.data == data && iter.less == less && iter.layout == layout
    ensures iter != null <==> |data| >= 4 && 0 < DecodeFixed32(data[|data| - 4..]) <= (|data| - 4) / 4
    ensures iter != null && |data| < WORD ==> iter.restarts == |data| - 4 * DecodeFixed32(data[|data| - 4..]) - 4
    ensures layout.Some? ==> iter != null && ok
    // a block without restart points is empty, and any other place for them is a corruption
    ensures iter == null ==> (ok <==> |data| >= 4 && DecodeFixed32(data[|data| - 4..]) == 0)
  {
    var place := OpenBlock(data);
    if place.None? {
      return null, false;
    }
    var (restarts, num) := place.value;
    if num == 0 {
      return null, true;
    }
    iter := new Iter(data, restarts, num, less, layout);
    ok := true;
  }

  /** A block of sixteen bytes whose first key is read from 4 GB of memory. */
  method ReadsPastTheBlock(less: Order) returns (block: Bytes, key: Bytes)
    ensures |block| == 16 && |key| == 0xffff_ffff
  {
    hide DecodeEntry;
    block := OVERLONG + Fixed32(0) + Fixed32(1);
    Fixed32RoundTrip(0);
    Fixed32RoundTrip(1);
    assert block[8..12] == Fixed32(0) && block[12..] == Fixed32(1);
    var iter, _ := NewIterator(block, less, None);
    assert block[..8] == OVERLONG;
    OverlongIsAccepted();
    iter.SeekToFirst();
    key := iter.key;
  }

  /** A block read from its first entry to its last. */
  method ReadBlock(data: Bytes, less: Order, ghost layout: Layout) returns (pairs: seq<Pair>)
    requires Stands(data, layout)
    ensures pairs == layout.pairs
  {
    hide Stands, DecodeEntry, DecodeFixed32, RestartPoint, Iter.EntryFrom, Layout.Wf;
    var iter, _ := NewIterator(data, less, Some(layout));
    iter.SeekToFirst();
    pairs := [];
    while iter.Valid()
      invariant fresh(iter) && iter.Wf() && iter.layout == Some(layout) && iter.data == data
      invariant iter.index <= |layout.pairs| && pairs == layout.pairs[..iter.index]
      decreases |layout.pairs| - iter.index
    {
      var value := iter.Value();
      pairs := pairs + [Pair(iter.key, value)];
      iter.Next();
    }
  }

  /** An upper bound for the bytes of the entries. */
  function SizeBound(pairs: seq<Pair>): nat {
    if |pairs| == 0 then 0
    else SizeBound(pairs[..|pairs| - 1]) + |pairs[|pairs| - 1].key| + |pairs[|pairs| - 1].value| + 15
  }

  /** Iterating over the block that a builder made of pairs gives the pairs, if the entries are smaller than 4 GB. */
  method RoundTrip(interval: nat, less: Order, pairs: seq<Pair>) returns (result: seq<Pair>, fits: bool)
    requires interval >= 1
    requires forall i :: 0 <= i < |pairs| ==> |pairs[i].key| < WORD && |pairs[i].value| < WORD
    requires forall i :: 0 < i < |pairs| ==> less(pairs[i - 1].key, pairs[i].key)
    ensures fits ==> result == pairs
    ensures SizeBound(pairs) < WORD - 1 ==> fits
  {
    var builder := new BlockBuilder(interval, less);
    for i := 0 to |pairs|
      invariant fresh(builder) && builder.Wf() && !builder.finished && builder.layout.pairs == pairs[..i]
      invariant builder.less == less && |builder.buffer| <= SizeBound(pairs[..i])
    {
      assert pairs[..i + 1][..i] == pairs[..i];
      builder.Add(pairs[i].key, pairs[i].value);
    }
    assert pairs[..|pairs|] == pairs;
    fits := |builder.buffer| < WORD - 1;
    result := [];
    if fits {
      var block := builder.Finish();
      result := ReadBlock(block, less, builder.layout);
    }
  }
}
