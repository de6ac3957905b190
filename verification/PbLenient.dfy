/** Bytes that the encoder does not write and the decoder reads all the same. */
module PbLenient {
  import opened Coding
  import opened Common
  import opened PbParse
  import opened PbRoundTrips
  import opened PbWire

  // ----- Numbers of 64 bits where 32 are expected -----

  /** The group of seven bits at bit 7 * n. */
  function Group(v: nat, n: nat): nat {
    if n == 0 then v % 128 else Group(v / 128, n - 1)
  }

  predicate ZeroOrOnes(g: nat) { g == 0 || g == 127 }

  /** The groups from bit 35 on, of which the first is group `n` of what is left of the number. */
  ghost predicate SignGroups(w: nat, n: nat)
    requires n <= 5
  {
    forall i {:trigger Group(w, i)} :: n <= i <= n + 3 ==> ZeroOrOnes(Group(w, i))
  }

  lemma {:induction false} GroupsShift(w: nat, n: nat, i: nat)
    requires i > 0
    ensures Group(w, i) == Group(w / 128, i - 1)
  {
  }

  /** The first `count` groups of seven bits. */
  ghost predicate FirstGroups(w: nat, count: nat) {
    count > 0 ==> ZeroOrOnes(w % 128) && FirstGroups(w / 128, count - 1)
  }

  /** The groups past bit 32 of a number with bit 63, the last `9 - k` of which are left. */
  lemma {:induction false} HighRest(w: nat, rest: Bytes, result: Word, k: nat)
    requires 5 <= k <= 9 && Pow2(63 - 7 * k) <= w < Pow2(64 - 7 * k)
    ensures Varint32Rest(Varint(w) + rest, result, 7 * k) ==
            if result >= 0x8000_0000 && FirstGroups(w, 9 - k) then Some((result, rest)) else None
    decreases 9 - k
  {
    if k == 9 {
      assert Pow2(0) == 1 && Pow2(1) == 2 && w == 1;
      assert (Varint(1) + rest)[1..] == rest;
    } else {
      Pow2Seven(56 - 7 * k);
      Pow2Seven(57 - 7 * k);
      Positive(56 - 7 * k);
      VarintHead(w, rest);
      HighRest(w / 128, rest, result, k + 1);
    }
  }

  lemma {:induction false} AddMultiple(a: nat, b: nat)
    ensures (a + b * 0x8_0000_0000) % 0x1_0000_0000 == a % 0x1_0000_0000
    decreases b
  {
    if b > 0 {
      AddMultiple(a + 0x8_0000_0000, b - 1);
    }
  }

  /** The groups below bit 32 of a number with bit 63. */
  lemma {:induction false} LowRest(w: nat, rest: Bytes, result: Word, k: nat)
    requires 1 <= k <= 4 && result < Pow2(7 * k) && Pow2(63 - 7 * k) <= w < Pow2(64 - 7 * k)
    ensures var low := (result + w * Pow2(7 * k)) % 0x1_0000_0000;
            Varint32Rest(Varint(w) + rest, result, 7 * k) ==
            if low >= 0x8000_0000 && SignGroups(w, 5 - k) then Some((low, rest)) else None
    decreases 4 - k
  {
    hide Varint32Rest, Pow2;
    var b, p, low, high := Varint(w) + rest, Pow2(7 * k), w % 128, w / 128;
    SmallPowers();
    Pow2Seven(7 * k);
    Pow2Seven(56 - 7 * k);
    Pow2Seven(57 - 7 * k);
    Positive(56 - 7 * k);
    OneGroup(b, result, k);
    Below(result, low, p);
    VarintHead(w, rest);
    Spread(result, low, high, p);
    forall i | 5 - k <= i <= 8 - k ensures Group(w, i) == Group(high, i - 1) {
      GroupsShift(w, 5 - k, i);
    }
    if k < 4 {
      LowRest(high, rest, result + low * p, k + 1);
      SameGroups(w, high, 5 - k);
    } else {
      HighRest(high, rest, (result + low * p) % 0x1_0000_0000, 5);
      AddMultiple(result + low * p, high);
      SameHigh(w, high);
    }
  }

  lemma {:induction false} Positive(n: nat)
    ensures Pow2(n) >= 1
  {
    if n > 0 {
      Positive(n - 1);
    }
  }

  lemma {:induction false} SameGroups(w: nat, high: nat, n: nat)
    requires 2 <= n <= 5 && forall i :: n <= i <= n + 3 ==> Group(w, i) == Group(high, i - 1)
    ensures SignGroups(w, n) <==> SignGroups(high, n - 1)
  {
    if SignGroups(w, n) {
      forall i | n - 1 <= i <= n + 2 ensures ZeroOrOnes(Group(high, i)) {
        assert Group(w, i + 1) == Group(high, i);
      }
    }
  }

  lemma {:induction false} SameHigh(w: nat, high: nat)
    requires forall i :: 1 <= i <= 4 ==> Group(w, i) == Group(high, i - 1)
    ensures SignGroups(w, 1) <==> FirstGroups(high, 4)
  {
    var a := high / 128;
    var b := a / 128;
    assert Group(high, 0) == high % 128 && Group(high, 1) == a % 128;
    assert Group(high, 2) == Group(a, 1) == b % 128 && Group(high, 3) == Group(a, 2) == Group(b, 1) == b / 128 % 128;
    assert FirstGroups(b, 2) <==> ZeroOrOnes(b % 128) && ZeroOrOnes(b / 128 % 128) by {
      assert FirstGroups(b / 128, 1) <==> ZeroOrOnes(b / 128 % 128) && FirstGroups(b / 128 / 128, 0);
    }
    if SignGroups(w, 1) {
      assert ZeroOrOnes(Group(w, 1)) && ZeroOrOnes(Group(w, 2)) && ZeroOrOnes(Group(w, 3)) && ZeroOrOnes(Group(w, 4));
    }
  }

  /** Where 32 bits are expected, a varint of up to 64 bits is accepted exactly if it has 32 bits, or has bits 63 and 31
      and each of the four groups of seven bits from bit 35 on is all zeros or all ones; its low 32 bits are read. */
  lemma {:induction false} ReadVarint32Exactly(v: nat, rest: Bytes)
    requires v < LONG
    ensures ReadVarint32(Varint(v) + rest) ==
            if v < WORD then Some((v, rest))
            else if v >= LIMIT && v % WORD >= 0x8000_0000 && SignGroups(v, 5) then Some((v % WORD, rest))
            else None
  {
    if v < LIMIT {
      ReadVarint32Back(v, rest);
    } else {
      VarintHead(v, rest);
      SmallPowers();
      Pow2Of56();
      Pow2Seven(56);
      assert Pow2(57) == 2 * Pow2(56);
      var w := v / 128;
      LowRest(w, rest, v % 128, 1);
      forall i | 5 <= i <= 8 ensures Group(v, i) == Group(w, i - 1) {
        GroupsShift(v, 5, i);
      }
      SameGroups(v, w, 5);
    }
  }

  /** A negative number of 32 bits, sign-extended to 64 as the encoder writes it, is among them. */
  lemma {:induction false} NegativeIsRead(n: nat, rest: Bytes)
    requires 1 <= n <= 0x8000_0000
    ensures ReadVarint32(Varint(LONG - n) + rest) == Some((WORD - n, rest))
  {
    var v := LONG - n;
    hide ReadVarint32, Varint, SignGroups;
    ReadVarint32Exactly(v, rest);
    assert v % WORD == WORD - n by {
      assert v == 0xffff_ffff * WORD + (WORD - n);
    }
    OnesAbove(v);
  }

  lemma {:induction false} OnesAbove(v: nat)
    requires LONG - 0x8000_0000 <= v < LONG
    ensures SignGroups(v, 5)
  {
    var a := v / 128;
    var b := a / 128;
    var c := b / 128;
    var d := c / 128;
    var e := d / 128;
    assert e == 0x1fff_ffff;
    forall i | 5 <= i <= 8 ensures Group(v, i) == Group(e, i - 5) {
      assert Group(v, i) == Group(a, i - 1) == Group(b, i - 2) == Group(c, i - 3) == Group(d, i - 4);
    }
    assert Group(e, 0) == 127 && Group(e, 1) == Group(0x3f_ffff, 0) == 127;
    assert Group(e, 2) == Group(0x3f_ffff, 1) == Group(0x7fff, 0) == 127;
    assert Group(e, 3) == Group(0x3f_ffff, 2) == Group(0x7fff, 1) == Group(0xff, 0) == 127;
  }

  /** But so is a number that is far from any of 32 bits. */
  lemma {:induction false} OtherIsRead(rest: Bytes)
    ensures ReadVarint32(Varint(0x8000_0000_8000_0000) + rest) == Some((0x8000_0000, rest))
  {
    var v := 0x8000_0000_8000_0000;
    ReadVarint32Exactly(v, rest);
    var e := 0x1000_0000;
    assert v / 128 / 128 / 128 / 128 / 128 == e;
    forall i | 5 <= i <= 8 ensures Group(v, i) == Group(e, i - 5) {
      assert Group(v, i) == Group(v / 128, i - 1) == Group(v / 128 / 128, i - 2) == Group(v / 128 / 128 / 128, i - 3)
          == Group(v / 128 / 128 / 128 / 128, i - 4);
    }
    assert Group(e, 0) == 0 && Group(e, 1) == Group(0x20_0000, 0) == 0;
    assert Group(e, 2) == Group(0x20_0000, 1) == Group(0x4000, 0) == 0;
    assert Group(e, 3) == Group(0x20_0000, 2) == Group(0x4000, 1) == Group(0x80, 0) == 0;
  }

  // ----- Values and ends -----

  /** Any number but zero is true. */
  lemma {:induction false} AnyNumberIsTrue(n: nat, rest: Bytes)
    requires n < WORD
    ensures ReadLeaf(Boolean, Varint(n) + rest) == Some((Number(if n == 0 then 0 else 1), rest))
  {
    hide ReadVarint32, Varint;
    ReadVarint32Back(n, rest);
  }

  /** A text ends at its first zero. */
  lemma {:induction false} TextEndsAtZero(size: nat, data: Bytes, more: Bytes, rest: Bytes)
    requires 0 !in data && |data| + 1 + |more| < size && size < WORD
    ensures ReadLeaf(Text(size), Prefixed(data + [0] + more) + rest) == Some((Chars(data), rest))
  {
    var all := data + [0] + more;
    Assoc(Varint(|all|), all, rest);
    ReadVarint32Back(|all|, all + rest);
    ReadBytesBack(all, rest);
    CutAtZero(data, more);
  }

  lemma {:induction false} CutAtZero(data: Bytes, more: Bytes)
    requires 0 !in data
    ensures UpToNul(data + [0] + more) == data
  {
    if data != [] {
      assert (data + [0] + more)[1..] == data[1..] + [0] + more;
      CutAtZero(data[1..], more);
      assert data == [data[0]] + data[1..];
    }
  }

  /** No bytes for a byte field of fixed size are zeros. */
  lemma {:induction false} NoBytesAreZeros(size: nat, rest: Bytes)
    ensures ReadLeaf(FixedBinary(size), [0] + rest) == Some((Chars(seq(size, _ => 0)), rest))
  {
    assert ([0] + rest)[1..] == rest;
  }

  /** A zero tag ends the message, whatever comes after it. */
  lemma {:induction false} ZeroTagEnds(fields: seq<Field>, slots: seq<Slot>, seen: set<nat>, rest: Bytes)
    requires DescriptorOk(fields) && Typed(fields, slots)
    ensures ReadFields(fields, slots, seen, [0] + rest) == Some((slots, seen))
  {
  }
}
