/** Reading what was written. */
module PbRoundTrips {
  import opened Coding
  import opened Common
  import opened PbEncoders
  import opened PbFields
  import opened PbParse
  import opened PbWire

  // ----- Varints -----

  /** Sizes in memory. */
  const LIMIT: nat := 0x8000_0000_0000_0000

  lemma {:induction false} VarintHead(v: nat, rest: Bytes)
    requires v >= 128
    ensures var b := Varint(v) + rest; b[0] as int == 128 + v % 128 && b[1..] == Varint(v / 128) + rest
  {
    assert Varint(v) == [128 + v % 128] + Varint(v / 128);
  }

  lemma {:induction false} ReadVarintBack(v: nat, rest: Bytes)
    requires v < LONG
    ensures ReadVarint(Varint(v) + rest) == Some((v, rest))
  {
    AtEnd([], Varint(v));
    AtPrefix([] + Varint(v), rest, 0, Varint(v));
    assert [] + Varint(v) == Varint(v);
    Varint64RoundTrip(Varint(v) + rest, 0, v);
    assert (Varint(v) + rest)[|Varint(v)|..] == rest;
  }

  /** The groups past bit 32 of a number that has some are refused. */
  lemma {:induction false} HighGroups(w: nat, rest: Bytes, result: Word, k: nat)
    requires 5 <= k <= 8 && 0 < w < Pow2(63 - 7 * k)
    ensures Varint32Rest(Varint(w) + rest, result, 7 * k) == None
    decreases w
  {
    if w >= 128 {
      VarintHead(w, rest);
      Pow2Seven(56 - 7 * k);
      HighGroups(w / 128, rest, result, k + 1);
    }
  }

  /** One byte below bit 32. */
  lemma {:induction false} OneGroup(b: Bytes, result: Word, k: nat)
    requires 1 <= k <= 4 && result < Pow2(7 * k) && b != []
    ensures var byte: int := b[0];
            var more := (result + byte % 128 * Pow2(7 * k)) % 0x1_0000_0000;
            Varint32Rest(b, result, 7 * k) ==
            if byte >= 128 then Varint32Rest(b[1..], more, 7 * (k + 1))
            else if k == 4 && byte >= 16 then None
            else Some((more, b[1..]))
  {
    hide Or, Pow2;
    OrAdds(result, b[0] as int % 128, 7 * k);
  }

  /** A number is read back if it has 32 bits, and is refused otherwise. */
  lemma {:induction false} LowGroups(w: nat, rest: Bytes, result: Word, k: nat)
    requires 1 <= k <= 4 && w > 0 && result < Pow2(7 * k) && w < Pow2(63 - 7 * k)
    ensures Varint32Rest(Varint(w) + rest, result, 7 * k) ==
            if result + w * Pow2(7 * k) < WORD then Some((result + w * Pow2(7 * k), rest)) else None
    decreases w
  {
    hide Varint32Rest, Pow2;
    var b, p, low, high := Varint(w) + rest, Pow2(7 * k), w % 128, w / 128;
    SmallPowers();
    OneGroup(b, result, k);
    Below(result, low, p);
    if w < 128 {
      assert b[1..] == rest;
    } else {
      VarintHead(w, rest);
      Pow2Seven(7 * k);
      Pow2Seven(56 - 7 * k);
      Spread(result, low, high, p);
      if k < 4 {
        LowGroups(high, rest, result + low * p, k + 1);
      } else {
        HighGroups(high, rest, (result + low * p) % 0x1_0000_0000, 5);
      }
    }
  }

  lemma {:induction false} Spread(result: nat, low: nat, high: nat, p: nat)
    ensures result + (128 * high + low) * p == (result + low * p) + high * (128 * p)
  {
  }

  lemma {:induction false} ReadVarint32Back(v: nat, rest: Bytes)
    requires v < LIMIT
    ensures ReadVarint32(Varint(v) + rest) == if v < WORD then Some((v, rest)) else None
  {
    if v < 128 {
      assert (Varint(v) + rest)[1..] == rest;
    } else {
      VarintHead(v, rest);
      SmallPowers();
      Pow2Of56();
      LowGroups(v / 128, rest, v % 128, 1);
    }
  }

  // ----- Parts -----

  lemma {:induction false} Assoc(a: Bytes, b: Bytes, c: Bytes)
    ensures (a + b) + c == a + (b + c)
  {
  }

  lemma {:induction false} ReadBytesBack(data: Bytes, rest: Bytes)
    ensures ReadBytes(data + rest, |data|) == Some((data, rest))
  {
    assert (data + rest)[..|data|] == data && (data + rest)[|data|..] == rest;
  }

  lemma {:induction false} ReadDelimitedBack(data: Bytes, rest: Bytes)
    requires |data| < LIMIT
    ensures ReadDelimited(Prefixed(data) + rest) == if |data| < WORD then Some((data, rest)) else None
  {
    Assoc(Varint(|data|), data, rest);
    ReadVarint32Back(|data|, data + rest);
    ReadBytesBack(data, rest);
  }

  lemma {:induction false} ReadTagBack(tag: nat, wireType: nat, rest: Bytes)
    requires 1 <= tag < 0x2000_0000 && wireType < 8
    ensures ReadTag(WireTag(tag, wireType) + rest) == Tagged(tag, wireType, rest)
  {
    hide ReadVarint32, Varint;
    ReadVarint32Back(8 * tag + wireType, rest);
  }

  // ----- Values -----

  lemma {:induction false} SignedBack(n: int, size: nat)
    requires IntegerSize(size) && 0 <= n + Half(size) < 2 * Half(size)
    ensures SignedValue(Unsigned64(n), size) == Some(n)
  {
    if size == 8 {
      assert Unsigned64(n) == if n < 0 then n + 0x1_0000_0000_0000_0000 else n;
    } else if n >= 0 {
      assert Unsigned64(n) == n && n % 0x1_0000_0000 == n;
    } else {
      assert Unsigned64(n) == n + 0x1_0000_0000_0000_0000;
      assert Unsigned64(n) == 0xffff_ffff * 0x1_0000_0000 + (n + 0x1_0000_0000);
      assert Unsigned64(n) % 0x1_0000_0000 == n + 0x1_0000_0000;
    }
  }

  lemma {:induction false} NoNul(data: Bytes)
    requires 0 !in data
    ensures UpToNul(data) == data
  {
    if data != [] {
      NoNul(data[1..]);
      assert data == [data[0]] + data[1..];
    }
  }

  lemma {:induction false} ReadSignedBack(k: Kind, n: int, rest: Bytes)
    requires (k.Signed? || k.ZigzagSigned?) && IntegerSize(k.size) && LeafTyped(k, Number(n))
    ensures ReadLeaf(k, WireNumber(k, n) + rest) == Some((Number(n), rest))
  {
    hide ReadVarint, SignedValue;
    if k.Signed? {
      ReadVarintBack(Unsigned64(n), rest);
      SignedBack(n, k.size);
    } else {
      ReadVarintBack(Zigzag(n), rest);
    }
  }

  lemma {:induction false} ReadBooleanBack(n: int, rest: Bytes)
    requires LeafTyped(Boolean, Number(n))
    ensures ReadLeaf(Boolean, WireNumber(Boolean, n) + rest) == Some((Number(n), rest))
  {
    hide ReadVarint32, Varint;
    ReadVarint32Back(n, rest);
  }

  lemma {:induction false} ReadUnsignedBack(k: Kind, n: int, rest: Bytes)
    requires k.Unsigned? && IntegerSize(k.size) && LeafTyped(k, Number(n))
    ensures ReadLeaf(k, WireNumber(k, n) + rest) == Some((Number(n), rest))
  {
    hide ReadVarint, Varint;
    ReadVarintBack(n, rest);
  }

  lemma {:induction false} ReadWord32Back(n: int, rest: Bytes)
    requires LeafTyped(Word32, Number(n))
    ensures ReadLeaf(Word32, WireNumber(Word32, n) + rest) == Some((Number(n), rest))
  {
    hide ReadBytes, DecodeFixed32, Fixed32;
    Word32Same(n);
    Fixed32RoundTrip(n);
    ReadBytesBack(Fixed32(n), rest);
  }

  lemma {:induction false} Word32Same(n: nat)
    requires n < WORD
    ensures n % 0x1_0000_0000 == n && |Fixed32(n)| == 4
  {
  }

  lemma {:induction false} ReadWord64Back(n: int, rest: Bytes)
    requires LeafTyped(Word64, Number(n))
    ensures ReadLeaf(Word64, WireNumber(Word64, n) + rest) == Some((Number(n), rest))
  {
    hide ReadBytes, DecodeFixed64, Fixed64, Unsigned64;
    Unsigned64Same(n);
    Fixed64RoundTrip(n);
    ReadBytesBack(Fixed64(n), rest);
  }

  lemma {:induction false} Unsigned64Same(n: nat)
    requires n < LONG
    ensures Unsigned64(n) == n && |Fixed64(n)| == 8
  {
  }

  lemma {:induction false} ReadNumberBack(k: Kind, n: int, rest: Bytes)
    requires Packable(k) && KindOk(k) && LeafTyped(k, Number(n))
    ensures ReadLeaf(k, WireNumber(k, n) + rest) == Some((Number(n), rest))
  {
    hide ReadLeaf, WireNumber;
    if k.Boolean? {
      ReadBooleanBack(n, rest);
    } else if k.Unsigned? {
      ReadUnsignedBack(k, n, rest);
    } else if k.Word32? {
      ReadWord32Back(n, rest);
    } else if k.Word64? {
      ReadWord64Back(n, rest);
    } else {
      ReadSignedBack(k, n, rest);
    }
  }

  /** A text is terminated in its field. */
  ghost predicate Terminated(k: Kind, v: Value) {
    k.Text? && v.Chars? ==> |v.data| < k.size
  }

  lemma {:induction false} ReadCharsBack(k: Kind, data: Bytes, rest: Bytes)
    requires !Packable(k) && !k.Submessage? && KindOk(k) && LeafTyped(k, Chars(data)) && EncodableValue(k, Chars(data))
    ensures ReadLeaf(k, Prefixed(data) + rest) == if Terminated(k, Chars(data)) then Some((Chars(data), rest)) else None
  {
    Assoc(Varint(|data|), data, rest);
    ReadVarint32Back(|data|, data + rest);
    ReadBytesBack(data, rest);
    if k.Text? {
      NoNul(data);
    } else if k.FixedBinary? && data == [] {
      assert data + rest == rest;
    }
  }

  // ----- What can be read back -----

  ghost predicate RestorableValue(k: Kind, v: Value)
    decreases v, 0
  {
    && Terminated(k, v)
    && (k.Submessage? && v.Message? ==> |Wire(k.fields, v.slots)| < WORD && Restorable(k.fields, v.slots))
  }

  ghost predicate RestorableSlot(f: Field, slot: Slot)
    decreases slot
  {
    || (f.rule.Singular? && slot.items != [] && ZeroValue(f.kind, slot.items[0]))
    || ((f.rule.Repeated? && Packable(f.kind) ==> |WirePacked(f.kind, slot.items, 0)| < WORD) &&
        forall j {:trigger slot.items[j]} :: 0 <= j < |slot.items| ==> RestorableValue(f.kind, slot.items[j]))
  }

  /** Every text is terminated, and every part that is written with its length is shorter than 4 GB. */
  ghost predicate Restorable(fields: seq<Field>, slots: seq<Slot>)
    decreases slots
  {
    forall i {:trigger slots[i]} :: 0 <= i < |slots| && i < |fields| ==> RestorableSlot(fields[i], slots[i])
  }

  // ----- Fields -----

  /** The fields before the `i`-th one as written, this one with its first `j` values, the others as they are initially. */
  function Partial(fields: seq<Field>, slots: seq<Slot>, i: nat): (r: seq<Slot>)
    requires |fields| == |slots| && i <= |slots|
    ensures |r| == |slots|
  {
    slots[..i] + Initials(fields)[i..]
  }

  lemma {:induction false} PartialTyped(fields: seq<Field>, slots: seq<Slot>, i: nat)
    requires DescriptorOk(fields) && Typed(fields, slots) && i <= |slots|
    ensures Typed(fields, Partial(fields, slots, i))
  {
    hide TypedSlot, DescriptorOk;
    InitialsTyped(fields);
    var p := Partial(fields, slots, i);
    forall k | 0 <= k < |p| ensures TypedSlot(fields[k], p[k]) {
      assert TypedSlot(fields[k], slots[k]) && TypedSlot(fields[k], Initials(fields)[k]);
    }
  }

  lemma {:induction false} NumberBytes(k: Kind, n: int)
    ensures |WireNumber(k, n)| > 0
  {
  }

  /** A packed array is read back. */
  lemma {:induction false} ReadPackedBack(f: Field, slot: Slot, j: nat)
    requires FieldOk(f) && f.rule.Repeated? && Packable(f.kind) && TypedSlot(f, slot) && j <= |slot.items| <= f.rule.limit
    requires TypedSlot(f, Slot(slot.items[..j]))
    ensures ReadPacked(f, Slot(slot.items[..j]), WirePacked(f.kind, slot.items, j)) == Some(slot)
    decreases |slot.items| - j
  {
    hide ReadLeaf, WireNumber;
    var items := slot.items;
    if j < |items| {
      var v := items[j];
      assert KindOk(f.kind) && TypedValue(f.kind, v);
      ReadNumberBack(f.kind, v.n, WirePacked(f.kind, items, j + 1));
      assert items[..j] + [v] == items[..j + 1];
      PrefixTyped(f, slot, j + 1);
      NumberBytes(f.kind, v.n);
      ReadPackedBack(f, slot, j + 1);
    } else {
      assert items[..j] == items;
    }
  }

  /** A tag leads to its field. */
  lemma {:induction false} OneTag(fields: seq<Field>, slots: seq<Slot>, seen: set<nat>, i: nat, wireType: nat, b: Bytes)
    requires DescriptorOk(fields) && Typed(fields, slots) && i < |fields| && wireType < 8
    ensures ReadFields(fields, slots, seen, WireTag(fields[i].tag, wireType) + b) ==
            match ReadField(fields, slots, i, wireType, b)
            case None => None
            case Some((after, end)) => ReadFields(fields, after, Seen(fields, i, seen), end)
  {
    hide ReadField, ReadTag, WireTag;
    assert FieldOk(fields[i]);
    ReadTagBack(fields[i].tag, wireType, b);
    assert HasTag(fields, i, fields[i].tag);
    NotEmpty(fields[i].tag, wireType, b);
  }

  lemma {:induction false} NotEmpty(tag: nat, wireType: nat, b: Bytes)
    ensures WireTag(tag, wireType) + b != []
  {
  }

  /** A value is read back into a field of which nothing was read before, or behind the values of an array. */
  lemma {:induction false} ReadValueBack(k: Kind, current: Value, v: Value, rest: Bytes)
    requires KindOk(k) && TypedValue(k, v) && EncodableValue(k, v) && |WireValue(k, v)| < LIMIT
    requires TypedValue(k, current) && (k.Submessage? ==> current == Message(Initials(k.fields)))
    ensures ReadValue(k, current, WireValue(k, v) + rest) == if RestorableValue(k, v) then Some((v, rest)) else None
    decreases v, 0
  {
    if k.Submessage? {
      var wire := Wire(k.fields, v.slots);
      ReadDelimitedBack(wire, rest);
      if |wire| < WORD {
        ReadMessageBack(k.fields, v.slots);
      }
    } else if Packable(k) {
      ReadNumberBack(k, v.n, rest);
    } else {
      ReadCharsBack(k, v.data, rest);
    }
  }

  ghost predicate RestorableFrom(fields: seq<Field>, slots: seq<Slot>, i: nat)
    requires |fields| == |slots|
  {
    forall k {:trigger slots[k]} :: i <= k < |slots| ==> RestorableSlot(fields[k], slots[k])
  }

  /** The required fields before the `i`-th one, of the first 64. */
  function SeenBefore(fields: seq<Field>, i: nat): set<nat>
    requires i <= |fields|
  {
    UpTo(Min(RequiredBefore(fields, i), MAX_REQUIRED))
  }

  function UpTo(n: nat): set<nat> {
    if n == 0 then {} else UpTo(n - 1) + {n - 1}
  }

  lemma {:induction false} UpToHas(n: nat)
    ensures forall k :: k in UpTo(n) <==> 0 <= k < n
  {
    if n > 0 {
      UpToHas(n - 1);
    }
  }

  lemma {:induction false} SeenNext(fields: seq<Field>, i: nat)
    requires i < |fields|
    ensures SeenBefore(fields, i + 1) == Seen(fields, i, SeenBefore(fields, i))
  {
  }

  /** A message is read back exactly if it is restorable. */
  lemma {:induction false} ReadMessageBack(fields: seq<Field>, slots: seq<Slot>)
    requires DescriptorOk(fields) && Typed(fields, slots) && Encodable(fields, slots) && |Wire(fields, slots)| < LIMIT
    ensures Typed(fields, Initials(fields))
    ensures ReadMessage(fields, Initials(fields), Wire(fields, slots)) == if Restorable(fields, slots) then Some(slots) else None
    decreases slots, |slots| + 1
  {
    InitialsTyped(fields);
    assert Partial(fields, slots, 0) == Initials(fields);
    assert SeenBefore(fields, 0) == {};
    UpToHas(Min(RequiredBefore(fields, |fields|), MAX_REQUIRED));
    ReadFieldsBack(fields, slots, 0);
  }

  lemma {:induction false} ReadFieldsBack(fields: seq<Field>, slots: seq<Slot>, i: nat)
    requires DescriptorOk(fields) && Typed(fields, slots) && Encodable(fields, slots) && i <= |slots|
    requires |WireFrom(fields, slots, i)| < LIMIT
    ensures Typed(fields, Partial(fields, slots, i))
    ensures ReadFields(fields, Partial(fields, slots, i), SeenBefore(fields, i), WireFrom(fields, slots, i)) ==
            if RestorableFrom(fields, slots, i) then Some((slots, SeenBefore(fields, |fields|))) else None
    decreases slots, |slots| - i
  {
    PartialTyped(fields, slots, i);
    if i == |slots| {
      assert Partial(fields, slots, i) == slots;
    } else {
      ReadFieldsBack(fields, slots, i + 1);
      SeenNext(fields, i);
      ReadSlotBack(fields, slots, SeenBefore(fields, i), i, WireFrom(fields, slots, i + 1));
    }
  }

  /** Nothing is written for the field, and nothing is read. */
  lemma {:induction false} AbsentBack(fields: seq<Field>, slots: seq<Slot>, i: nat, rest: Bytes)
    requires DescriptorOk(fields) && Typed(fields, slots) && |fields| == |slots| && i < |slots|
    requires var items := slots[i].items; items == [] || (fields[i].rule.Singular? && ZeroValue(fields[i].kind, items[0]))
    ensures WireSlot(fields[i], slots[i]) + rest == rest && RestorableSlot(fields[i], slots[i])
    ensures Partial(fields, slots, i) == Partial(fields, slots, i + 1)
    ensures forall seen :: Seen(fields, i, seen) == seen
  {
    var f, items := fields[i], slots[i].items;
    assert FieldOk(f) && TypedSlot(f, slots[i]);
    if items != [] {
      ZeroValueIsInitial(f, items[0]);
    }
    assert slots[i] == Initials(fields)[i];
  }

  /** One field is read back. */
  lemma {:induction false} ReadSlotBack(fields: seq<Field>, slots: seq<Slot>, seen: set<nat>, i: nat, rest: Bytes)
    requires DescriptorOk(fields) && Typed(fields, slots) && Encodable(fields, slots) && |fields| == |slots| && i < |slots|
    requires |WireSlot(fields[i], slots[i])| < LIMIT
    ensures Typed(fields, Partial(fields, slots, i)) && Typed(fields, Partial(fields, slots, i + 1))
    ensures ReadFields(fields, Partial(fields, slots, i), seen, WireSlot(fields[i], slots[i]) + rest) ==
            if RestorableSlot(fields[i], slots[i])
            then ReadFields(fields, Partial(fields, slots, i + 1), Seen(fields, i, seen), rest) else None
    decreases slots[i], 2
  {
    hide ReadFields, Typed, DescriptorOk, FieldOk, TypedSlot;
    PartialTyped(fields, slots, i);
    PartialTyped(fields, slots, i + 1);
    assert EncodableSlot(fields[i], slots[i]);
    var f, items := fields[i], slots[i].items;
    if items == [] || (f.rule.Singular? && ZeroValue(f.kind, items[0])) {
      AbsentBack(fields, slots, i, rest);
    } else if f.rule.Repeated? && Packable(f.kind) {
      PackedBack(fields, slots, seen, i, rest);
    } else if f.rule.Repeated? {
      var p := Partial(fields, slots, i);
      assert items[..0] == [] && p[i] == Slot([]) && p[i := Slot([])] == p;
      EachBack(fields, slots, seen, i, 0, rest);
    } else {
      SingleBack(fields, slots, seen, i, rest);
    }
  }

  lemma {:induction false} PackedBack(fields: seq<Field>, slots: seq<Slot>, seen: set<nat>, i: nat, rest: Bytes)
    requires DescriptorOk(fields) && Typed(fields, slots) && i < |slots| && EncodableSlot(fields[i], slots[i])
    requires |WireSlot(fields[i], slots[i])| < LIMIT && slots[i].items != []
    requires fields[i].rule.Repeated? && Packable(fields[i].kind)
    ensures Typed(fields, Partial(fields, slots, i)) && Typed(fields, Partial(fields, slots, i + 1))
    ensures ReadFields(fields, Partial(fields, slots, i), seen, WireSlot(fields[i], slots[i]) + rest) ==
            if RestorableSlot(fields[i], slots[i])
            then ReadFields(fields, Partial(fields, slots, i + 1), seen, rest) else None
  {
    hide ReadLeaf, ReadValue, ReadMessage, ReadTag, ReadPacked, ReadFields, Exclusive, ClearUnion, WireTag;
    PartialTyped(fields, slots, i);
    PartialTyped(fields, slots, i + 1);
    var f, slot, p := fields[i], slots[i], Partial(fields, slots, i);
    assert FieldOk(f) && TypedSlot(f, slot) && TypedSlot(f, p[i]);
    var packed := WirePacked(f.kind, slot.items, 0);
    Assoc(WireTag(f.tag, STRING), Prefixed(packed), rest);
    OneTag(fields, p, seen, i, STRING, Prefixed(packed) + rest);
    ReadDelimitedBack(packed, rest);
    assert p[i] == Slot(slot.items[..0]);
    ReadPackedBack(f, slot, 0);
    assert p[i := slot] == Partial(fields, slots, i + 1);
    forall j | 0 <= j < |slot.items| ensures RestorableValue(f.kind, slot.items[j]) {
    }
  }

  lemma {:induction false} SingleBack(fields: seq<Field>, slots: seq<Slot>, seen: set<nat>, i: nat, rest: Bytes)
    requires DescriptorOk(fields) && Typed(fields, slots) && i < |slots| && EncodableSlot(fields[i], slots[i])
    requires |WireSlot(fields[i], slots[i])| < LIMIT && slots[i].items != [] && !fields[i].rule.Repeated?
    requires !(fields[i].rule.Singular? && ZeroValue(fields[i].kind, slots[i].items[0]))
    ensures Typed(fields, Partial(fields, slots, i)) && Typed(fields, Partial(fields, slots, i + 1))
    ensures ReadFields(fields, Partial(fields, slots, i), seen, WireSlot(fields[i], slots[i]) + rest) ==
            if RestorableSlot(fields[i], slots[i])
            then ReadFields(fields, Partial(fields, slots, i + 1), Seen(fields, i, seen), rest) else None
    decreases slots[i], 1
  {
    PartialTyped(fields, slots, i);
    PartialTyped(fields, slots, i + 1);
    var f, slot, p := fields[i], slots[i], Partial(fields, slots, i);
    assert FieldOk(f) && KindOk(f.kind) && TypedSlot(f, slot) && TypedSlot(f, p[i]);
    var v := slot.items[0];
    var tag, value := WireTag(f.tag, WireType(f.kind)), WireValue(f.kind, v);
    OneItem(f, slot.items);
    Assoc(tag, value, rest);
    OneTag(fields, p, seen, i, WireType(f.kind), value + rest);
    InitialTyped(f);
    ReadValueBack(f.kind, Current(f, p[i]), v, rest);
    assert slot == Slot([v]);
    SetOne(fields, slots, i);
  }

  /** Setting a field with one value; of its union nothing else was set. */
  lemma {:induction false} SetOne(fields: seq<Field>, slots: seq<Slot>, i: nat)
    requires Typed(fields, slots) && i < |slots| && slots[i].items != []
    ensures Partial(fields, slots, i)[i := slots[i]] == Partial(fields, slots, i + 1)
    ensures fields[i].rule.Member? ==>
      ClearUnion(fields, Partial(fields, slots, i), fields[i].rule)[i := slots[i]] == Partial(fields, slots, i + 1)
  {
    if fields[i].rule.Member? {
      var c, p := ClearUnion(fields, Partial(fields, slots, i), fields[i].rule)[i := slots[i]], Partial(fields, slots, i + 1);
      forall j | 0 <= j < |p| ensures c[j] == p[j] {
      }
    }
  }

  lemma {:induction false} PrefixTyped(f: Field, slot: Slot, n: nat)
    requires f.rule.Repeated? && TypedSlot(f, slot) && n <= |slot.items|
    ensures TypedSlot(f, Slot(slot.items[..n]))
  {
    forall k | 0 <= k < n ensures TypedValue(f.kind, slot.items[..n][k]) {
      assert slot.items[..n][k] == slot.items[k];
    }
  }

  lemma {:induction false} WithTyped(f: Field, slot: Slot, v: Value)
    requires f.rule.Repeated? && TypedSlot(f, slot) && TypedValue(f.kind, v)
    ensures TypedSlot(f, With(slot, v))
  {
  }

  /** One more element of an array, tagged for itself. */
  lemma {:induction false} OneElement(fields: seq<Field>, q: seq<Slot>, seen: set<nat>, i: nat, v: Value, rest: Bytes)
    requires DescriptorOk(fields) && Typed(fields, q) && i < |q| && fields[i].rule.Repeated?
    requires TypedValue(fields[i].kind, v) && EncodableValue(fields[i].kind, v) && |WireValue(fields[i].kind, v)| < LIMIT
    ensures Typed(fields, q[i := With(q[i], v)])
    ensures var f := fields[i];
            ReadFields(fields, q, seen, WireTag(f.tag, WireType(f.kind)) + WireValue(f.kind, v) + rest) ==
            if |q[i].items| < f.rule.limit && RestorableValue(f.kind, v)
            then ReadFields(fields, q[i := With(q[i], v)], seen, rest) else None
    decreases v, 1
  {
    hide WireTag, WireValue, Initials, ClearUnion, Exclusive, ReadMessage, ReadLeaf, RestorableValue;
    var f := fields[i];
    assert FieldOk(f) && KindOk(f.kind) && TypedSlot(f, q[i]);
    WithTyped(f, q[i], v);
    SetTyped(fields, q, i, With(q[i], v));
    var tag, value := WireTag(f.tag, WireType(f.kind)), WireValue(f.kind, v);
    Assoc(tag, value, rest);
    OneTag(fields, q, seen, i, WireType(f.kind), value + rest);
    InitialTyped(f);
    ReadValueBack(f.kind, Initial(f), v, rest);
  }

  lemma {:induction false} SliceTyped(fields: seq<Field>, slots: seq<Slot>, i: nat, j: nat)
    requires DescriptorOk(fields) && Typed(fields, slots) && i < |slots| && fields[i].rule.Repeated? && j <= |slots[i].items|
    ensures Typed(fields, Partial(fields, slots, i)[i := Slot(slots[i].items[..j])])
    ensures FieldOk(fields[i]) && TypedSlot(fields[i], slots[i])
  {
    PartialTyped(fields, slots, i);
    assert TypedSlot(fields[i], slots[i]);
    PrefixTyped(fields[i], slots[i], j);
    SetTyped(fields, Partial(fields, slots, i), i, Slot(slots[i].items[..j]));
  }

  lemma {:induction false} ItemOk(f: Field, slot: Slot, j: nat)
    requires TypedSlot(f, slot) && EncodableSlot(f, slot) && j < |slot.items|
    ensures TypedValue(f.kind, slot.items[j]) && EncodableValue(f.kind, slot.items[j])
  {
  }

  /** The values of an array that is not packed, from the `j`-th on. */
  lemma {:induction false} EachBack(fields: seq<Field>, slots: seq<Slot>, seen: set<nat>, i: nat, j: nat, rest: Bytes)
    requires DescriptorOk(fields) && Typed(fields, slots) && |fields| == |slots| && i < |slots|
    requires EncodableSlot(fields[i], slots[i]) && fields[i].rule.Repeated? && !Packable(fields[i].kind) && j <= |slots[i].items|
    requires |WireEach(fields[i], slots[i].items, j)| < LIMIT
    ensures Typed(fields, Partial(fields, slots, i)[i := Slot(slots[i].items[..j])]) && Typed(fields, Partial(fields, slots, i + 1))
    ensures ReadFields(fields, Partial(fields, slots, i)[i := Slot(slots[i].items[..j])], seen,
                       WireEach(fields[i], slots[i].items, j) + rest) ==
            if forall k {:trigger slots[i].items[k]} :: j <= k < |slots[i].items| ==> RestorableValue(fields[i].kind, slots[i].items[k])
            then ReadFields(fields, Partial(fields, slots, i + 1), seen, rest) else None
    decreases slots[i], 1, |slots[i].items| - j
  {
    hide ReadFields, RestorableValue, WireTag, WireValue, DescriptorOk, FieldOk, Typed, TypedSlot, Initials;
    SliceTyped(fields, slots, i, j);
    PartialTyped(fields, slots, i + 1);
    var f, items, p := fields[i], slots[i].items, Partial(fields, slots, i);
    var q := p[i := Slot(items[..j])];
    if j == |items| {
      assert items[..j] == items && Slot(items) == slots[i];
      assert WireEach(f, items, j) + rest == rest;
      assert q == Partial(fields, slots, i + 1);
    } else {
      EachBack(fields, slots, seen, i, j + 1, rest);
      ItemOk(f, slots[i], j);
      OneElement(fields, q, seen, i, items[j], WireEach(f, items, j + 1) + rest);
      assert items[..j] + [items[j]] == items[..j + 1];
      Assoc(WireTag(f.tag, WireType(f.kind)) + WireValue(f.kind, items[j]), WireEach(f, items, j + 1), rest);
      assert q[i := Slot(items[..j + 1])] == p[i := Slot(items[..j + 1])];
    }
  }

  /** Decoding what was encoded gives the value exactly if it is restorable, and fails otherwise. */
  lemma {:induction false} RoundTripsExactly(fields: seq<Field>, slots: seq<Slot>)
    requires DescriptorOk(fields) && Typed(fields, slots) && Encodable(fields, slots) && |Wire(fields, slots)| < LIMIT
    ensures Parse(fields, Wire(fields, slots)) == if Restorable(fields, slots) then Some(slots) else None
  {
    ReadMessageBack(fields, slots);
  }

  // ----- Values that were accepted -----

  ghost predicate ShortValue(k: Kind, v: Value)
    decreases v, 0
  {
    k.Submessage? && v.Message? ==> |Wire(k.fields, v.slots)| < WORD && ShortParts(k.fields, v.slots)
  }

  ghost predicate ShortSlot(f: Field, slot: Slot)
    decreases slot
  {
    && (f.rule.Repeated? && Packable(f.kind) ==> |WirePacked(f.kind, slot.items, 0)| < WORD)
    && forall j {:trigger slot.items[j]} :: 0 <= j < |slot.items| ==> ShortValue(f.kind, slot.items[j])
  }

  /** Every part that is written with its length is shorter than 4 GB. */
  ghost predicate ShortParts(fields: seq<Field>, slots: seq<Slot>)
    decreases slots
  {
    forall i {:trigger slots[i]} :: 0 <= i < |slots| && i < |fields| ==> ShortSlot(fields[i], slots[i])
  }

  lemma {:induction false} StoredValueRestorable(k: Kind, v: Value)
    requires StoredValue(k, v)
    ensures EncodableValue(k, v) && (ShortValue(k, v) ==> RestorableValue(k, v))
    decreases v
  {
    if k.Submessage? && v.Message? {
      StoredRestorable(k.fields, v.slots);
    }
  }

  /** What is within its storage can be written, and read back if its parts are short. */
  lemma {:induction false} StoredRestorable(fields: seq<Field>, slots: seq<Slot>)
    requires Stored(fields, slots)
    ensures Encodable(fields, slots) && (ShortParts(fields, slots) ==> Restorable(fields, slots))
    decreases slots
  {
    forall i | 0 <= i < |slots| && i < |fields|
      ensures EncodableSlot(fields[i], slots[i]) && (ShortSlot(fields[i], slots[i]) ==> RestorableSlot(fields[i], slots[i]))
    {
      assert StoredSlot(fields[i], slots[i]);
      forall j | 0 <= j < |slots[i].items|
        ensures EncodableValue(fields[i].kind, slots[i].items[j])
        ensures ShortValue(fields[i].kind, slots[i].items[j]) ==> RestorableValue(fields[i].kind, slots[i].items[j])
      {
        StoredValueRestorable(fields[i].kind, slots[i].items[j]);
      }
    }
  }

  /** Whatever bytes were decoded: the value can be encoded, and the bytes that it is encoded to, which need not be
      those, are decoded to it. */
  lemma {:induction false} AcceptedRoundTrips(fields: seq<Field>, b: Bytes)
    requires DescriptorOk(fields) && DefaultsStored(fields) && Parse(fields, b).Some?
    ensures var slots := Parse(fields, b).value;
            && Encodable(fields, slots)
            && (ShortParts(fields, slots) && |Wire(fields, slots)| < LIMIT ==> Parse(fields, Wire(fields, slots)) == Some(slots))
  {
    var slots := Parse(fields, b).value;
    StoredRestorable(fields, slots);
    if ShortParts(fields, slots) && |Wire(fields, slots)| < LIMIT {
      RoundTripsExactly(fields, slots);
    }
  }
}
