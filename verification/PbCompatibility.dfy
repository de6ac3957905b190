/** Messages between programs that know different fields of a message type. */
module PbCompatibility {
  import opened Coding
  import opened Common
  import opened PbFields
  import opened PbParse
  import opened PbRoundTrips
  import opened PbWire

  // ----- Skipping a field that the reader does not know -----

  ghost predicate SkippableValue(k: Kind, v: Value) {
    k.Submessage? && v.Message? ==> |Wire(k.fields, v.slots)| < WORD
  }

  /** Every length that is written for the field has 32 bits. */
  ghost predicate SkippableSlot(f: Field, slot: Slot) {
    || (f.rule.Singular? && slot.items != [] && ZeroValue(f.kind, slot.items[0]))
    || if f.rule.Repeated? && Packable(f.kind) then |WirePacked(f.kind, slot.items, 0)| < WORD
       else forall j {:trigger slot.items[j]} :: 0 <= j < |slot.items| ==> SkippableValue(f.kind, slot.items[j])
  }

  lemma {:induction false} SkipVarintBack(v: nat, rest: Bytes)
    ensures SkipVarint(Varint(v) + rest) == Some(rest)
    decreases v
  {
    if v < 128 {
      assert (Varint(v) + rest)[1..] == rest;
    } else {
      VarintHead(v, rest);
      SkipVarintBack(v / 128, rest);
    }
  }

  lemma {:induction false} SkipBytesBack(data: Bytes, rest: Bytes)
    ensures SkipBytes(data + rest, |data|) == Some(rest)
  {
  }

  lemma {:induction false} SkipPrefixed(data: Bytes, rest: Bytes)
    requires |data| < LIMIT
    ensures SkipField(STRING, Prefixed(data) + rest) == if |data| < WORD then Some(rest) else None
  {
    Assoc(Varint(|data|), data, rest);
    ReadVarint32Back(|data|, data + rest);
    SkipBytesBack(data, rest);
  }

  lemma {:induction false} SkipNumber(k: Kind, n: int, rest: Bytes)
    requires Packable(k) && KindOk(k) && LeafTyped(k, Number(n))
    ensures SkipField(WireType(k), WireNumber(k, n) + rest) == Some(rest)
  {
    hide SkipVarint, Varint, Fixed32, Fixed64, Unsigned64;
    if k.Word32? {
      Word32Same(n);
      SkipBytesBack(Fixed32(n), rest);
    } else if k.Word64? {
      Unsigned64Same(n);
      SkipBytesBack(Fixed64(n), rest);
    } else if k.Boolean? {
      SkipVarintBack(n, rest);
    } else {
      SkipVarintBack(if k.ZigzagSigned? then Zigzag(n) else Unsigned64(n), rest);
    }
  }

  lemma {:induction false} SkipValue(k: Kind, v: Value, rest: Bytes)
    requires KindOk(k) && TypedValue(k, v) && |WireValue(k, v)| < LIMIT
    ensures SkipField(WireType(k), WireValue(k, v) + rest) == if SkippableValue(k, v) then Some(rest) else None
  {
    hide SkipField;
    if k.Submessage? {
      SkipPrefixed(Wire(k.fields, v.slots), rest);
    } else if Packable(k) {
      SkipNumber(k, v.n, rest);
    } else {
      SkipPrefixed(v.data, rest);
    }
  }

  /** The number is that of no field of the message type. */
  ghost predicate Unknown(fields: seq<Field>, tag: nat) {
    forall i :: 0 <= i < |fields| ==> !HasTag(fields, i, tag)
  }

  lemma {:induction false} UnknownTag(fields: seq<Field>, slots: seq<Slot>, seen: set<nat>, tag: nat, wireType: nat, b: Bytes)
    requires DescriptorOk(fields) && Typed(fields, slots) && Unknown(fields, tag) && 1 <= tag < 0x2000_0000 && wireType < 8
    ensures ReadFields(fields, slots, seen, WireTag(tag, wireType) + b) ==
            match SkipField(wireType, b)
            case None => None
            case Some(end) => ReadFields(fields, slots, seen, end)
  {
    hide SkipField, ReadTag, WireTag, DescriptorOk, Typed;
    ReadTagBack(tag, wireType, b);
    NotEmpty(tag, wireType, b);
  }

  lemma {:induction false} SkipEach(fields: seq<Field>, slots: seq<Slot>, seen: set<nat>, f: Field, slot: Slot, j: nat, rest: Bytes)
    requires DescriptorOk(fields) && Typed(fields, slots) && Unknown(fields, f.tag)
    requires FieldOk(f) && TypedSlot(f, slot) && j <= |slot.items| && |WireEach(f, slot.items, j)| < LIMIT
    ensures ReadFields(fields, slots, seen, WireEach(f, slot.items, j) + rest) ==
            if forall i {:trigger slot.items[i]} :: j <= i < |slot.items| ==> SkippableValue(f.kind, slot.items[i])
            then ReadFields(fields, slots, seen, rest) else None
    decreases |slot.items| - j
  {
    hide ReadFields, SkippableValue, WireTag, WireValue, DescriptorOk, Typed, Unknown, KindOk, SkipField;
    var items := slot.items;
    if j == |items| {
      assert WireEach(f, items, j) + rest == rest;
    } else {
      var tag, value, others := WireTag(f.tag, WireType(f.kind)), WireValue(f.kind, items[j]), WireEach(f, items, j + 1);
      assert WireEach(f, items, j) == tag + value + others;
      Assoc(tag + value, others, rest);
      Assoc(tag, value, others + rest);
      UnknownTag(fields, slots, seen, f.tag, WireType(f.kind), value + (others + rest));
      SkipValue(f.kind, items[j], others + rest);
      SkipEach(fields, slots, seen, f, slot, j + 1, rest);
    }
  }

  /** A field that the reader does not know changes nothing, wherever it is, or makes the whole message unreadable. */
  lemma {:induction false} UnknownSkipped(fields: seq<Field>, slots: seq<Slot>, seen: set<nat>, f: Field, slot: Slot, rest: Bytes)
    requires DescriptorOk(fields) && Typed(fields, slots) && Unknown(fields, f.tag)
    requires FieldOk(f) && TypedSlot(f, slot) && |WireSlot(f, slot)| < LIMIT
    ensures ReadFields(fields, slots, seen, WireSlot(f, slot) + rest) ==
            if SkippableSlot(f, slot) then ReadFields(fields, slots, seen, rest) else None
  {
    hide ReadFields, WireTag, DescriptorOk, Typed, Unknown, KindOk, SkipField, ZeroValue;
    var items := slot.items;
    if items == [] || (f.rule.Singular? && ZeroValue(f.kind, items[0])) {
      assert WireSlot(f, slot) + rest == rest;
    } else if f.rule.Repeated? && Packable(f.kind) {
      var packed := WirePacked(f.kind, items, 0);
      Assoc(WireTag(f.tag, STRING), Prefixed(packed), rest);
      UnknownTag(fields, slots, seen, f.tag, STRING, Prefixed(packed) + rest);
      SkipPrefixed(packed, rest);
    } else {
      SkipEach(fields, slots, seen, f, slot, 0, rest);
    }
  }

  // ----- Part of a message type -----

  /** Those of the first `n` fields that have one of the numbers. */
  function Known(all: seq<Field>, tags: set<nat>, n: nat): seq<Field>
    requires n <= |all|
  {
    if n == 0 then []
    else Known(all, tags, n - 1) + if all[n - 1].tag in tags then [all[n - 1]] else []
  }

  /** Their values. */
  function KnownSlots(all: seq<Field>, slots: seq<Slot>, tags: set<nat>, n: nat): (r: seq<Slot>)
    requires n <= |all| == |slots|
    ensures |r| == |Known(all, tags, n)|
  {
    if n == 0 then []
    else KnownSlots(all, slots, tags, n - 1) + if all[n - 1].tag in tags then [slots[n - 1]] else []
  }

  /** Where the `k`-th of them is in the whole. */
  function Place(all: seq<Field>, tags: set<nat>, n: nat, k: nat): (i: nat)
    requires n <= |all| && k < |Known(all, tags, n)|
    ensures i < n && all[i].tag in tags && Known(all, tags, n)[k] == all[i] && |Known(all, tags, i)| == k
  {
    if k < |Known(all, tags, n - 1)| then Place(all, tags, n - 1, k) else n - 1
  }

  lemma {:induction false} KnownPrefix(all: seq<Field>, slots: seq<Slot>, tags: set<nat>, i: nat, n: nat)
    requires i <= n <= |all| == |slots|
    ensures Known(all, tags, i) <= Known(all, tags, n)
    ensures KnownSlots(all, slots, tags, i) <= KnownSlots(all, slots, tags, n)
  {
    if i < n {
      KnownPrefix(all, slots, tags, i, n - 1);
    }
  }

  /** A field of the part. */
  lemma {:induction false} KnownAt(all: seq<Field>, slots: seq<Slot>, tags: set<nat>, i: nat)
    requires i < |all| == |slots| && all[i].tag in tags
    ensures var k, n := |Known(all, tags, i)|, |all|;
            && k < |Known(all, tags, n)| && Known(all, tags, n)[k] == all[i] && KnownSlots(all, slots, tags, n)[k] == slots[i]
            && |Known(all, tags, i + 1)| == k + 1
  {
    KnownPrefix(all, slots, tags, i + 1, |all|);
  }

  lemma {:induction false} PlaceAt(all: seq<Field>, slots: seq<Slot>, tags: set<nat>, k: nat) returns (i: nat)
    requires |all| == |slots| && k < |Known(all, tags, |all|)|
    ensures i == Place(all, tags, |all|, k) && KnownSlots(all, slots, tags, |all|)[k] == slots[i]
  {
    i := Place(all, tags, |all|, k);
    KnownAt(all, slots, tags, i);
  }

  /** The part keeps the order. */
  lemma {:induction false} PlacesAscend(all: seq<Field>, tags: set<nat>, n: nat, k: nat, l: nat)
    requires n <= |all| && k < l < |Known(all, tags, n)|
    ensures Place(all, tags, n, k) < Place(all, tags, n, l)
  {
    if l < |Known(all, tags, n - 1)| {
      PlacesAscend(all, tags, n - 1, k, l);
    }
  }

  lemma {:induction false} KnownDescriptor(all: seq<Field>, tags: set<nat>)
    requires DescriptorOk(all)
    ensures DescriptorOk(Known(all, tags, |all|))
  {
    var part := Known(all, tags, |all|);
    forall k | 0 <= k < |part| ensures FieldOk(part[k]) {
      var i := Place(all, tags, |all|, k);
      assert all[i] == part[k];
    }
    forall k, l | 0 <= k < l < |part| ensures part[k].tag != part[l].tag {
      PlacesAscend(all, tags, |all|, k, l);
    }
    forall k | 0 <= k < |part| && !part[k].kind.Submessage? ensures LeafTyped(part[k].kind, part[k].initial) {
      var i := Place(all, tags, |all|, k);
      assert all[i] == part[k];
    }
    forall k | 0 <= k < |part| && part[k].rule.Singular? && !part[k].kind.Submessage?
      ensures part[k].initial == if Packable(part[k].kind) then Number(0) else Chars([])
    {
      var i := Place(all, tags, |all|, k);
      assert all[i] == part[k];
    }
  }

  lemma {:induction false} KnownTyped(all: seq<Field>, slots: seq<Slot>, tags: set<nat>)
    requires Typed(all, slots)
    ensures Typed(Known(all, tags, |all|), KnownSlots(all, slots, tags, |all|))
    ensures Encodable(all, slots) ==> Encodable(Known(all, tags, |all|), KnownSlots(all, slots, tags, |all|))
  {
    hide TypedSlot, EncodableSlot;
    var part, values := Known(all, tags, |all|), KnownSlots(all, slots, tags, |all|);
    forall k | 0 <= k < |values|
      ensures TypedSlot(part[k], values[k]) && (Encodable(all, slots) ==> EncodableSlot(part[k], values[k]))
    {
      var i := PlaceAt(all, slots, tags, k);
    }
    forall k, l | 0 <= k < l < |part| && part[k].rule.Member? && part[k].rule == part[l].rule
      ensures values[k].items == [] || values[l].items == []
    {
      var i := PlaceAt(all, slots, tags, k);
      var j := PlaceAt(all, slots, tags, l);
      PlacesAscend(all, tags, |all|, k, l);
    }
  }

  // ----- A reader that knows fewer fields -----

  /** From the `i`-th field on: those that the reader knows can be read, and the others can be skipped. */
  ghost predicate ReadableFrom(all: seq<Field>, slots: seq<Slot>, tags: set<nat>, i: nat)
    requires |all| == |slots|
  {
    forall j {:trigger slots[j]} :: i <= j < |slots| ==>
      if all[j].tag in tags then RestorableSlot(all[j], slots[j]) else SkippableSlot(all[j], slots[j])
  }

  lemma {:induction false} NotKnown(all: seq<Field>, tags: set<nat>, i: nat)
    requires i < |all| && all[i].tag !in tags
    ensures Unknown(Known(all, tags, |all|), all[i].tag) && |Known(all, tags, i + 1)| == |Known(all, tags, i)|
  {
    var part := Known(all, tags, |all|);
    forall k | 0 <= k < |part| ensures !HasTag(part, k, all[i].tag) {
      var j := Place(all, tags, |all|, k);
    }
  }

  lemma {:induction false} OldReaderFrom(all: seq<Field>, slots: seq<Slot>, tags: set<nat>, i: nat)
    requires DescriptorOk(all) && Typed(all, slots) && Encodable(all, slots) && i <= |all|
    requires |WireFrom(all, slots, i)| < LIMIT
    ensures var part, values, k := Known(all, tags, |all|), KnownSlots(all, slots, tags, |all|), |Known(all, tags, i)|;
            && DescriptorOk(part) && k <= |part| && Typed(part, Partial(part, values, k))
            && ReadFields(part, Partial(part, values, k), SeenBefore(part, k), WireFrom(all, slots, i)) ==
               if ReadableFrom(all, slots, tags, i) then Some((values, SeenBefore(part, |part|))) else None
    decreases |all| - i
  {
    hide ReadFields, WireSlot, DescriptorOk, TypedSlot, EncodableSlot, RestorableSlot, SkippableSlot, Initials, Exclusive, Known, KnownSlots;
    hide Seen, SeenBefore;
    var part, values, k := Known(all, tags, |all|), KnownSlots(all, slots, tags, |all|), |Known(all, tags, i)|;
    KnownDescriptor(all, tags);
    KnownTyped(all, slots, tags);
    KnownPrefix(all, slots, tags, i, |all|);
    PartialTyped(part, values, k);
    if i == |all| {
      OldReaderDone(part, values);
    } else {
      OldReaderFrom(all, slots, tags, i + 1);
      var rest := WireFrom(all, slots, i + 1);
      assert WireFrom(all, slots, i) == WireSlot(all[i], slots[i]) + rest;
      if all[i].tag in tags {
        KnownAt(all, slots, tags, i);
        SeenNext(part, k);
        ReadSlotBack(part, values, SeenBefore(part, k), k, rest);
      } else {
        NotKnown(all, tags, i);
        assert FieldOk(all[i]) by { FieldIsOk(all, i); }
        UnknownSkipped(part, Partial(part, values, k), SeenBefore(part, k), all[i], slots[i], rest);
      }
    }
  }

  lemma {:induction false} FieldIsOk(fields: seq<Field>, i: nat)
    requires DescriptorOk(fields) && i < |fields|
    ensures FieldOk(fields[i])
  {
  }

  lemma {:induction false} OldReaderDone(fields: seq<Field>, slots: seq<Slot>)
    requires DescriptorOk(fields) && Typed(fields, slots)
    ensures Partial(fields, slots, |fields|) == slots
    ensures forall seen :: ReadFields(fields, slots, seen, []) == Some((slots, seen))
  {
  }

  /** Whatever fields of a message the reader knows, it reads exactly those, and fails exactly if one of them cannot be
      read or one of the others cannot be skipped. */
  lemma {:induction false} OldReader(all: seq<Field>, slots: seq<Slot>, tags: set<nat>)
    requires DescriptorOk(all) && Typed(all, slots) && Encodable(all, slots) && |Wire(all, slots)| < LIMIT
    ensures DescriptorOk(Known(all, tags, |all|))
    ensures Parse(Known(all, tags, |all|), Wire(all, slots)) ==
            if ReadableFrom(all, slots, tags, 0) then Some(KnownSlots(all, slots, tags, |all|)) else None
  {
    hide ReadFields, DescriptorOk, TypedSlot, EncodableSlot, RestorableSlot, SkippableSlot;
    var part, values := Known(all, tags, |all|), KnownSlots(all, slots, tags, |all|);
    KnownDescriptor(all, tags);
    OldReaderFrom(all, slots, tags, 0);
    assert |Known(all, tags, 0)| == 0;
    assert Partial(part, values, 0) == Initials(part) && SeenBefore(part, 0) == {};
    UpToHas(Min(RequiredBefore(part, |part|), MAX_REQUIRED));
  }

  // ----- A reader that knows more fields -----

  /** The required fields that the writer knows, of the first `i` fields and of the first 64 required ones. */
  function SeenKnown(all: seq<Field>, tags: set<nat>, i: nat): set<nat>
    requires i <= |all|
  {
    if i == 0 then {}
    else if all[i - 1].tag in tags then Seen(all, i - 1, SeenKnown(all, tags, i - 1))
    else SeenKnown(all, tags, i - 1)
  }

  /** The writer knows every required field, of the first 64 of them. */
  ghost predicate KnowsRequired(all: seq<Field>, tags: set<nat>) {
    forall i {:trigger all[i]} :: 0 <= i < |all| && all[i].rule.Required? && RequiredBefore(all, i) < 64 ==> all[i].tag in tags
  }

  lemma {:induction false} RequiredGrows(all: seq<Field>, i: nat, j: nat)
    requires i < j <= |all| && all[i].rule.Required?
    ensures RequiredBefore(all, i) < RequiredBefore(all, j)
  {
    if i < j - 1 {
      RequiredGrows(all, i, j - 1);
    }
  }

  /** The `k`-th required field. */
  lemma {:induction false} RequiredAt(all: seq<Field>, n: nat, k: nat) returns (i: nat)
    requires n <= |all| && k < RequiredBefore(all, n)
    ensures i < n && all[i].rule.Required? && RequiredBefore(all, i) == k
  {
    if k < RequiredBefore(all, n - 1) {
      i := RequiredAt(all, n - 1, k);
    } else {
      i := n - 1;
    }
  }

  lemma {:induction false} SeenKnownHas(all: seq<Field>, tags: set<nat>, n: nat, k: nat)
    requires n <= |all|
    ensures k in SeenKnown(all, tags, n) <==>
            k < 64 && exists i :: 0 <= i < n && all[i].tag in tags && all[i].rule.Required? && RequiredBefore(all, i) == k
  {
    if n > 0 {
      SeenKnownHas(all, tags, n - 1, k);
    }
  }

  lemma {:induction false} AllSeen(all: seq<Field>, tags: set<nat>)
    ensures (forall k :: 0 <= k < Min(RequiredBefore(all, |all|), 64) ==> k in SeenKnown(all, tags, |all|)) <==> KnowsRequired(all, tags)
  {
    var n := |all|;
    if KnowsRequired(all, tags) {
      forall k | 0 <= k < Min(RequiredBefore(all, n), 64) ensures k in SeenKnown(all, tags, n) {
        var i := RequiredAt(all, n, k);
        SeenKnownHas(all, tags, n, k);
      }
    }
    if i :| 0 <= i < n && all[i].rule.Required? && RequiredBefore(all, i) < 64 && all[i].tag !in tags {
      RequiredGrows(all, i, n);
      NotSeen(all, tags, i);
      var k := RequiredBefore(all, i);
      assert 0 <= k < Min(RequiredBefore(all, n), 64) && k !in SeenKnown(all, tags, n);
    }
  }

  lemma {:induction false} NotSeen(all: seq<Field>, tags: set<nat>, i: nat)
    requires i < |all| && all[i].rule.Required? && all[i].tag !in tags
    ensures RequiredBefore(all, i) !in SeenKnown(all, tags, |all|)
  {
    var k := RequiredBefore(all, i);
    SeenKnownHas(all, tags, |all|, k);
    if k in SeenKnown(all, tags, |all|) {
      var j :| 0 <= j < |all| && all[j].tag in tags && all[j].rule.Required? && RequiredBefore(all, j) == k;
      if i < j {
        RequiredGrows(all, i, j);
      } else {
        RequiredGrows(all, j, i);
      }
    }
  }

  /** The fields that the writer does not know have their initial values. */
  ghost predicate OthersInitial(all: seq<Field>, slots: seq<Slot>, tags: set<nat>)
    requires |all| == |slots|
  {
    forall i {:trigger slots[i]} :: 0 <= i < |all| && all[i].tag !in tags ==> slots[i] == Initials(all)[i]
  }

  lemma {:induction false} NewReaderFrom(all: seq<Field>, slots: seq<Slot>, tags: set<nat>, i: nat)
    requires DescriptorOk(all) && Typed(all, slots) && Encodable(all, slots) && OthersInitial(all, slots, tags) && i <= |all|
    requires var k := |Known(all, tags, i)|; |WireFrom(Known(all, tags, |all|), KnownSlots(all, slots, tags, |all|), k)| < LIMIT
    ensures var part, values, k := Known(all, tags, |all|), KnownSlots(all, slots, tags, |all|), |Known(all, tags, i)|;
            && k <= |part| && Typed(all, Partial(all, slots, i))
            && ReadFields(all, Partial(all, slots, i), SeenKnown(all, tags, i), WireFrom(part, values, k)) ==
               if RestorableFrom(part, values, k) then Some((slots, SeenKnown(all, tags, |all|))) else None
    decreases |all| - i
  {
    hide ReadFields, WireSlot, DescriptorOk, TypedSlot, EncodableSlot, RestorableSlot, Initials, Exclusive, Known, KnownSlots, Seen;
    var part, values, k := Known(all, tags, |all|), KnownSlots(all, slots, tags, |all|), |Known(all, tags, i)|;
    KnownPrefix(all, slots, tags, i, |all|);
    PartialTyped(all, slots, i);
    if i == |all| {
      OldReaderDone(all, slots);
    } else if all[i].tag in tags {
      KnownAt(all, slots, tags, i);
      NewReaderFrom(all, slots, tags, i + 1);
      ReadSlotBack(all, slots, SeenKnown(all, tags, i), i, WireFrom(part, values, k + 1));
    } else {
      NotKnown(all, tags, i);
      NewReaderFrom(all, slots, tags, i + 1);
      assert Partial(all, slots, i) == Partial(all, slots, i + 1);
    }
  }

  /** Whatever fields the writer knows, a reader that knows more reads them and has the others as they are initially; it
      fails exactly if one cannot be read or one of its first 64 required fields is not among them. */
  lemma {:induction false} NewReader(all: seq<Field>, slots: seq<Slot>, tags: set<nat>)
    requires DescriptorOk(all) && Typed(all, slots) && Encodable(all, slots) && OthersInitial(all, slots, tags)
    requires |Wire(Known(all, tags, |all|), KnownSlots(all, slots, tags, |all|))| < LIMIT
    ensures var part, values := Known(all, tags, |all|), KnownSlots(all, slots, tags, |all|);
            Parse(all, Wire(part, values)) ==
            if Restorable(part, values) && KnowsRequired(all, tags) then Some(slots) else None
  {
    hide ReadFields, DescriptorOk, TypedSlot, EncodableSlot, RestorableSlot, KnowsRequired;
    InitialsTyped(all);
    NewReaderFrom(all, slots, tags, 0);
    assert |Known(all, tags, 0)| == 0;
    assert Partial(all, slots, 0) == Initials(all) && SeenKnown(all, tags, 0) == {};
    AllSeen(all, tags);
  }
}
