/** What reading a message means, for any bytes. */
module PbParse {
  import opened Coding
  import opened Common
  import opened PbFields
  import opened PbWire

  // ----- Bits -----

  /** Bitwise or. */
  function Or(a: nat, b: nat): nat
    decreases a + b
  {
    if a == 0 then b else if b == 0 then a
    else (if a % 2 == 1 || b % 2 == 1 then 1 else 0) + 2 * Or(a / 2, b / 2)
  }

  /** Shifted left. */
  function Shl(n: nat, bits: nat): nat {
    n * Pow2(bits)
  }

  lemma {:induction false} OrAdds(a: nat, b: nat, k: nat)
    requires a < Pow2(k)
    ensures Or(a, b * Pow2(k)) == a + b * Pow2(k)
    decreases k
  {
    if a > 0 && b > 0 {
      var p := Pow2(k - 1);
      assert b * Pow2(k) == 2 * (b * p);
      assert b * p > 0;
      OrAdds(a / 2, b, k - 1);
    }
  }

  lemma {:induction false} Pow2Seven(n: nat)
    ensures Pow2(n + 7) == 128 * Pow2(n)
  {
    assert Pow2(n + 7) == 2 * Pow2(n + 6) == 4 * Pow2(n + 5) == 8 * Pow2(n + 4);
    assert Pow2(n + 4) == 2 * Pow2(n + 3) == 4 * Pow2(n + 2) == 8 * Pow2(n + 1);
  }

  lemma {:induction false} SmallPowers()
    ensures Pow2(7) == 0x80 && Pow2(14) == 0x4000 && Pow2(21) == 0x20_0000 && Pow2(28) == 0x1000_0000
  {
    assert Pow2(0) == 1;
    Pow2Seven(0);
    Pow2Seven(7);
    Pow2Seven(14);
    Pow2Seven(21);
  }

  lemma {:induction false} Pow2Of56()
    ensures Pow2(56) == 0x100_0000_0000_0000
  {
    SmallPowers();
    Pow2Seven(28);
    Pow2Seven(35);
    Pow2Seven(42);
    Pow2Seven(49);
  }

  lemma {:induction false} Below(result: nat, low: nat, p: nat)
    requires result < p && low < 128
    ensures result + low * p < 128 * p
  {
    assert low * p <= 127 * p;
  }

  // ----- Varints -----

  /** pb_decode_varint: at most ten bytes, in 64 bits. */
  function ReadVarint(b: Bytes): (r: Option<(nat, Bytes)>)
    ensures r.Some? ==> r.value.0 < LONG && |r.value.1| < |b|
  {
    match GetVarint64(b, 0)
    case None => None
    case Some((v, next)) => Some((v, b[next..]))
  }

  /** The bytes of a varint for 32 bits after the first one: bits past those must be zero, or those of a negative
      number.  The bit position has eight bits. */
  function Varint32Rest(b: Bytes, result: Word, bitpos: nat): (r: Option<(Word, Bytes)>)
    ensures r.Some? ==> |r.value.1| < |b|
    decreases |b|
  {
    if b == [] then None
    else
      var byte: int := b[0];
      var next := (bitpos + 7) % 256;
      if bitpos >= 32 && byte % 128 != 0 && (result < 0x8000_0000 || byte != (if bitpos < 63 then 0xFF else 0x01)) then None
      else
        var more: Word := if bitpos >= 32 then result else Or(result, Shl(byte % 128, bitpos)) % 0x1_0000_0000;
        if byte >= 128 then Varint32Rest(b[1..], more, next)
        else if next == 35 && byte >= 16 then None
        else Some((more, b[1..]))
  }

  /** pb_decode_varint32. */
  function ReadVarint32(b: Bytes): (r: Option<(Word, Bytes)>)
    ensures r.Some? ==> |r.value.1| < |b|
  {
    if b == [] then None
    else if b[0] < 128 then Some((b[0], b[1..]))
    else Varint32Rest(b[1..], b[0] - 128, 7)
  }

  function ReadBytes(b: Bytes, n: nat): (r: Option<(Bytes, Bytes)>)
    ensures r.Some? ==> |r.value.0| == n && |r.value.1| == |b| - n
  {
    if n <= |b| then Some((b[..n], b[n..])) else None
  }

  /** A length and that many bytes. */
  function ReadDelimited(b: Bytes): (r: Option<(Bytes, Bytes)>)
    ensures r.Some? ==> |r.value.0| < |b| && |r.value.1| < |b|
  {
    match ReadVarint32(b)
    case None => None
    case Some((n, rest)) => ReadBytes(rest, n)
  }

  // ----- Fields that the message type does not have -----

  function SkipVarint(b: Bytes): (r: Option<Bytes>)
    ensures r.Some? ==> |r.value| < |b|
    decreases |b|
  {
    if b == [] then None else if b[0] < 128 then Some(b[1..]) else SkipVarint(b[1..])
  }

  function SkipBytes(b: Bytes, n: nat): (r: Option<Bytes>)
    ensures r.Some? ==> |r.value| == |b| - n
  {
    if n <= |b| then Some(b[n..]) else None
  }

  function SkipField(wireType: nat, b: Bytes): (r: Option<Bytes>)
    ensures r.Some? ==> |r.value| < |b|
  {
    if wireType == VARINT then SkipVarint(b)
    else if wireType == BITS64 then SkipBytes(b, 8)
    else if wireType == STRING then
      match ReadVarint32(b)
      case None => None
      case Some((n, rest)) => SkipBytes(rest, n)
    else if wireType == BITS32 then SkipBytes(b, 4)
    else None
  }

  // ----- Values -----

  /** The number that the bits of a size mean in two's complement. */
  function AsSigned(v: nat, size: nat): int
    requires v < 2 * Half(size)
  {
    if v < Half(size) then v else v - 2 * Half(size)
  }

  /** Integers of at most 32 bits are cast to 32 bits first, and then must fit. */
  function SignedValue(v: nat, size: nat): (r: Option<int>)
    requires v < LONG && IntegerSize(size)
    ensures r.Some? ==> 0 <= r.value + Half(size) < 2 * Half(size)
  {
    if size == 8 then Some(AsSigned(v, 8))
    else
      var n := AsSigned(v % 0x1_0000_0000, 4);
      if 0 <= n + Half(size) < 2 * Half(size) then Some(n) else None
  }

  function Unzigzag(v: nat): int {
    if v % 2 == 1 then -(v / 2) - 1 else v / 2
  }

  /** The characters before the first zero. */
  function UpToNul(data: Bytes): (r: Bytes)
    ensures |r| <= |data| && 0 !in r
  {
    if data == [] || data[0] == 0 then [] else [data[0]] + UpToNul(data[1..])
  }

  predicate IsInteger(k: Kind) {
    (k.Signed? || k.Unsigned? || k.ZigzagSigned?) && IntegerSize(k.size)
  }

  /** The integer that a varint means, if it fits the field. */
  function IntegerOf(k: Kind, v: nat): (r: Option<int>)
    requires IsInteger(k) && v < LONG
    ensures r.Some? ==> LeafTyped(k, Number(r.value))
  {
    if k.Unsigned? then
      if v < 2 * Half(k.size) then Some(v) else None
    else if k.ZigzagSigned? then
      if 0 <= Unzigzag(v) + Half(k.size) < 2 * Half(k.size) then Some(Unzigzag(v)) else None
    else SignedValue(v, k.size)
  }

  function ReadInteger(k: Kind, b: Bytes): (r: Option<(Value, Bytes)>)
    requires IsInteger(k)
    ensures r.Some? ==> LeafTyped(k, r.value.0) && |r.value.1| < |b|
  {
    match ReadVarint(b)
    case None => None
    case Some((v, rest)) =>
      match IntegerOf(k, v)
      case None => None
      case Some(n) => Some((Number(n), rest))
  }

  /** A value that is not a message. */
  function ReadLeaf(k: Kind, b: Bytes): (r: Option<(Value, Bytes)>)
    requires !k.Submessage? && (k.Signed? || k.Unsigned? || k.ZigzagSigned? ==> IntegerSize(k.size))
    ensures r.Some? && !k.Binary? ==> LeafTyped(k, r.value.0)
    ensures r.Some? && k.Binary? ==> r.value.0.Chars?
    ensures r.Some? ==> StoredValue(k, r.value.0)
    ensures r.Some? ==> |r.value.1| < |b|
  {
    match k
    case Boolean =>
      (match ReadVarint32(b)
       case None => None
       case Some((n, rest)) => Some((Number(if n != 0 then 1 else 0), rest)))
    case Signed(_) => ReadInteger(k, b)
    case Unsigned(_) => ReadInteger(k, b)
    case ZigzagSigned(_) => ReadInteger(k, b)
    case Word32 =>
      (match ReadBytes(b, 4)
       case None => None
       case Some((word, rest)) => Some((Number(DecodeFixed32(word)), rest)))
    case Word64 =>
      (match ReadBytes(b, 8)
       case None => None
       case Some((word, rest)) => Fixed64Decoded(word); Some((Number(DecodeFixed64(word)), rest)))
    case Binary(capacity) =>
      (match ReadVarint32(b)
       case None => None
       case Some((n, rest)) =>
         if n > capacity then None
         else
           match ReadBytes(rest, n)
           case None => None
           case Some((data, end)) => Some((Chars(data), end)))
    case Text(size) =>
      (match ReadVarint32(b)
       case None => None
       case Some((n, rest)) =>
         if n + 1 > size then None
         else
           match ReadBytes(rest, n)
           case None => None
           case Some((data, end)) => Some((Chars(UpToNul(data)), end)))
    case FixedBinary(size) =>
      (match ReadVarint32(b)
       case None => None
       case Some((n, rest)) =>
         if n == 0 then Some((Chars(seq(size, _ => 0)), rest))
         else if n != size then None
         else
           match ReadBytes(rest, n)
           case None => None
           case Some((data, end)) => Some((Chars(data), end)))
  }

  // ----- Messages -----

  lemma {:induction false} InitialTyped(f: Field)
    requires FieldOk(f) && (!f.kind.Submessage? ==> LeafTyped(f.kind, f.initial))
    ensures TypedValue(f.kind, Initial(f))
    decreases f
  {
    assert KindOk(f.kind);
    if f.kind.Submessage? {
      InitialsTyped(f.kind.fields);
    }
  }

  lemma {:induction false} InitialsTyped(fields: seq<Field>)
    requires DescriptorOk(fields)
    ensures Typed(fields, Initials(fields))
    decreases fields
  {
    forall i | 0 <= i < |fields| ensures TypedSlot(fields[i], Initials(fields)[i]) {
      assert FieldOk(fields[i]);
      InitialTyped(fields[i]);
    }
  }

  lemma {:induction false} InitialStored(f: Field)
    requires DefaultStored(f)
    ensures StoredValue(f.kind, Initial(f))
    decreases f
  {
    if f.kind.Submessage? {
      InitialsStored(f.kind.fields);
    }
  }

  lemma {:induction false} InitialsStored(fields: seq<Field>)
    requires DefaultsStored(fields)
    ensures Stored(fields, Initials(fields))
    decreases fields
  {
    forall i | 0 <= i < |fields| ensures StoredSlot(fields[i], Initials(fields)[i]) {
      InitialStored(fields[i]);
    }
  }

  /** The union's other members are gone. */
  function ClearUnion(fields: seq<Field>, slots: seq<Slot>, rule: Rule): (r: seq<Slot>)
    requires |fields| == |slots|
    ensures |r| == |slots|
  {
    seq(|slots|, i requires 0 <= i < |slots| => if fields[i].rule == rule then Slot([]) else slots[i])
  }

  lemma {:induction false} SetTyped(fields: seq<Field>, slots: seq<Slot>, i: nat, slot: Slot)
    requires Typed(fields, slots) && i < |fields| && TypedSlot(fields[i], slot)
    ensures fields[i].rule.Member? ==> Typed(fields, ClearUnion(fields, slots, fields[i].rule)[i := slot])
    ensures !fields[i].rule.Member? ==> Typed(fields, slots[i := slot])
  {
    var cleared := if fields[i].rule.Member? then ClearUnion(fields, slots, fields[i].rule) else slots;
    var after := cleared[i := slot];
    forall j | 0 <= j < |after| ensures TypedSlot(fields[j], after[j]) {
      assert TypedSlot(fields[j], slots[j]);
    }
  }

  lemma {:induction false} SetStored(fields: seq<Field>, slots: seq<Slot>, i: nat, slot: Slot)
    requires |fields| == |slots| && i < |fields|
    ensures Stored(fields, slots) && StoredSlot(fields[i], slot) ==> Stored(fields, slots[i := slot])
    ensures Stored(fields, slots) && StoredSlot(fields[i], slot) ==> Stored(fields, ClearUnion(fields, slots, fields[i].rule)[i := slot])
  {
    if Stored(fields, slots) && StoredSlot(fields[i], slot) {
      var after := ClearUnion(fields, slots, fields[i].rule)[i := slot];
      forall j | 0 <= j < |after| ensures StoredSlot(fields[j], after[j]) {
        assert StoredSlot(fields[j], slots[j]);
      }
    }
  }

  /** What the value of a field is before it is read: that of the field, or its initial one. */
  function Current(f: Field, slot: Slot): Value {
    if f.rule.Repeated? || slot.items == [] then Initial(f) else slot.items[0]
  }

  function With(slot: Slot, v: Value): Slot {
    Slot(slot.items + [v])
  }

  /** A field was read, of an array that has room for it. */
  lemma {:induction false} FieldStored(fields: seq<Field>, slots: seq<Slot>, i: nat, v: Value)
    requires |fields| == |slots| && i < |fields|
    requires fields[i].rule.Repeated? ==> |slots[i].items| < fields[i].rule.limit
    ensures var f := fields[i];
            var after := if f.rule.Repeated? then With(slots[i], v) else Slot([v]);
            Stored(fields, slots) && StoredValue(f.kind, v) ==>
              Stored(fields, slots[i := after]) && Stored(fields, ClearUnion(fields, slots, f.rule)[i := after])
  {
    var f := fields[i];
    var after := if f.rule.Repeated? then With(slots[i], v) else Slot([v]);
    SetStored(fields, slots, i, after);
    assert Stored(fields, slots) ==> StoredSlot(f, slots[i]);
  }

  lemma {:induction false} CurrentStored(fields: seq<Field>, slots: seq<Slot>, i: nat)
    requires |fields| == |slots| && i < |fields|
    ensures DefaultsStored(fields) && Stored(fields, slots) ==>
              DefaultStored(fields[i]) && StoredValue(fields[i].kind, Current(fields[i], slots[i]))
  {
    if DefaultsStored(fields) && Stored(fields, slots) {
      InitialStored(fields[i]);
      assert StoredSlot(fields[i], slots[i]);
    }
  }

  /** A value of any kind; a message is read onto the current value. */
  function ReadValue(k: Kind, current: Value, b: Bytes): (r: Option<(Value, Bytes)>)
    requires KindOk(k) && TypedValue(k, current)
    ensures r.Some? ==> |r.value.1| < |b| && TypedValue(k, r.value.0)
    ensures r.Some? && StoredValue(k, current) && (k.Submessage? ==> DefaultsStored(k.fields)) ==> StoredValue(k, r.value.0)
    decreases |b|, 1
  {
    if k.Submessage? then
      match ReadDelimited(b)
      case None => None
      case Some((inner, rest)) =>
        match ReadMessage(k.fields, current.slots, inner)
        case None => None
        case Some(slots) => Some((Message(slots), rest))
    else ReadLeaf(k, b)
  }

  /** The elements of a packed array, as many as there is room for. */
  function ReadPacked(f: Field, slot: Slot, b: Bytes): (r: Option<Slot>)
    requires FieldOk(f) && f.rule.Repeated? && Packable(f.kind) && TypedSlot(f, slot)
    ensures r.Some? ==> TypedSlot(f, r.value)
    ensures r.Some? && StoredSlot(f, slot) ==> StoredSlot(f, r.value)
    decreases |b|
  {
    assert KindOk(f.kind);
    if b == [] then Some(slot)
    else if |slot.items| >= f.rule.limit then None
    else
      match ReadLeaf(f.kind, b)
      case None => None
      case Some((v, rest)) => ReadPacked(f, With(slot, v), rest)
  }

  /** decode_static_field. */
  function ReadField(fields: seq<Field>, slots: seq<Slot>, i: nat, wireType: nat, b: Bytes): (r: Option<(seq<Slot>, Bytes)>)
    requires DescriptorOk(fields) && Typed(fields, slots) && i < |fields|
    ensures r.Some? ==> |r.value.1| < |b| && Typed(fields, r.value.0)
    ensures r.Some? && DefaultsStored(fields) && Stored(fields, slots) ==> Stored(fields, r.value.0)
    decreases |b|, 2
  {
    var f, slot := fields[i], slots[i];
    assert FieldOk(f) && TypedSlot(f, slot);
    if f.rule.Repeated? && wireType == STRING && Packable(f.kind) then
      match ReadDelimited(b)
      case None => None
      case Some((inner, rest)) =>
        match ReadPacked(f, slot, inner)
        case None => None
        case Some(items) =>
          SetTyped(fields, slots, i, items);
          SetStored(fields, slots, i, items);
          Some((slots[i := items], rest))
    else if f.rule.Repeated? && |slot.items| >= f.rule.limit then None
    else
      InitialTyped(f);
      CurrentStored(fields, slots, i);
      match ReadValue(f.kind, Current(f, slot), b)
      case None => None
      case Some((v, rest)) =>
        var after := if f.rule.Repeated? then With(slot, v) else Slot([v]);
        SetTyped(fields, slots, i, after);
        FieldStored(fields, slots, i, v);
        Some((if f.rule.Member? then ClearUnion(fields, slots, f.rule)[i := after] else slots[i := after], rest))
  }

  datatype Tag = End | Bad | Tagged(tag: nat, wireType: nat, rest: Bytes)

  /** pb_decode_tag: a zero ends the message. */
  function ReadTag(b: Bytes): (r: Tag)
    ensures r.Tagged? ==> |r.rest| < |b|
  {
    match ReadVarint32(b)
    case None => Bad
    case Some((n, rest)) => if n == 0 then End else Tagged(n / 8, n % 8, rest)
  }

  /** The fields of a message until its end, and which required ones were there. */
  function ReadFields(fields: seq<Field>, slots: seq<Slot>, seen: set<nat>, b: Bytes): (r: Option<(seq<Slot>, set<nat>)>)
    requires DescriptorOk(fields) && Typed(fields, slots)
    ensures r.Some? ==> Typed(fields, r.value.0)
    ensures r.Some? && DefaultsStored(fields) && Stored(fields, slots) ==> Stored(fields, r.value.0)
    decreases |b|, 3
  {
    if b == [] then Some((slots, seen))
    else
      match ReadTag(b)
      case End => Some((slots, seen))
      case Bad => None
      case Tagged(tag, wireType, rest) =>
        match ReadTagged(fields, slots, seen, tag, wireType, rest)
        case None => None
        case Some(((after, seen'), end)) => ReadFields(fields, after, seen', end)
  }

  /** The data of a field after its tag, or of one that the message type does not have. */
  function ReadTagged(fields: seq<Field>, slots: seq<Slot>, seen: set<nat>, tag: nat, wireType: nat, b: Bytes)
    : (r: Option<((seq<Slot>, set<nat>), Bytes)>)
    requires DescriptorOk(fields) && Typed(fields, slots)
    ensures r.Some? ==> Typed(fields, r.value.0.0) && |r.value.1| < |b|
    ensures r.Some? && DefaultsStored(fields) && Stored(fields, slots) ==> Stored(fields, r.value.0.0)
    decreases |b|, 3
  {
    if exists i :: 0 <= i < |fields| && HasTag(fields, i, tag) then
      var i :| 0 <= i < |fields| && HasTag(fields, i, tag);
      match ReadField(fields, slots, i, wireType, b)
      case None => None
      case Some((after, rest)) => Some(((after, Seen(fields, i, seen)), rest))
    else
      match SkipUnknown(fields, tag, wireType, b)
      case None => None
      case Some(rest) => Some(((slots, seen), rest))
  }

  /** A message type without fields ends in a field with tag 0, a boolean. */
  function SkipUnknown(fields: seq<Field>, tag: nat, wireType: nat, b: Bytes): (r: Option<Bytes>)
    ensures r.Some? ==> |r.value| < |b|
  {
    if fields == [] && tag == 0 then
      match ReadVarint32(b)
      case None => None
      case Some((_, rest)) => Some(rest)
    else SkipField(wireType, b)
  }

  const MAX_REQUIRED: nat := 64

  /** The required fields that were seen, of the first 64. */
  function Seen(fields: seq<Field>, i: nat, seen: set<nat>): set<nat>
    requires i < |fields|
  {
    if fields[i].rule.Required? && RequiredBefore(fields, i) < MAX_REQUIRED then seen + {RequiredBefore(fields, i)} else seen
  }

  /** pb_decode_noinit: read onto the given values. */
  function ReadMessage(fields: seq<Field>, slots: seq<Slot>, b: Bytes): (r: Option<seq<Slot>>)
    requires DescriptorOk(fields) && Typed(fields, slots)
    ensures r.Some? ==> Typed(fields, r.value)
    ensures r.Some? && DefaultsStored(fields) && Stored(fields, slots) ==> Stored(fields, r.value)
    decreases |b|, 4
  {
    match ReadFields(fields, slots, {}, b)
    case None => None
    case Some((after, seen)) =>
      if forall k :: 0 <= k < Min(RequiredBefore(fields, |fields|), MAX_REQUIRED) ==> k in seen then Some(after) else None
  }

  /** pb_decode. */
  function Parse(fields: seq<Field>, b: Bytes): (r: Option<seq<Slot>>)
    requires DescriptorOk(fields)
    ensures r.Some? ==> Typed(fields, r.value)
    ensures r.Some? && DefaultsStored(fields) ==> Stored(fields, r.value)
  {
    InitialsTyped(fields);
    assert DefaultsStored(fields) ==> Stored(fields, Initials(fields)) by {
      if DefaultsStored(fields) { InitialsStored(fields); }
    }
    ReadMessage(fields, Initials(fields), b)
  }
}
