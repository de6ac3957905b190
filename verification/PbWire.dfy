/** Protocol Buffers messages whose fields are stored in the message itself: descriptors, values, and what they are
    on the wire. */
module PbWire {
  import opened Coding
  import opened Common

  /** What a field holds; the sizes are those of the C members. */
  datatype Kind =
    | Boolean | Signed(size: nat) | Unsigned(size: nat) | ZigzagSigned(size: nat) | Word32 | Word64
    | Binary(capacity: nat) | Text(size: nat) | FixedBinary(size: nat) | Submessage(fields: seq<Field>)

  /** Whether a field may be absent: always present; with a flag; absent just when it is zero; counted; or in a union
      of which one member is present. */
  datatype Rule = Required | Optional | Singular | Repeated(limit: nat) | Member(union: nat)

  datatype Field = Field(tag: nat, rule: Rule, kind: Kind, initial: Value)

  /** The value of a message has a list of present values for each of its fields. */
  datatype Value = Number(n: int) | Chars(data: Bytes) | Message(slots: seq<Slot>)

  datatype Slot = Slot(items: seq<Value>)

  /** Half of the range of an integer of the given number of bytes. */
  function Half(size: nat): nat {
    if size == 1 then 0x80 else if size == 2 then 0x8000 else if size == 4 then 0x8000_0000 else 0x8000_0000_0000_0000
  }

  predicate IntegerSize(size: nat) {
    size == 1 || size == 2 || size == 4 || size == 8
  }

  predicate Packable(k: Kind) {
    k.Boolean? || k.Signed? || k.Unsigned? || k.ZigzagSigned? || k.Word32? || k.Word64?
  }

  predicate LeafTyped(k: Kind, v: Value) {
    match k
    case Boolean => v.Number? && 0 <= v.n <= 1
    case Signed(size) => v.Number? && 0 <= v.n + Half(size) < 2 * Half(size)
    case Unsigned(size) => v.Number? && 0 <= v.n < 2 * Half(size)
    case ZigzagSigned(size) => v.Number? && 0 <= v.n + Half(size) < 2 * Half(size)
    case Word32 => v.Number? && 0 <= v.n < WORD
    case Word64 => v.Number? && 0 <= v.n < LONG
    case Binary(_) => v.Chars? && |v.data| < WORD
    // the characters before the terminator, or all of them if there is none
    case Text(size) => v.Chars? && |v.data| <= size && 0 !in v.data
    case FixedBinary(size) => v.Chars? && |v.data| == size
    case Submessage(fields) => v.Message?
  }

  // ----- Descriptors -----

  ghost predicate KindOk(k: Kind) {
    match k
    case Signed(size) => IntegerSize(size)
    case Unsigned(size) => IntegerSize(size)
    case ZigzagSigned(size) => IntegerSize(size)
    case Binary(capacity) => capacity < WORD
    case Text(size) => size < WORD
    case FixedBinary(size) => size < WORD
    case Submessage(fields) => DescriptorOk(fields)
    case _ => true
  }

  /** Field numbers have 29 bits, sizes 32. */
  ghost predicate FieldOk(f: Field) {
    1 <= f.tag < 0x2000_0000 && KindOk(f.kind)
  }

  ghost predicate DescriptorOk(fields: seq<Field>) {
    && (forall i {:trigger fields[i]} :: 0 <= i < |fields| ==> FieldOk(fields[i]))
    && (forall i, j :: 0 <= i < j < |fields| ==> fields[i].tag != fields[j].tag)
    && (forall i {:trigger fields[i]} :: 0 <= i < |fields| && !fields[i].kind.Submessage? ==>
          LeafTyped(fields[i].kind, fields[i].initial))
    // a field without a presence flag has no default of its own
    && (forall i :: 0 <= i < |fields| && fields[i].rule.Singular? && !fields[i].kind.Submessage? ==>
          fields[i].initial == if Packable(fields[i].kind) then Number(0) else Chars([]))
  }

  // ----- Values -----

  predicate CountOk(rule: Rule, count: nat) {
    match rule
    case Required => count == 1
    case Singular => count == 1
    case Optional => count <= 1
    case Member(_) => count <= 1
    case Repeated(_) => true
  }

  /** At most one member of a union is present. */
  ghost predicate Exclusive(fields: seq<Field>, slots: seq<Slot>)
    requires |fields| == |slots|
  {
    forall i, j :: 0 <= i < j < |fields| && fields[i].rule.Member? && fields[i].rule == fields[j].rule ==>
      slots[i].items == [] || slots[j].items == []
  }

  ghost predicate TypedValue(k: Kind, v: Value)
    decreases v, 0
  {
    LeafTyped(k, v) && (k.Submessage? ==> Typed(k.fields, v.slots))
  }

  ghost predicate TypedSlot(f: Field, slot: Slot)
    decreases slot
  {
    && CountOk(f.rule, |slot.items|)
    && forall j {:trigger slot.items[j]} :: 0 <= j < |slot.items| ==> TypedValue(f.kind, slot.items[j])
  }

  /** The value of a message of the given type. */
  ghost predicate Typed(fields: seq<Field>, slots: seq<Slot>)
    decreases slots
  {
    && |fields| == |slots| && Exclusive(fields, slots)
    && forall i {:trigger slots[i]} :: 0 <= i < |slots| ==> TypedSlot(fields[i], slots[i])
  }

  ghost predicate EncodableValue(k: Kind, v: Value)
    decreases v, 0
  {
    && (k.Binary? && v.Chars? ==> |v.data| <= k.capacity)
    && (k.Submessage? && v.Message? ==> Encodable(k.fields, v.slots))
  }

  ghost predicate EncodableSlot(f: Field, slot: Slot)
    decreases slot
  {
    && (f.rule.Repeated? ==> |slot.items| <= f.rule.limit)
    && forall j {:trigger slot.items[j]} :: 0 <= j < |slot.items| ==> EncodableValue(f.kind, slot.items[j])
  }

  /** All counts and sizes are within the descriptor's limits. */
  ghost predicate Encodable(fields: seq<Field>, slots: seq<Slot>)
    decreases slots
  {
    forall i {:trigger slots[i]} :: 0 <= i < |slots| && i < |fields| ==> EncodableSlot(fields[i], slots[i])
  }

  ghost predicate StoredValue(k: Kind, v: Value)
    decreases v, 0
  {
    && (k.Binary? && v.Chars? ==> |v.data| <= k.capacity)
    && (k.Text? && v.Chars? ==> |v.data| < k.size)
    && (k.Submessage? && v.Message? ==> Stored(k.fields, v.slots))
  }

  ghost predicate StoredSlot(f: Field, slot: Slot)
    decreases slot
  {
    && (f.rule.Repeated? ==> |slot.items| <= f.rule.limit)
    && forall j {:trigger slot.items[j]} :: 0 <= j < |slot.items| ==> StoredValue(f.kind, slot.items[j])
  }

  /** Everything is within its storage: arrays, byte fields, and texts with their terminators. */
  ghost predicate Stored(fields: seq<Field>, slots: seq<Slot>)
    decreases slots
  {
    forall i {:trigger slots[i]} :: 0 <= i < |slots| && i < |fields| ==> StoredSlot(fields[i], slots[i])
  }

  /** The default of every field is within the field's storage. */
  ghost predicate DefaultsStored(fields: seq<Field>) {
    forall i {:trigger fields[i]} :: 0 <= i < |fields| ==> DefaultStored(fields[i])
  }

  ghost predicate DefaultStored(f: Field) {
    if f.kind.Submessage? then DefaultsStored(f.kind.fields) else StoredValue(f.kind, f.initial)
  }

  function Initial(f: Field): Value
    decreases f, 0
  {
    if f.kind.Submessage? then Message(Initials(f.kind.fields)) else f.initial
  }

  /** pb_message_set_to_defaults. */
  function Initials(fields: seq<Field>): (slots: seq<Slot>)
    ensures |slots| == |fields|
    decreases fields
  {
    seq(|fields|, i requires 0 <= i < |fields| =>
      if fields[i].rule.Required? || fields[i].rule.Singular? then Slot([Initial(fields[i])]) else Slot([]))
  }

  // ----- Fields that are absent because they are zero -----

  predicate ZeroValue(k: Kind, v: Value)
    decreases v, 0
  {
    match k
    case Binary(_) => v.Chars? && v.data == []
    case Text(_) => v.Chars? && (v.data == [] || v.data[0] == 0)
    case FixedBinary(size) => size == 0
    case Submessage(fields) => v.Message? && AllZero(fields, v.slots)
    case _ => v.Number? && v.n == 0
  }

  /** pb_check_proto3_default_value for all fields of a message. */
  predicate AllZero(fields: seq<Field>, slots: seq<Slot>)
    decreases slots
  {
    && |fields| == |slots|
    && forall i {:trigger slots[i]} :: 0 <= i < |fields| ==>
         match fields[i].rule
         case Required => false
         case Singular => |slots[i].items| == 1 && ZeroValue(fields[i].kind, slots[i].items[0])
         case _ => slots[i].items == []
  }

  /** What counts as absent for a field without a flag is what an absent field is set to. */
  lemma {:induction false} ZeroIsInitial(fields: seq<Field>, slots: seq<Slot>)
    requires DescriptorOk(fields) && Typed(fields, slots) && AllZero(fields, slots)
    ensures slots == Initials(fields)
    decreases slots
  {
    forall i | 0 <= i < |fields| ensures slots[i] == Initials(fields)[i] {
      if fields[i].rule.Singular? {
        ZeroValueIsInitial(fields[i], slots[i].items[0]);
      }
    }
  }

  lemma {:induction false} ZeroValueIsInitial(f: Field, v: Value)
    requires FieldOk(f) && TypedValue(f.kind, v) && ZeroValue(f.kind, v)
    requires !f.kind.Submessage? ==> f.initial == if Packable(f.kind) then Number(0) else Chars([])
    ensures v == Initial(f)
    decreases v
  {
    if f.kind.Submessage? {
      ZeroIsInitial(f.kind.fields, v.slots);
    }
  }

  // ----- The wire -----

  const VARINT: nat := 0
  const BITS64: nat := 1
  const STRING: nat := 2
  const BITS32: nat := 5

  function WireType(k: Kind): nat {
    match k
    case Word32 => BITS32
    case Word64 => BITS64
    case Binary(_) => STRING
    case Text(_) => STRING
    case FixedBinary(_) => STRING
    case Submessage(_) => STRING
    case _ => VARINT
  }

  function WireTag(tag: nat, wireType: nat): Bytes {
    Varint(8 * tag + wireType)
  }

  /** 0, -1, 1, -2, 2 and so on. */
  function Zigzag(n: int): nat {
    if n < 0 then -2 * n - 1 else 2 * n
  }

  /** A number in 64 bits, in two's complement. */
  function Unsigned64(n: int): nat {
    n % 0x1_0000_0000_0000_0000
  }

  function WireNumber(k: Kind, n: int): Bytes {
    match k
    case Boolean => Varint(if n != 0 then 1 else 0)
    case Signed(_) => Varint(Unsigned64(n))
    case Unsigned(_) => Varint(Unsigned64(n))
    case ZigzagSigned(_) => Varint(Zigzag(n))
    case Word32 => Fixed32(n % 0x1_0000_0000)
    case _ => Fixed64(Unsigned64(n))
  }

  /** A value without its tag. */
  function WireValue(k: Kind, v: Value): Bytes
    decreases v, 0
  {
    match v
    case Number(n) => WireNumber(k, n)
    case Chars(data) => Prefixed(data)
    case Message(slots) => if k.Submessage? then Prefixed(WireFrom(k.fields, slots, 0)) else []
  }

  /** Values one after the other, from the `j`-th on. */
  function WirePacked(k: Kind, items: seq<Value>, j: nat): Bytes
    requires j <= |items|
    decreases items, |items| - j
  {
    if j == |items| then [] else WireValue(k, items[j]) + WirePacked(k, items, j + 1)
  }

  /** Tagged values one after the other, from the `j`-th on. */
  function WireEach(f: Field, items: seq<Value>, j: nat): Bytes
    requires j <= |items|
    decreases items, |items| - j
  {
    if j == |items| then []
    else WireTag(f.tag, WireType(f.kind)) + WireValue(f.kind, items[j]) + WireEach(f, items, j + 1)
  }

  /** All that is written for a field. */
  function WireSlot(f: Field, slot: Slot): Bytes
    decreases slot
  {
    var items := slot.items;
    if f.rule.Repeated? && Packable(f.kind) && items != [] then
      WireTag(f.tag, STRING) + Prefixed(WirePacked(f.kind, items, 0))
    else if f.rule.Singular? && items != [] && ZeroValue(f.kind, items[0]) then []
    else WireEach(f, items, 0)
  }

  /** The fields of a message, from the `i`-th on. */
  function WireFrom(fields: seq<Field>, slots: seq<Slot>, i: nat): Bytes
    decreases slots, |slots| - i
  {
    if i >= |slots| || i >= |fields| then [] else WireSlot(fields[i], slots[i]) + WireFrom(fields, slots, i + 1)
  }

  /** The wire form of a message. */
  function Wire(fields: seq<Field>, slots: seq<Slot>): Bytes {
    WireFrom(fields, slots, 0)
  }
}
