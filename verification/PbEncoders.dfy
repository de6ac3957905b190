/** Writing a message: the sizing pass and the writing pass. */
module PbEncoders {
  import opened Coding
  import opened Common
  import opened PbFields
  import opened PbWire

  datatype Status = Ok | StreamFull | ArraySizeExceeded | BytesSizeExceeded | SubmessageSizeChanged

  // ----- Varints -----

  /** Seven bits a byte, low bits first, with the high bit set in all of them. */
  function Groups(v: nat): Bytes {
    if v == 0 then [] else [128 + v % 128] + Groups(v / 128)
  }

  lemma {:induction false} LastGroup(v: nat)
    requires v > 0
    ensures var g := Groups(v); |g| > 0 && g[|g| - 1] >= 128 && g[..|g| - 1] + [g[|g| - 1] - 128] == Varint(v)
  {
    if v >= 128 {
      LastGroup(v / 128);
      var g, h := Groups(v), Groups(v / 128);
      assert g == [128 + v % 128] + h;
      assert g[..|g| - 1] == [128 + v % 128] + h[..|h| - 1];
    }
  }

  lemma {:induction false} GroupsLength(v: nat, n: nat)
    requires v < Bound(n)
    ensures |Groups(v)| <= n
  {
    if v > 0 {
      assert n > 0;
      GroupsLength(v / 128, n - 1);
    }
  }

  lemma {:induction false} TenGroups(v: nat)
    requires v < LONG
    ensures |Groups(v)| <= 10
  {
    assert Bound(3) == 0x20_0000;
    assert Bound(6) == 128 * (128 * (128 * Bound(3)));
    assert Bound(9) == 128 * (128 * (128 * Bound(6)));
    GroupsLength(v, 10);
  }

  // ----- The stream -----

  class OStream {
    /** Whether the stream has no callback and only counts bytes. */
    const sizing: bool
    const maxSize: nat
    var bytesWritten: nat
    /** What the buffer holds. */
    var state: Bytes

    ghost predicate Valid()
      reads this
    {
      !sizing ==> bytesWritten <= maxSize
    }

    ghost predicate Room(n: nat)
      reads this
    {
      sizing || bytesWritten + n <= maxSize
    }

    twostate predicate Wrote(b: Bytes)
      reads this
    {
      bytesWritten == old(bytesWritten) + |b| && (!sizing ==> state == old(state) + b)
    }

    constructor (sizing: bool, maxSize: nat, state: Bytes)
      ensures this.sizing == sizing && this.maxSize == maxSize && bytesWritten == 0 && this.state == state && Valid()
    {
      this.sizing, this.maxSize, this.bytesWritten, this.state := sizing, maxSize, 0, state;
    }

    /** pb_write. */
    method Write(b: Bytes) returns (status: Status)
      requires Valid()
      modifies this
      ensures Valid() && status != SubmessageSizeChanged
      ensures status == Ok <==> old(Room(|b|))
      ensures status == Ok ==> Wrote(b)
    {
      if |b| > 0 && !sizing {
        if bytesWritten + |b| > maxSize {
          return StreamFull;
        }
        state := state + b;
      }
      bytesWritten := bytesWritten + |b|;
      status := Ok;
    }

    /** pb_write of bytes that need not be there, as the stream only counts them. */
    method Count(size: nat)
      requires sizing
      modifies this
      ensures bytesWritten == old(bytesWritten) + size
    {
      bytesWritten := bytesWritten + size;
    }

    /** pb_encode_varint; its buffer has ten bytes. */
    method EncodeVarint(value: nat) returns (status: Status)
      requires Valid() && value < LONG
      modifies this
      ensures Valid() && status != SubmessageSizeChanged
      ensures status == Ok <==> old(Room(|Varint(value)|))
      ensures status == Ok ==> Wrote(Varint(value))
    {
      if value <= 0x7F {
        status := Write([value]);
        return;
      }
      var buffer: Bytes, v := [], value;
      TenGroups(value);
      while v > 0
        invariant buffer + Groups(v) == Groups(value)
      {
        assert |buffer| < 10;
        assert buffer + ([128 + v % 128] + Groups(v / 128)) == (buffer + [128 + v % 128]) + Groups(v / 128);
        buffer := buffer + [128 + v % 128];
        v := v / 128;
      }
      LastGroup(value);
      var last := |buffer| - 1;
      status := Write(buffer[..last] + [buffer[last] - 128]);
    }

    method EncodeTag(wireType: nat, tag: nat) returns (status: Status)
      requires Valid() && tag < 0x2000_0000 && wireType < 8
      modifies this
      ensures Valid() && status != SubmessageSizeChanged
      ensures status == Ok <==> old(Room(|WireTag(tag, wireType)|))
      ensures status == Ok ==> Wrote(WireTag(tag, wireType))
    {
      status := EncodeVarint(8 * tag + wireType);
    }

    /** pb_encode_string. */
    method EncodeString(data: Bytes) returns (status: Status)
      requires Valid() && |data| < LONG
      modifies this
      ensures Valid() && status != SubmessageSizeChanged
      ensures status == Ok <==> old(Room(|Prefixed(data)|))
      ensures status == Ok ==> Wrote(Prefixed(data))
    {
      status := EncodeVarint(|data|);
      if status == Ok {
        status := Write(data);
      }
    }

    // ----- Values -----

    /** The encoder for the kind of the field. */
    method EncodeValue(k: Kind, v: Value) returns (status: Status)
      requires Valid() && KindOk(k) && TypedValue(k, v) && |WireValue(k, v)| < LONG
      modifies this
      ensures Valid() && status != SubmessageSizeChanged
      ensures status == Ok <==> EncodableValue(k, v) && old(Room(|WireValue(k, v)|))
      ensures status == Ok ==> Wrote(WireValue(k, v))
      decreases v, 0
    {
      match k {
        case Boolean => status := EncodeVarint(if v.n != 0 then 1 else 0);
        case Signed(_) => status := EncodeVarint(Unsigned64(v.n));
        case Unsigned(_) => status := EncodeVarint(Unsigned64(v.n));
        case ZigzagSigned(_) => status := EncodeZigzag(v.n);
        case Word32 => status := Write(Fixed32(v.n % 0x1_0000_0000));
        case Word64 => status := Write(Fixed64(Unsigned64(v.n)));
        case Binary(capacity) =>
          if |v.data| > capacity {
            return BytesSizeExceeded;
          }
          status := EncodeString(v.data);
        case Text(_) => status := EncodeString(v.data);
        case FixedBinary(_) => status := EncodeString(v.data);
        case Submessage(fields) => status := EncodeSubmessage(fields, v.slots);
      }
    }

    /** pb_encode_svarint: shifted left in 64 bits, and inverted if negative. */
    method EncodeZigzag(n: int) returns (status: Status)
      requires Valid() && 0 <= n + 0x8000_0000_0000_0000 < 0x1_0000_0000_0000_0000
      modifies this
      ensures Valid() && status != SubmessageSizeChanged
      ensures status == Ok <==> old(Room(|Varint(Zigzag(n))|))
      ensures status == Ok ==> Wrote(Varint(Zigzag(n)))
    {
      var shifted := Unsigned64(2 * Unsigned64(n));
      var zigzagged := if n < 0 then 0xffff_ffff_ffff_ffff - shifted else shifted;
      assert zigzagged == Zigzag(n);
      status := EncodeVarint(zigzagged);
    }

    /** The size is taken by a pass that only counts; the second pass may not write more. */
    method EncodeSubmessage(fields: seq<Field>, slots: seq<Slot>) returns (status: Status)
      requires Valid() && DescriptorOk(fields) && Typed(fields, slots) && |Prefixed(Wire(fields, slots))| < LONG
      modifies this
      ensures Valid() && status != SubmessageSizeChanged
      ensures status == Ok <==> Encodable(fields, slots) && old(Room(|Prefixed(Wire(fields, slots))|))
      ensures status == Ok ==> Wrote(Prefixed(Wire(fields, slots)))
      decreases slots, |slots| + 2
    {
      var counter := new OStream(true, 0, []);
      status := counter.Encode(fields, slots);
      if status != Ok {
        return;
      }
      var size := counter.bytesWritten;
      status := EncodeVarint(size);
      if status != Ok {
        return;
      }
      if sizing {
        Count(size);
        return;
      }
      if bytesWritten + size > maxSize {
        return StreamFull;
      }
      var substream := new OStream(false, size, state);
      status := substream.Encode(fields, slots);
      bytesWritten := bytesWritten + substream.bytesWritten;
      state := substream.state;
      if substream.bytesWritten != size {
        status := SubmessageSizeChanged;
      }
    }

    // ----- Fields -----

    /** A tag and a value. */
    method EncodeTagged(f: Field, v: Value) returns (status: Status)
      requires Valid() && FieldOk(f) && TypedValue(f.kind, v) && |WireTag(f.tag, WireType(f.kind)) + WireValue(f.kind, v)| < LONG
      modifies this
      ensures Valid() && status != SubmessageSizeChanged
      ensures status == Ok <==>
        EncodableValue(f.kind, v) && old(Room(|WireTag(f.tag, WireType(f.kind)) + WireValue(f.kind, v)|))
      ensures status == Ok ==> Wrote(WireTag(f.tag, WireType(f.kind)) + WireValue(f.kind, v))
      decreases v, 1
    {
      status := EncodeTag(WireType(f.kind), f.tag);
      if status == Ok {
        status := EncodeValue(f.kind, v);
      }
    }

    /** The elements of an array that is not packed. */
    method EncodeEach(f: Field, slot: Slot) returns (status: Status)
      requires Valid() && FieldOk(f) && TypedSlot(f, slot) && |WireEach(f, slot.items, 0)| < LONG
      modifies this
      ensures Valid() && status != SubmessageSizeChanged
      ensures status == Ok <==>
        old(Room(|WireEach(f, slot.items, 0)|)) &&
        forall j {:trigger slot.items[j]} :: 0 <= j < |slot.items| ==> EncodableValue(f.kind, slot.items[j])
      ensures status == Ok ==> Wrote(WireEach(f, slot.items, 0))
      decreases slot, 0
    {
      var items, j := slot.items, 0;
      status := Ok;
      while j < |items|
        invariant 0 <= j <= |items| && Valid() && status == Ok && |WireEach(f, items, j)| < LONG
        invariant bytesWritten + |WireEach(f, items, j)| == old(bytesWritten) + |WireEach(f, items, 0)|
        invariant !sizing ==> state + WireEach(f, items, j) == old(state) + WireEach(f, items, 0)
        invariant forall k {:trigger items[k]} :: 0 <= k < j ==> EncodableValue(f.kind, items[k])
      {
        ghost var was, rest := state, WireEach(f, items, j + 1);
        ghost var one := WireTag(f.tag, WireType(f.kind)) + WireValue(f.kind, items[j]);
        status := EncodeTagged(f, items[j]);
        if status != Ok {
          return;
        }
        assert was + (one + rest) == (was + one) + rest;
        j := j + 1;
      }
    }

    /** The elements of a packed array. */
    method EncodeAll(k: Kind, slot: Slot) returns (status: Status)
      requires Valid() && KindOk(k) && Packable(k) && |WirePacked(k, slot.items, 0)| < LONG
      requires forall j {:trigger slot.items[j]} :: 0 <= j < |slot.items| ==> TypedValue(k, slot.items[j])
      modifies this
      ensures Valid() && status != SubmessageSizeChanged
      ensures status == Ok <==> old(Room(|WirePacked(k, slot.items, 0)|))
      ensures status == Ok ==> Wrote(WirePacked(k, slot.items, 0))
      decreases slot, 0
    {
      var items, j := slot.items, 0;
      status := Ok;
      while j < |items|
        invariant 0 <= j <= |items| && Valid() && status == Ok && |WirePacked(k, items, j)| < LONG
        invariant bytesWritten + |WirePacked(k, items, j)| == old(bytesWritten) + |WirePacked(k, items, 0)|
        invariant !sizing ==> state + WirePacked(k, items, j) == old(state) + WirePacked(k, items, 0)
      {
        ghost var was, rest := state, WirePacked(k, items, j + 1);
        status := EncodeValue(k, items[j]);
        if status != Ok {
          return;
        }
        assert was + (WireValue(k, items[j]) + rest) == (was + WireValue(k, items[j])) + rest;
        j := j + 1;
      }
    }

    /** The size of a packed array: fixed for each element, or taken by a pass that only counts. */
    method PackedSize(k: Kind, slot: Slot) returns (size: nat)
      requires KindOk(k) && Packable(k) && |WirePacked(k, slot.items, 0)| < LONG
      requires forall j {:trigger slot.items[j]} :: 0 <= j < |slot.items| ==> TypedValue(k, slot.items[j])
      ensures size == |WirePacked(k, slot.items, 0)|
      decreases slot, 1
    {
      if k.Word32? {
        FixedLength(k, slot.items, 0, 4);
        return 4 * |slot.items|;
      }
      if k.Word64? {
        FixedLength(k, slot.items, 0, 8);
        return 8 * |slot.items|;
      }
      var counter := new OStream(true, 0, []);
      var status := counter.EncodeAll(k, slot);
      size := counter.bytesWritten;
    }

    method EncodePacked(f: Field, slot: Slot) returns (status: Status)
      requires Valid() && FieldOk(f) && Packable(f.kind) && TypedSlot(f, slot)
      requires |WireTag(f.tag, STRING) + Prefixed(WirePacked(f.kind, slot.items, 0))| < LONG
      modifies this
      ensures Valid() && status != SubmessageSizeChanged
      ensures status == Ok <==> old(Room(|WireTag(f.tag, STRING) + Prefixed(WirePacked(f.kind, slot.items, 0))|))
      ensures status == Ok ==> Wrote(WireTag(f.tag, STRING) + Prefixed(WirePacked(f.kind, slot.items, 0)))
      decreases slot, 2
    {
      status := EncodeTag(STRING, f.tag);
      if status != Ok {
        return;
      }
      var size := PackedSize(f.kind, slot);
      status := EncodeVarint(size);
      if status != Ok {
        return;
      }
      if sizing {
        Count(size);
        return;
      }
      status := EncodeAll(f.kind, slot);
    }

    method EncodeArray(f: Field, slot: Slot) returns (status: Status)
      requires Valid() && FieldOk(f) && f.rule.Repeated? && TypedSlot(f, slot) && |WireSlot(f, slot)| < LONG
      modifies this
      ensures Valid() && status != SubmessageSizeChanged
      ensures status == Ok <==> EncodableSlot(f, slot) && old(Room(|WireSlot(f, slot)|))
      ensures status == Ok ==> Wrote(WireSlot(f, slot))
      decreases slot, 3
    {
      if |slot.items| == 0 {
        return Ok;
      }
      if |slot.items| > f.rule.limit {
        return ArraySizeExceeded;
      }
      if Packable(f.kind) {
        status := EncodePacked(f, slot);
      } else {
        status := EncodeEach(f, slot);
      }
    }

    /** encode_basic_field. */
    method EncodeField(f: Field, slot: Slot) returns (status: Status)
      requires Valid() && FieldOk(f) && TypedSlot(f, slot) && |WireSlot(f, slot)| < LONG
      modifies this
      ensures Valid() && status != SubmessageSizeChanged
      ensures status == Ok <==> EncodableSlot(f, slot) && old(Room(|WireSlot(f, slot)|))
      ensures status == Ok ==> Wrote(WireSlot(f, slot))
      decreases slot, 4
    {
      if f.rule.Repeated? {
        status := EncodeArray(f, slot);
        return;
      }
      var present := |slot.items| == 1;
      if f.rule.Singular? {
        present := !ZeroValue(f.kind, slot.items[0]);
      }
      OneItem(f, slot.items);
      if present {
        status := EncodeTagged(f, slot.items[0]);
      } else {
        status := Ok;
        if |slot.items| == 1 {
          ZeroIsEncodable(f.kind, slot.items[0]);
        }
      }
    }

    /** pb_encode. */
    method Encode(fields: seq<Field>, slots: seq<Slot>) returns (status: Status)
      requires Valid() && DescriptorOk(fields) && Typed(fields, slots) && |Wire(fields, slots)| < LONG
      modifies this
      ensures Valid() && status != SubmessageSizeChanged
      ensures status == Ok <==> Encodable(fields, slots) && old(Room(|Wire(fields, slots)|))
      ensures status == Ok ==> Wrote(Wire(fields, slots))
      decreases slots, |slots| + 1
    {
      status := Ok;
      var iter := new FieldIter(fields);
      var more := |fields| > 0;
      ghost var i := 0;
      while more
        invariant Valid() && fresh(iter) && iter.Valid() && iter.fields == fields && (if more then i == iter.pos < |fields| else i == |fields|)
        invariant status == Ok && |WireFrom(fields, slots, i)| < LONG
        invariant bytesWritten + |WireFrom(fields, slots, i)| == old(bytesWritten) + |Wire(fields, slots)|
        invariant !sizing ==> state + WireFrom(fields, slots, i) == old(state) + Wire(fields, slots)
        invariant forall k {:trigger slots[k]} :: 0 <= k < i ==> EncodableSlot(fields[k], slots[k])
        decreases |fields| - i
      {
        ghost var was, rest := state, WireFrom(fields, slots, i + 1);
        status := EncodeField(fields[iter.pos], slots[iter.pos]);
        if status != Ok {
          return;
        }
        assert was + (WireSlot(fields[i], slots[i]) + rest) == (was + WireSlot(fields[i], slots[i])) + rest;
        more := iter.Next();
        i := i + 1;
      }
    }
  }

  /** pb_get_encoded_size. */
  method GetEncodedSize(fields: seq<Field>, slots: seq<Slot>) returns (size: Option<nat>)
    requires DescriptorOk(fields) && Typed(fields, slots) && |Wire(fields, slots)| < LONG
    ensures size == if Encodable(fields, slots) then Some(|Wire(fields, slots)|) else None
  {
    var stream := new OStream(true, 0, []);
    var status := stream.Encode(fields, slots);
    size := if status == Ok then Some(stream.bytesWritten) else None;
  }

  lemma {:induction false} OneItem(f: Field, items: seq<Value>)
    requires |items| <= 1
    ensures WireEach(f, items, 0) == if items == [] then [] else WireTag(f.tag, WireType(f.kind)) + WireValue(f.kind, items[0])
  {
    if |items| == 1 {
      assert WireEach(f, items, 1) == [];
      var w := WireTag(f.tag, WireType(f.kind)) + WireValue(f.kind, items[0]);
      assert w + [] == w;
    }
  }

  lemma {:induction false} FixedLength(k: Kind, items: seq<Value>, j: nat, size: nat)
    requires j <= |items| && forall i {:trigger items[i]} :: 0 <= i < |items| ==> TypedValue(k, items[i])
    requires (k.Word32? && size == 4) || (k.Word64? && size == 8)
    ensures |WirePacked(k, items, j)| == size * (|items| - j)
    decreases |items| - j
  {
    if j < |items| {
      FixedLength(k, items, j + 1, size);
      assert TypedValue(k, items[j]);
    }
  }

  /** Where all is absent there is nothing to exceed a limit. */
  lemma {:induction false} ZeroIsEncodable(k: Kind, v: Value)
    requires TypedValue(k, v) && ZeroValue(k, v)
    ensures EncodableValue(k, v)
    decreases v
  {
    if k.Submessage? {
      var fields, slots := k.fields, v.slots;
      forall i | 0 <= i < |slots| ensures EncodableSlot(fields[i], slots[i]) {
        assert TypedSlot(fields[i], slots[i]);
        if fields[i].rule.Singular? {
          ZeroIsEncodable(fields[i].kind, slots[i].items[0]);
        }
      }
    }
  }
}
