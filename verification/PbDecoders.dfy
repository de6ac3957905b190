/** Reading a message: streams and substreams over a buffer. */
module PbDecoders {
  import opened Coding
  import opened Common
  import opened PbFields
  import opened PbParse
  import opened PbWire

  // ----- Bits -----

  /** Seven more bits of a number in 64 bits: of the last ones only one is left. */
  lemma {:induction false} ShiftIn(result: nat, low: nat, k: nat)
    requires k <= 9 && result < Pow2(7 * k) && low < 128
    ensures result + Shl(low, 7 * k) < Pow2(7 * k + 7)
    ensures Or(result, Shl(low, 7 * k) % 0x1_0000_0000_0000_0000) == (result + Shl(low, 7 * k)) % 0x1_0000_0000_0000_0000
    ensures k < 9 ==> result + Shl(low, 7 * k) < 0x8000_0000_0000_0000
  {
    hide Or, Pow2;
    Pow2Seven(7 * k);
    Below(result, low, Pow2(7 * k));
    Pow2Of63();
    if k <= 8 {
      OrAdds(result, low, 7 * k);
      Pow2Grows(7 * k + 7, 63);
    } else {
      OrAdds(result, low % 2, 63);
      TopBit(result, low);
    }
  }

  lemma {:induction false} TopBit(result: nat, low: nat)
    requires result < 0x8000_0000_0000_0000
    ensures low * 0x8000_0000_0000_0000 % 0x1_0000_0000_0000_0000 == low % 2 * 0x8000_0000_0000_0000
    ensures (result + low * 0x8000_0000_0000_0000) % 0x1_0000_0000_0000_0000 == result + low % 2 * 0x8000_0000_0000_0000
  {
    assert low == 2 * (low / 2) + low % 2;
    assert low * 0x8000_0000_0000_0000 == low / 2 * 0x1_0000_0000_0000_0000 + low % 2 * 0x8000_0000_0000_0000;
  }

  lemma {:induction false} Pow2Of63()
    ensures Pow2(63) == 0x8000_0000_0000_0000
  {
    Pow2Of56();
    Pow2Seven(56);
  }

  lemma {:induction false} Pow2Grows(m: nat, n: nat)
    requires m <= n
    ensures Pow2(m) <= Pow2(n)
  {
    if m < n {
      Pow2Grows(m, n - 1);
    }
  }

  // ----- The loop of a varint -----

  /** `k` bytes of the varint were read. */
  ghost predicate ReadSoFar(b: Bytes, k: nat, result: nat) {
    if k < 10 then
      result < Pow2(7 * k) && DecodeVarint(b, 0, 10) == Shifted(DecodeVarint(b, k, 10 - k), result, Pow2(7 * k))
    else DecodeVarint(b, 0, 10) == None
  }

  lemma {:induction false} NothingRead(b: Bytes)
    ensures ReadSoFar(b, 0, 0) && b[0..] == b
  {
    assert Pow2(0) == 1;
  }

  lemma {:induction false} NoMore(b: Bytes, k: nat, result: nat)
    requires ReadSoFar(b, k, result) && k <= 10 && (k == 10 || k >= |b|)
    ensures ReadVarint(b) == None
  {
  }

  lemma {:induction false} LastByte(b: Bytes, k: nat, result: nat)
    requires ReadSoFar(b, k, result) && k < 10 && k < |b| && b[k] < 128
    ensures ReadVarint(b) == Some((Or(result, Shl(b[k] % 128, 7 * k) % 0x1_0000_0000_0000_0000), b[k + 1..]))
  {
    hide Or, Pow2, DecodeVarint, Shl;
    var low: nat := b[k];
    assert low % 128 == low;
    ShiftIn(result, low, k);
    LastShifted(b, k, result, low);
  }

  lemma {:induction false} LastShifted(b: Bytes, k: nat, result: nat, low: nat)
    requires k < 10 && k < |b| && b[k] as int == low < 128
    ensures Shifted(DecodeVarint(b, k, 10 - k), result, Pow2(7 * k)) == Some((result + Shl(low, 7 * k), k + 1))
  {
    assert DecodeVarint(b, k, 10 - k) == Some((low, k + 1));
    assert Pow2(7 * k) * low == low * Pow2(7 * k);
  }

  lemma {:induction false} MoreShifted(b: Bytes, k: nat, result: nat, low: nat)
    requires k < 10 && k < |b| && b[k] as int == 128 + low
    ensures Shifted(DecodeVarint(b, k, 10 - k), result, Pow2(7 * k)) ==
            Shifted(DecodeVarint(b, k + 1, 9 - k), result + Shl(low, 7 * k), Pow2(7 * k + 7))
  {
    hide DecodeVarint;
    Pow2Seven(7 * k);
    ShiftOne(b, k, 9 - k, result, Pow2(7 * k));
  }

  lemma {:induction false} NoBytesLeft(b: Bytes, k: nat, result: nat, scale: nat)
    ensures Shifted(DecodeVarint(b, k, 0), result, scale) == None
  {
  }

  lemma {:induction false} OneMoreByte(b: Bytes, k: nat, result: nat)
    requires ReadSoFar(b, k, result) && k < 10 && k < |b| && b[k] >= 128
    ensures ReadSoFar(b, k + 1, Or(result, Shl(b[k] % 128, 7 * k) % 0x1_0000_0000_0000_0000))
  {
    hide Or, Pow2, DecodeVarint, Shifted, Shl;
    var low: nat := b[k] as int - 128;
    assert b[k] as int % 128 == low;
    ShiftIn(result, low, k);
    MoreShifted(b, k, result, low);
    if k == 9 {
      NoBytesLeft(b, k + 1, result + Shl(low, 7 * k), Pow2(7 * k + 7));
    }
  }

  // ----- Casts -----

  /** A cast to a signed integer of the given size. */
  function CastSigned(n: int, size: nat): int
    requires IntegerSize(size)
  {
    AsSigned(n % (2 * Half(size)), size)
  }

  /** A cast changes a number exactly if it is out of range. */
  lemma {:induction false} CastKeeps(n: int, size: nat)
    requires IntegerSize(size)
    ensures CastSigned(n, size) == n <==> 0 <= n + Half(size) < 2 * Half(size)
  {
    var m := 2 * Half(size);
    assert m == 0x100 || m == 0x1_0000 || m == 0x1_0000_0000 || m == 0x1_0000_0000_0000_0000;
    if n < 0 <= n + Half(size) {
      assert n % m == n + m;
    } else if 0 <= n < Half(size) {
      assert n % m == n;
    }
  }

  /** A varint before it is cast to the size of the field: integers of at most 32 bits have 32 bits here. */
  function Widest(k: Kind, v: nat): int
    requires IsInteger(k) && v < LONG
  {
    if k.Unsigned? then v
    else if k.ZigzagSigned? then CastSigned(if v % 2 == 1 then 0xffff_ffff_ffff_ffff - v / 2 else v / 2, 8)
    else if k.size == 8 then CastSigned(v, 8) else CastSigned(v, 4)
  }

  /** The number fits exactly if the cast to the size of the field keeps it. */
  lemma {:induction false} Clamped(k: Kind, v: nat)
    requires IsInteger(k) && v < LONG
    ensures var wide := Widest(k, v);
            var clamped := if k.Unsigned? then wide % (2 * Half(k.size)) else CastSigned(wide, k.size);
            IntegerOf(k, v) == if clamped != wide then None else Some(clamped)
  {
    hide CastSigned;
    if k.Unsigned? {
      UnsignedKeeps(v, 2 * Half(k.size));
    } else {
      CastKeeps(Widest(k, v), k.size);
      if k.ZigzagSigned? {
        ZigzagIsCast(v);
      } else {
        WordIsCast(v);
      }
    }
  }

  lemma {:induction false} UnsignedKeeps(v: nat, m: nat)
    requires m > 0
    ensures v % m == v <==> v < m
  {
  }

  lemma {:induction false} WordIsCast(v: nat)
    requires v < LONG
    ensures CastSigned(v, 8) == AsSigned(v, 8) && CastSigned(v, 4) == AsSigned(v % 0x1_0000_0000, 4)
  {
  }

  lemma {:induction false} ZigzagIsCast(v: nat)
    requires v < LONG
    ensures CastSigned(if v % 2 == 1 then 0xffff_ffff_ffff_ffff - v / 2 else v / 2, 8) == Unzigzag(v)
  {
  }

  // ----- Streams -----

  class IStream {
    /** The buffer, the position in it, and how much may be read. */
    const data: Bytes
    var state: nat
    var bytesLeft: nat

    ghost predicate Valid()
      reads this
    {
      state + bytesLeft <= |data|
    }

    function Rest(): (r: Bytes)
      requires Valid()
      reads this
      ensures |r| == bytesLeft
    {
      data[state..state + bytesLeft]
    }

    /** The result and what is left are what the specification says. */
    ghost predicate Got<T>(r: Option<T>, spec: Option<(T, Bytes)>)
      requires Valid()
      reads this
    {
      match spec
      case None => r.None?
      case Some((v, rest)) => r == Some(v) && Rest() == rest
    }

    twostate predicate SameEnd()
      reads this
    {
      Valid() && state + bytesLeft == old(state + bytesLeft)
    }

    constructor (data: Bytes, state: nat, bytesLeft: nat)
      requires state + bytesLeft <= |data|
      ensures Valid() && this.data == data && this.state == state && this.bytesLeft == bytesLeft
    {
      this.data, this.state, this.bytesLeft := data, state, bytesLeft;
    }

    /** pb_read. */
    method Read(count: nat) returns (r: Option<Bytes>)
      requires Valid()
      modifies this
      ensures SameEnd() && Got(r, ReadBytes(old(Rest()), count))
    {
      if count == 0 {
        assert Rest()[..0] == [] && Rest()[0..] == Rest();
        return Some([]);
      }
      if bytesLeft < count {
        return None;
      }
      assert data[state..state + count] == Rest()[..count];
      r := Some(data[state..state + count]);
      state := state + count;
      bytesLeft := bytesLeft - count;
    }

    /** pb_readbyte. */
    method ReadByte() returns (r: Option<Byte>)
      requires Valid()
      modifies this
      ensures SameEnd()
      ensures if old(Rest()) == [] then r.None? else r == Some(old(Rest())[0]) && Rest() == old(Rest())[1..]
    {
      if bytesLeft == 0 {
        return None;
      }
      r := Some(data[state]);
      state := state + 1;
      bytesLeft := bytesLeft - 1;
    }

    method DecodeVarint() returns (r: Option<nat>)
      requires Valid()
      modifies this
      ensures SameEnd() && Got(r, ReadVarint(old(Rest())))
    {
      hide Coding.DecodeVarint, ReadVarint, Or, Pow2, ReadSoFar;
      ghost var b, k := Rest(), 0;
      var result: nat, bitpos: nat := 0, 0;
      NothingRead(b);
      while true
        invariant SameEnd() && bitpos == 7 * k && k <= 10 && k <= |b| && Rest() == b[k..] && ReadSoFar(b, k, result)
        decreases 10 - k
      {
        if k == 10 || k == |b| {
          NoMore(b, k, result);
        }
        if bitpos >= 64 {
          return None;
        }
        var byte := ReadByte();
        if byte.None? {
          return None;
        }
        if byte.value < 128 {
          LastByte(b, k, result);
        } else {
          OneMoreByte(b, k, result);
        }
        result := Or(result, Shl(byte.value % 128, bitpos) % 0x1_0000_0000_0000_0000);
        if byte.value < 128 {
          return Some(result);
        }
        bitpos := bitpos + 7;
        k := k + 1;
      }
    }

    method DecodeVarint32() returns (r: Option<Word>)
      requires Valid()
      modifies this
      ensures SameEnd() && Got(r, ReadVarint32(old(Rest())))
    {
      var byte := ReadByte();
      if byte.None? {
        return None;
      }
      if byte.value < 128 {
        return Some(byte.value);
      }
      var result: Word, bitpos: nat := byte.value - 128, 7;
      while true
        invariant SameEnd() && bitpos < 256
        invariant Varint32Rest(Rest(), result, bitpos) == ReadVarint32(old(Rest()))
        decreases bytesLeft
      {
        byte := ReadByte();
        if byte.None? {
          return None;
        }
        var b: int := byte.value;
        if bitpos >= 32 {
          var signExtension := if bitpos < 63 then 0xFF else 0x01;
          if b % 128 != 0 && (result / 0x8000_0000 == 0 || b != signExtension) {
            return None;
          }
        } else {
          result := Or(result, Shl(b % 128, bitpos)) % 0x1_0000_0000;
        }
        bitpos := (bitpos + 7) % 256;
        if b < 128 {
          if bitpos == 35 && b / 16 != 0 {
            return None;
          }
          return Some(result);
        }
      }
    }

    /** pb_decode_tag, for a message that has not ended. */
    method DecodeTag() returns (ok: bool, eof: bool, tag: nat, wireType: nat)
      requires Valid() && bytesLeft > 0
      modifies this
      ensures SameEnd()
      ensures match ReadTag(old(Rest()))
              case End => !ok && eof
              case Bad => !ok && !eof
              case Tagged(t, w, rest) => ok && tag == t && wireType == w && Rest() == rest
    {
      var temp := DecodeVarint32();
      if temp.None? {
        return false, false, 0, 0;
      }
      if temp.value == 0 {
        return false, true, 0, 0;
      }
      return true, false, temp.value / 8, temp.value % 8;
    }

    // ----- Skipping -----

    ghost predicate Skipped(ok: bool, spec: Option<Bytes>)
      requires Valid()
      reads this
    {
      match spec
      case None => !ok
      case Some(rest) => ok && Rest() == rest
    }

    method SkipVarint() returns (ok: bool)
      requires Valid()
      modifies this
      ensures SameEnd() && Skipped(ok, PbParse.SkipVarint(old(Rest())))
    {
      while true
        invariant SameEnd() && PbParse.SkipVarint(Rest()) == PbParse.SkipVarint(old(Rest()))
        decreases bytesLeft
      {
        var byte := Read(1);
        if byte.None? {
          return false;
        }
        if byte.value[0] < 128 {
          return true;
        }
      }
    }

    method Skip(count: nat) returns (ok: bool)
      requires Valid()
      modifies this
      ensures SameEnd() && Skipped(ok, SkipBytes(old(Rest()), count))
    {
      var bytes := Read(count);
      ok := bytes.Some?;
    }

    method SkipString() returns (ok: bool)
      requires Valid()
      modifies this
      ensures SameEnd() && Skipped(ok, PbParse.SkipField(STRING, old(Rest())))
    {
      var length := DecodeVarint32();
      if length.None? {
        return false;
      }
      ok := Skip(length.value);
    }

    method SkipField(wireType: nat) returns (ok: bool)
      requires Valid()
      modifies this
      ensures SameEnd() && Skipped(ok, PbParse.SkipField(wireType, old(Rest())))
    {
      if wireType == VARINT {
        ok := SkipVarint();
      } else if wireType == BITS64 {
        ok := Skip(8);
      } else if wireType == STRING {
        ok := SkipString();
      } else if wireType == BITS32 {
        ok := Skip(4);
      } else {
        ok := false;
      }
    }

    // ----- Substreams -----

    /** pb_make_string_substream: the substream may read what the length says, this stream what comes after. */
    method MakeSubstream() returns (sub: IStream?)
      requires Valid()
      modifies this
      ensures match ReadDelimited(old(Rest()))
              case None => sub == null && SameEnd()
              case Some((inner, rest)) =>
                && sub != null && fresh(sub) && sub.Valid() && sub.data == data && sub.state == state && sub.Rest() == inner
                && state + sub.bytesLeft + bytesLeft == old(state + bytesLeft)
                && data[state + sub.bytesLeft..old(state + bytesLeft)] == rest
    {
      var size := DecodeVarint32();
      if size.None? || bytesLeft < size.value {
        return null;
      }
      ghost var b := Rest();
      sub := new IStream(data, state, size.value);
      assert b[..size.value] == sub.Rest() && b[size.value..] == data[state + size.value..state + bytesLeft];
      bytesLeft := bytesLeft - size.value;
    }

    /** pb_close_string_substream: go on after the substream. */
    method CloseSubstream(sub: IStream)
      requires sub != this && sub.Valid() && sub.data == data && sub.state + sub.bytesLeft + bytesLeft <= |data|
      modifies this, sub
      ensures Valid() && bytesLeft == old(bytesLeft) && state == old(sub.state + sub.bytesLeft)
    {
      if sub.bytesLeft > 0 {
        var ok := sub.Skip(sub.bytesLeft);
      }
      state := sub.state;
    }

    // ----- Values -----

    method DecodeInteger(k: Kind) returns (r: Option<Value>)
      requires Valid() && IsInteger(k)
      modifies this
      ensures SameEnd() && Got(r, ReadLeaf(k, old(Rest())))
    {
      var value := DecodeVarint();
      if value.None? {
        return None;
      }
      var wide := Widest(k, value.value);
      var clamped := if k.Unsigned? then wide % (2 * Half(k.size)) else CastSigned(wide, k.size);
      Clamped(k, value.value);
      r := if clamped != wide then None else Some(Number(clamped));
    }

    method DecodeWord(k: Kind) returns (r: Option<Value>)
      requires Valid() && (k.Boolean? || k.Word32? || k.Word64?)
      modifies this
      ensures SameEnd() && Got(r, ReadLeaf(k, old(Rest())))
    {
      if k.Boolean? {
        var value := DecodeVarint32();
        return if value.None? then None else Some(Number(if value.value != 0 then 1 else 0));
      }
      var bytes := Read(if k.Word32? then 4 else 8);
      if bytes.None? {
        return None;
      }
      r := Some(Number(if k.Word32? then DecodeFixed32(bytes.value) else DecodeFixed64(bytes.value)));
    }

    method DecodeChars(k: Kind) returns (r: Option<Value>)
      requires Valid() && (k.Binary? || k.Text? || k.FixedBinary?)
      modifies this
      ensures SameEnd() && Got(r, ReadLeaf(k, old(Rest())))
    {
      var size := DecodeVarint32();
      if size.None? {
        return None;
      }
      if k.FixedBinary? && size.value == 0 {
        return Some(Chars(seq(k.size, _ => 0)));
      }
      if k.Binary? && size.value > k.capacity {
        return None;
      }
      if k.Text? && size.value + 1 > k.size {
        return None;
      }
      if k.FixedBinary? && size.value != k.size {
        return None;
      }
      var bytes := Read(size.value);
      if bytes.None? {
        return None;
      }
      r := Some(Chars(if k.Text? then UpToNul(bytes.value) else bytes.value));
    }

    method DecodeLeaf(k: Kind) returns (r: Option<Value>)
      requires Valid() && KindOk(k) && !k.Submessage?
      modifies this
      ensures SameEnd() && Got(r, ReadLeaf(k, old(Rest())))
    {
      if k.Signed? || k.Unsigned? || k.ZigzagSigned? {
        r := DecodeInteger(k);
      } else if k.Boolean? || k.Word32? || k.Word64? {
        r := DecodeWord(k);
      } else {
        r := DecodeChars(k);
      }
    }

    /** pb_dec_submessage, and the decoders for all other kinds. */
    method DecodeValue(k: Kind, current: Value) returns (r: Option<Value>)
      requires Valid() && KindOk(k) && TypedValue(k, current)
      modifies this
      ensures SameEnd() && Got(r, ReadValue(k, current, old(Rest())))
      decreases bytesLeft, 1
    {
      if !k.Submessage? {
        r := DecodeLeaf(k);
        return;
      }
      var sub := MakeSubstream();
      if sub == null {
        return None;
      }
      var slots := sub.Decode(k.fields, current.slots);
      CloseSubstream(sub);
      r := if slots.None? then None else Some(Message(slots.value));
    }

    /** The elements of a packed array, until the substream ends; what does not fit the field is an error. */
    method DecodeElements(f: Field, slot: Slot) returns (r: Option<Slot>)
      requires Valid() && FieldOk(f) && f.rule.Repeated? && Packable(f.kind) && TypedSlot(f, slot)
      modifies this
      ensures SameEnd() && r == ReadPacked(f, slot, old(Rest()))
    {
      hide ReadLeaf, StoredSlot, StoredValue, LeafTyped;
      assert KindOk(f.kind);
      var items := slot;
      while bytesLeft > 0 && |items.items| < f.rule.limit
        invariant SameEnd() && TypedSlot(f, items) && ReadPacked(f, items, Rest()) == ReadPacked(f, slot, old(Rest()))
        decreases bytesLeft
      {
        var v := DecodeLeaf(f.kind);
        if v.None? {
          return None;
        }
        items := With(items, v.value);
      }
      r := if bytesLeft > 0 then None else Some(items);
    }

    /** A packed array. */
    method DecodePacked(f: Field, slot: Slot) returns (r: Option<Slot>)
      requires Valid() && FieldOk(f) && f.rule.Repeated? && Packable(f.kind) && TypedSlot(f, slot)
      modifies this
      ensures SameEnd() && Got(r, PackedOf(f, slot, old(Rest())))
    {
      hide ReadPacked, TypedSlot, FieldOk;
      var sub := MakeSubstream();
      if sub == null {
        return None;
      }
      r := sub.DecodeElements(f, slot);
      CloseSubstream(sub);
    }

    /** decode_static_field. */
    method DecodeField(fields: seq<Field>, slots: seq<Slot>, i: nat, wireType: nat) returns (r: Option<seq<Slot>>)
      requires Valid() && DescriptorOk(fields) && Typed(fields, slots) && i < |fields|
      modifies this
      ensures SameEnd() && Got(r, ReadField(fields, slots, i, wireType, old(Rest())))
      decreases bytesLeft, 2
    {
      var f, slot := fields[i], slots[i];
      assert FieldOk(f) && TypedSlot(f, slot);
      if f.rule.Repeated? && wireType == STRING && Packable(f.kind) {
        var items := DecodePacked(f, slot);
        return if items.None? then None else Some(slots[i := items.value]);
      }
      if f.rule.Repeated? && |slot.items| >= f.rule.limit {
        return None;
      }
      InitialTyped(f);
      var v := DecodeValue(f.kind, Current(f, slot));
      if v.None? {
        return None;
      }
      match f.rule {
        case Repeated(_) => r := Some(slots[i := With(slot, v.value)]);
        case Member(_) => r := Some(ClearUnion(fields, slots, f.rule)[i := Slot([v.value])]);
        case _ => r := Some(slots[i := Slot([v.value])]);
      }
    }

    /** The data of a field after its tag. */
    method DecodeTagged(iter: FieldIter, slots: seq<Slot>, seen: set<nat>, tag: nat, wireType: nat)
      returns (r: Option<(seq<Slot>, set<nat>)>)
      requires Valid() && iter.Valid() && DescriptorOk(iter.fields) && Typed(iter.fields, slots)
      modifies this, iter
      ensures SameEnd() && iter.Valid() && Got(r, ReadTagged(iter.fields, slots, seen, tag, wireType, old(Rest())))
      decreases bytesLeft, 3
    {
      ghost var fields := iter.fields;
      var found := iter.Find(tag);
      if !found {
        var skipped := SkipField(wireType);
        return if skipped then Some((slots, seen)) else None;
      }
      if |iter.fields| == 0 {
        var end := DecodeVarint32();
        return if end.None? then None else Some((slots, seen));
      }
      var seen' := seen;
      if iter.fields[iter.pos].rule.Required? && iter.requiredFieldIndex < MAX_REQUIRED {
        seen' := seen' + {iter.requiredFieldIndex};
      }
      var after := DecodeField(iter.fields, slots, iter.pos, wireType);
      r := if after.None? then None else Some((after.value, seen'));
    }

    /** pb_decode_noinit. */
    method Decode(fields: seq<Field>, initial: seq<Slot>) returns (r: Option<seq<Slot>>)
      requires Valid() && DescriptorOk(fields) && Typed(fields, initial)
      modifies this
      ensures SameEnd() && r == ReadMessage(fields, initial, old(Rest()))
      decreases bytesLeft, 4
    {
      hide ReadTagged, ReadTag, Typed, DescriptorOk;
      var iter := new FieldIter(fields);
      var slots := initial;
      var fieldsSeen: set<nat> := {};
      while bytesLeft > 0
        invariant SameEnd() && fresh(iter) && iter.Valid() && iter.fields == fields && Typed(fields, slots)
        invariant ReadFields(fields, slots, fieldsSeen, Rest()) == ReadFields(fields, initial, {}, old(Rest()))
        decreases bytesLeft
      {
        var ok, eof, tag, wireType := DecodeTag();
        if !ok {
          if eof {
            break;
          }
          return None;
        }
        var after := DecodeTagged(iter, slots, fieldsSeen, tag, wireType);
        if after.None? {
          return None;
        }
        slots, fieldsSeen := after.value.0, after.value.1;
      }
      var all := CheckRequired(iter, fieldsSeen);
      r := if all then Some(slots) else None;
    }
  }

  /** A packed array with its length. */
  function PackedOf(f: Field, slot: Slot, b: Bytes): (r: Option<(Slot, Bytes)>)
    requires FieldOk(f) && f.rule.Repeated? && Packable(f.kind) && TypedSlot(f, slot)
  {
    match ReadDelimited(b)
    case None => None
    case Some((inner, rest)) =>
      match ReadPacked(f, slot, inner)
      case None => None
      case Some(items) => Some((items, rest))
  }

  /** Step to the last field to count the required ones; all of the first 64 were seen. */
  method CheckRequired(iter: FieldIter, fieldsSeen: set<nat>) returns (all: bool)
    requires iter.Valid()
    modifies iter
    ensures all <==> forall k :: 0 <= k < Min(RequiredBefore(iter.fields, |iter.fields|), MAX_REQUIRED) ==> k in fieldsSeen
  {
    if |iter.fields| == 0 {
      return true;
    }
    var count, last := iter.requiredFieldIndex, iter.pos;
    var more := iter.Next();
    while more
      invariant iter.Valid() && last < |iter.fields| && count == RequiredBefore(iter.fields, last)
      invariant more ==> iter.pos == last + 1
      invariant !more ==> last == |iter.fields| - 1
      decreases |iter.fields| - last
    {
      count, last := iter.requiredFieldIndex, iter.pos;
      more := iter.Next();
    }
    if iter.fields[last].rule.Required? {
      count := count + 1;
    }
    if count > MAX_REQUIRED {
      count := MAX_REQUIRED;
    }
    all := forall k :: 0 <= k < count ==> k in fieldsSeen;
  }

  /** pb_decode. */
  method Decode(fields: seq<Field>, data: Bytes) returns (r: Option<seq<Slot>>)
    requires DescriptorOk(fields)
    ensures r == Parse(fields, data)
  {
    InitialsTyped(fields);
    var stream := new IStream(data, 0, |data|);
    assert data[0..|data|] == data;
    r := stream.Decode(fields, Initials(fields));
  }
}
