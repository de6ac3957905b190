/** Reading onto values that are there already: what messages mean one after the other. */
module PbMerge {
  import opened Coding
  import opened Common
  import opened PbEncoders
  import opened PbFields
  import opened PbParse
  import opened PbRoundTrips
  import opened PbWire

  // ----- Merging -----

  /** Nothing is written for the field. */
  predicate Silent(f: Field, slot: Slot) {
    slot.items == [] || (f.rule.Singular? && ZeroValue(f.kind, slot.items[0]))
  }

  /** What a single value is merged into: the present one, or the initial one. */
  function Present(f: Field, slot: Slot): Value {
    if slot.items == [] then Initial(f) else slot.items[0]
  }

  predicate BothMessages(k: Kind, current: Value, v: Value) {
    k.Submessage? && current.Message? && v.Message? && |current.slots| == |k.fields| == |v.slots|
  }

  /** A message is merged into the current one; any other value takes the place of the current one. */
  ghost function MergeValue(k: Kind, current: Value, v: Value): Value
    decreases v, 0
  {
    if BothMessages(k, current, v) then Message(Merge(k.fields, current.slots, v.slots, |v.slots|)) else v
  }

  /** Arrays grow; the members of a union exclude each other. */
  ghost function MergeSlot(fields: seq<Field>, s: seq<Slot>, i: nat, slot: Slot): (r: seq<Slot>)
    requires |fields| == |s| && i < |s|
    ensures |r| == |s|
    decreases slot
  {
    var f := fields[i];
    if Silent(f, slot) then s
    else if f.rule.Repeated? then s[i := Slot(s[i].items + slot.items)]
    else
      (if f.rule.Member? then ClearUnion(fields, s, f.rule) else s)
        [i := Slot([MergeValue(f.kind, Present(f, s[i]), slot.items[0])])]
  }

  /** The first `n` fields of `b` merged into `a`. */
  ghost function Merge(fields: seq<Field>, a: seq<Slot>, b: seq<Slot>, n: nat): (r: seq<Slot>)
    requires |fields| == |a| == |b| && n <= |b|
    ensures |r| == |a|
    decreases b, n
  {
    if n == 0 then a else MergeSlot(fields, Merge(fields, a, b, n - 1), n - 1, b[n - 1])
  }

  ghost predicate MergeableValue(k: Kind, current: Value, v: Value)
    decreases v, 0
  {
    && Terminated(k, v)
    && (BothMessages(k, current, v) ==>
          |Wire(k.fields, v.slots)| < WORD && MergeableFrom(k.fields, current.slots, v.slots, 0))
  }

  /** The array has room, texts are terminated, and what is written with its length is shorter than 4 GB. */
  ghost predicate MergeableSlot(fields: seq<Field>, s: seq<Slot>, i: nat, slot: Slot)
    requires |fields| == |s| && i < |s|
    decreases slot
  {
    var f := fields[i];
    Silent(f, slot) ||
    if f.rule.Repeated? then
      && |s[i].items| + |slot.items| <= f.rule.limit
      && (Packable(f.kind) ==> |WirePacked(f.kind, slot.items, 0)| < WORD)
      && forall j {:trigger slot.items[j]} :: 0 <= j < |slot.items| ==> RestorableValue(f.kind, slot.items[j])
    else MergeableValue(f.kind, Present(f, s[i]), slot.items[0])
  }

  /** The fields of `b` from the `i`-th on can be merged into `a` after those before them. */
  ghost predicate MergeableFrom(fields: seq<Field>, a: seq<Slot>, b: seq<Slot>, i: nat)
    requires |fields| == |a| == |b|
    decreases b
  {
    forall k {:trigger b[k]} :: i <= k < |b| ==> MergeableSlot(fields, Merge(fields, a, b, k), k, b[k])
  }

  // ----- Types -----

  lemma {:induction false} PresentTyped(f: Field, slot: Slot)
    requires FieldOk(f) && (!f.kind.Submessage? ==> LeafTyped(f.kind, f.initial)) && TypedSlot(f, slot)
    ensures TypedValue(f.kind, Present(f, slot))
  {
    InitialTyped(f);
  }

  lemma {:induction false} AppendTyped(f: Field, a: Slot, b: Slot)
    requires f.rule.Repeated? && TypedSlot(f, a) && TypedSlot(f, b)
    ensures TypedSlot(f, Slot(a.items + b.items))
  {
    var items := a.items + b.items;
    forall j | 0 <= j < |items| ensures TypedValue(f.kind, items[j]) {
      assert items[j] == if j < |a.items| then a.items[j] else b.items[j - |a.items|];
    }
  }

  lemma {:induction false} MergeValueTyped(k: Kind, current: Value, v: Value)
    requires KindOk(k) && TypedValue(k, current) && TypedValue(k, v)
    ensures TypedValue(k, MergeValue(k, current, v))
    decreases v, 0
  {
    if k.Submessage? {
      MergeTyped(k.fields, current.slots, v.slots, |v.slots|);
    }
  }

  lemma {:induction false} MergeSlotTyped(fields: seq<Field>, s: seq<Slot>, i: nat, slot: Slot)
    requires DescriptorOk(fields) && Typed(fields, s) && i < |s| && TypedSlot(fields[i], slot)
    ensures Typed(fields, MergeSlot(fields, s, i, slot))
    decreases slot
  {
    var f := fields[i];
    assert FieldOk(f) && KindOk(f.kind) && TypedSlot(f, s[i]);
    if !Silent(f, slot) {
      if f.rule.Repeated? {
        AppendTyped(f, s[i], slot);
        SetTyped(fields, s, i, Slot(s[i].items + slot.items));
      } else {
        PresentTyped(f, s[i]);
        MergeValueTyped(f.kind, Present(f, s[i]), slot.items[0]);
        SetTyped(fields, s, i, Slot([MergeValue(f.kind, Present(f, s[i]), slot.items[0])]));
      }
    }
  }

  lemma {:induction false} MergeTyped(fields: seq<Field>, a: seq<Slot>, b: seq<Slot>, n: nat)
    requires DescriptorOk(fields) && Typed(fields, a) && Typed(fields, b) && n <= |b|
    ensures Typed(fields, Merge(fields, a, b, n))
    decreases b, n
  {
    if n > 0 {
      MergeTyped(fields, a, b, n - 1);
      MergeSlotTyped(fields, Merge(fields, a, b, n - 1), n - 1, b[n - 1]);
    }
  }

  // ----- Arrays -----

  lemma {:induction false} NextItem(base: seq<Value>, items: seq<Value>, j: nat)
    requires j < |items|
    ensures base + items[..j] + [items[j]] == base + items[..j + 1]
  {
  }

  /** A packed array is appended, as far as there is room. */
  lemma {:induction false} PackedAppended(f: Field, base: Slot, slot: Slot, j: nat)
    requires FieldOk(f) && f.rule.Repeated? && Packable(f.kind) && TypedSlot(f, base) && TypedSlot(f, slot) && j <= |slot.items|
    requires TypedSlot(f, Slot(base.items + slot.items[..j]))
    ensures ReadPacked(f, Slot(base.items + slot.items[..j]), WirePacked(f.kind, slot.items, j)) ==
            if j == |slot.items| || |base.items| + |slot.items| <= f.rule.limit then Some(Slot(base.items + slot.items)) else None
    decreases |slot.items| - j
  {
    hide ReadLeaf, WireNumber;
    var items := slot.items;
    if j < |items| {
      var v := items[j];
      assert KindOk(f.kind) && TypedValue(f.kind, v);
      ReadNumberBack(f.kind, v.n, WirePacked(f.kind, items, j + 1));
      NumberBytes(f.kind, v.n);
      NextItem(base.items, items, j);
      WithTyped(f, Slot(base.items + items[..j]), v);
      PackedAppended(f, base, slot, j + 1);
    } else {
      assert items[..j] == items;
    }
  }

  lemma {:induction false} PackedMerged(fields: seq<Field>, s: seq<Slot>, seen: set<nat>, i: nat, slot: Slot, rest: Bytes)
    requires DescriptorOk(fields) && Typed(fields, s) && i < |s| && TypedSlot(fields[i], slot) && slot.items != []
    requires fields[i].rule.Repeated? && Packable(fields[i].kind) && |WireSlot(fields[i], slot)| < LIMIT
    ensures Typed(fields, MergeSlot(fields, s, i, slot))
    ensures ReadFields(fields, s, seen, WireSlot(fields[i], slot) + rest) ==
            if MergeableSlot(fields, s, i, slot) then ReadFields(fields, MergeSlot(fields, s, i, slot), seen, rest) else None
  {
    hide ReadLeaf, ReadValue, ReadMessage, ReadTag, ReadPacked, ReadFields, Exclusive, ClearUnion, WireTag;
    var f := fields[i];
    assert FieldOk(f) && TypedSlot(f, s[i]);
    MergeSlotTyped(fields, s, i, slot);
    var packed := WirePacked(f.kind, slot.items, 0);
    Assoc(WireTag(f.tag, STRING), Prefixed(packed), rest);
    OneTag(fields, s, seen, i, STRING, Prefixed(packed) + rest);
    ReadDelimitedBack(packed, rest);
    assert Slot(s[i].items + slot.items[..0]) == s[i];
    PackedAppended(f, s[i], slot, 0);
    forall j | 0 <= j < |slot.items| ensures RestorableValue(f.kind, slot.items[j]) {
    }
  }

  /** The values of an array, each with its tag, whether it might be packed or not. */
  lemma {:induction false} EachAppended(fields: seq<Field>, s: seq<Slot>, seen: set<nat>, i: nat, slot: Slot, j: nat, rest: Bytes)
    requires DescriptorOk(fields) && Typed(fields, s) && i < |s| == |fields| && fields[i].rule.Repeated? && j <= |slot.items|
    requires TypedSlot(fields[i], slot) && EncodableSlot(fields[i], slot) && |WireEach(fields[i], slot.items, j)| < LIMIT
    requires Typed(fields, s[i := Slot(s[i].items + slot.items[..j])])
    ensures Typed(fields, s[i := Slot(s[i].items + slot.items)])
    ensures ReadFields(fields, s[i := Slot(s[i].items + slot.items[..j])], seen, WireEach(fields[i], slot.items, j) + rest) ==
            if (j == |slot.items| || |s[i].items| + |slot.items| <= fields[i].rule.limit) &&
               forall k {:trigger slot.items[k]} :: j <= k < |slot.items| ==> RestorableValue(fields[i].kind, slot.items[k])
            then ReadFields(fields, s[i := Slot(s[i].items + slot.items)], seen, rest) else None
    decreases |slot.items| - j
  {
    hide ReadFields, RestorableValue, WireTag, WireValue, DescriptorOk, FieldOk, Typed, TypedSlot, Initials;
    var f, base, items := fields[i], s[i].items, slot.items;
    var q := s[i := Slot(base + items[..j])];
    if j == |items| {
      assert items[..j] == items && WireEach(f, items, j) + rest == rest;
    } else {
      NextItem(base, items, j);
      ItemOk(f, slot, j);
      var later := WireEach(f, items, j + 1) + rest;
      OneElement(fields, q, seen, i, items[j], later);
      assert q[i := With(q[i], items[j])] == s[i := Slot(base + items[..j + 1])];
      EachAppended(fields, s, seen, i, slot, j + 1, rest);
      Assoc(WireTag(f.tag, WireType(f.kind)) + WireValue(f.kind, items[j]), WireEach(f, items, j + 1), rest);
    }
  }

  lemma {:induction false} AllAppended(fields: seq<Field>, s: seq<Slot>, seen: set<nat>, i: nat, slot: Slot, rest: Bytes)
    requires DescriptorOk(fields) && Typed(fields, s) && i < |s| && fields[i].rule.Repeated? && slot.items != []
    requires TypedSlot(fields[i], slot) && EncodableSlot(fields[i], slot) && |WireEach(fields[i], slot.items, 0)| < LIMIT
    ensures Typed(fields, s[i := Slot(s[i].items + slot.items)])
    ensures ReadFields(fields, s, seen, WireEach(fields[i], slot.items, 0) + rest) ==
            if |s[i].items| + |slot.items| <= fields[i].rule.limit &&
               forall k {:trigger slot.items[k]} :: 0 <= k < |slot.items| ==> RestorableValue(fields[i].kind, slot.items[k])
            then ReadFields(fields, s[i := Slot(s[i].items + slot.items)], seen, rest) else None
  {
    assert Slot(s[i].items + slot.items[..0]) == s[i] && s[i := s[i]] == s;
    EachAppended(fields, s, seen, i, slot, 0, rest);
  }

  // ----- Messages -----

  /** A single value onto that of its field. */
  lemma {:induction false} OneMerged(fields: seq<Field>, s: seq<Slot>, seen: set<nat>, i: nat, slot: Slot, rest: Bytes)
    requires DescriptorOk(fields) && Typed(fields, s) && i < |s| && TypedSlot(fields[i], slot) && EncodableSlot(fields[i], slot)
    requires !fields[i].rule.Repeated? && !Silent(fields[i], slot) && |WireSlot(fields[i], slot)| < LIMIT
    ensures Typed(fields, MergeSlot(fields, s, i, slot))
    ensures ReadFields(fields, s, seen, WireSlot(fields[i], slot) + rest) ==
            if MergeableSlot(fields, s, i, slot) then ReadFields(fields, MergeSlot(fields, s, i, slot), Seen(fields, i, seen), rest) else None
    decreases slot, 0
  {
    hide ReadFields, ReadMessage, ReadLeaf, Exclusive, Initials;
    var f := fields[i];
    assert FieldOk(f) && KindOk(f.kind) && TypedSlot(f, s[i]);
    MergeSlotTyped(fields, s, i, slot);
    var v := slot.items[0];
    var tag, value := WireTag(f.tag, WireType(f.kind)), WireValue(f.kind, v);
    OneItem(f, slot.items);
    Assoc(tag, value, rest);
    OneTag(fields, s, seen, i, WireType(f.kind), value + rest);
    PresentTyped(f, s[i]);
    ValueMerged(f.kind, Present(f, s[i]), v, rest);
  }

  lemma {:induction false} SlotMerged(fields: seq<Field>, s: seq<Slot>, seen: set<nat>, i: nat, slot: Slot, rest: Bytes)
    requires DescriptorOk(fields) && Typed(fields, s) && i < |s| && TypedSlot(fields[i], slot) && EncodableSlot(fields[i], slot)
    requires |WireSlot(fields[i], slot)| < LIMIT
    ensures Typed(fields, MergeSlot(fields, s, i, slot))
    ensures ReadFields(fields, s, seen, WireSlot(fields[i], slot) + rest) ==
            if MergeableSlot(fields, s, i, slot) then ReadFields(fields, MergeSlot(fields, s, i, slot), Seen(fields, i, seen), rest) else None
    decreases slot, 1
  {
    hide ReadFields, Typed, DescriptorOk, TypedSlot, RestorableValue, MergeableValue;
    MergeSlotTyped(fields, s, i, slot);
    var f := fields[i];
    if Silent(f, slot) {
      assert WireSlot(f, slot) + rest == rest;
      SilentIsOptional(f, slot);
    } else if !f.rule.Repeated? {
      OneMerged(fields, s, seen, i, slot, rest);
    } else if Packable(f.kind) {
      PackedMerged(fields, s, seen, i, slot, rest);
    } else {
      AllAppended(fields, s, seen, i, slot, rest);
    }
  }

  lemma {:induction false} SilentIsOptional(f: Field, slot: Slot)
    requires TypedSlot(f, slot) && Silent(f, slot)
    ensures !f.rule.Required?
  {
  }

  /** A value that is read onto another one is merged into it, or refused. */
  lemma {:induction false} ValueMerged(k: Kind, current: Value, v: Value, rest: Bytes)
    requires KindOk(k) && TypedValue(k, current) && TypedValue(k, v) && EncodableValue(k, v) && |WireValue(k, v)| < LIMIT
    ensures ReadValue(k, current, WireValue(k, v) + rest) ==
            if MergeableValue(k, current, v) then Some((MergeValue(k, current, v), rest)) else None
    decreases v, 2
  {
    if k.Submessage? {
      var wire := Wire(k.fields, v.slots);
      ReadDelimitedBack(wire, rest);
      if |wire| < WORD {
        MessageMerged(k.fields, current.slots, v.slots);
      }
    } else if Packable(k) {
      ReadNumberBack(k, v.n, rest);
    } else {
      ReadCharsBack(k, v.data, rest);
    }
  }

  /** The required fields seen after the first `i`. */
  function SeenAfter(fields: seq<Field>, seen: set<nat>, i: nat): (r: set<nat>)
    requires i <= |fields|
    ensures seen <= r
  {
    if i == 0 then seen else Seen(fields, i - 1, SeenAfter(fields, seen, i - 1))
  }

  lemma {:induction false} SeenAll(fields: seq<Field>, seen: set<nat>, i: nat)
    requires i <= |fields|
    ensures forall k :: 0 <= k < Min(RequiredBefore(fields, i), MAX_REQUIRED) ==> k in SeenAfter(fields, seen, i)
  {
    if i > 0 {
      SeenAll(fields, seen, i - 1);
    }
  }

  lemma {:induction false} FieldsMerged(fields: seq<Field>, a: seq<Slot>, b: seq<Slot>, seen: set<nat>, i: nat, rest: Bytes)
    requires DescriptorOk(fields) && Typed(fields, a) && Typed(fields, b) && Encodable(fields, b) && i <= |b|
    requires |WireFrom(fields, b, i)| < LIMIT
    ensures Typed(fields, Merge(fields, a, b, i)) && Typed(fields, Merge(fields, a, b, |b|))
    ensures ReadFields(fields, Merge(fields, a, b, i), SeenAfter(fields, seen, i), WireFrom(fields, b, i) + rest) ==
            if MergeableFrom(fields, a, b, i)
            then ReadFields(fields, Merge(fields, a, b, |b|), SeenAfter(fields, seen, |b|), rest) else None
    decreases b, |b| - i
  {
    hide ReadFields, DescriptorOk, Exclusive, WireSlot, MergeSlot, MergeableSlot, Seen;
    MergeTyped(fields, a, b, i);
    MergeTyped(fields, a, b, |b|);
    if i == |b| {
      assert WireFrom(fields, b, i) + rest == rest;
    } else {
      var later := WireFrom(fields, b, i + 1);
      FieldsMerged(fields, a, b, seen, i + 1, rest);
      assert EncodableSlot(fields[i], b[i]) && TypedSlot(fields[i], b[i]);
      Assoc(WireSlot(fields[i], b[i]), later, rest);
      SlotMerged(fields, Merge(fields, a, b, i), SeenAfter(fields, seen, i), i, b[i], later + rest);
    }
  }

  /** A message that is read onto another one is merged into it, or refused. */
  lemma {:induction false} MessageMerged(fields: seq<Field>, a: seq<Slot>, b: seq<Slot>)
    requires DescriptorOk(fields) && Typed(fields, a) && Typed(fields, b) && Encodable(fields, b) && |Wire(fields, b)| < LIMIT
    ensures ReadMessage(fields, a, Wire(fields, b)) ==
            if MergeableFrom(fields, a, b, 0) then Some(Merge(fields, a, b, |b|)) else None
    decreases b, |b| + 1
  {
    assert Wire(fields, b) + [] == Wire(fields, b);
    FieldsMerged(fields, a, b, {}, 0, []);
    SeenAll(fields, {}, |fields|);
  }

  // ----- Results -----

  /** Two messages one after the other are read as the first with the second merged into it: of single values the last
      one counts, submessages are merged, arrays are joined, and of a union the last member is present. */
  lemma {:induction false} ConcatenationMerges(fields: seq<Field>, a: seq<Slot>, b: seq<Slot>)
    requires DescriptorOk(fields) && Typed(fields, a) && Encodable(fields, a) && |Wire(fields, a)| < LIMIT
    requires Typed(fields, b) && Encodable(fields, b) && |Wire(fields, b)| < LIMIT
    ensures Parse(fields, Wire(fields, a) + Wire(fields, b)) ==
            if Restorable(fields, a) && MergeableFrom(fields, a, b, 0) then Some(Merge(fields, a, b, |b|)) else None
  {
    hide ReadFields, DescriptorOk, Restorable, MergeableFrom, Merge;
    var start := Initials(fields);
    InitialsTyped(fields);
    ReadMessageBack(fields, a);
    MessageMerged(fields, start, a);
    assert Merge(fields, start, a, 0) == start by { NothingMerged(fields, start, a); }
    FieldsMerged(fields, start, a, {}, 0, Wire(fields, b));
    if Restorable(fields, a) {
      var seen := SeenAfter(fields, {}, |a|);
      assert Merge(fields, start, a, |a|) == a;
      NothingMerged(fields, a, b);
      FieldsMerged(fields, a, b, seen, 0, []);
      assert Wire(fields, b) + [] == Wire(fields, b);
      SeenAll(fields, seen, |fields|);
      if MergeableFrom(fields, a, b, 0) {
        NothingMore(fields, Merge(fields, a, b, |b|), SeenAfter(fields, seen, |b|));
      }
    }
  }

  lemma {:induction false} NothingMore(fields: seq<Field>, slots: seq<Slot>, seen: set<nat>)
    requires DescriptorOk(fields) && Typed(fields, slots)
    ensures ReadFields(fields, slots, seen, []) == Some((slots, seen))
  {
  }

  lemma {:induction false} NothingMerged(fields: seq<Field>, a: seq<Slot>, b: seq<Slot>)
    requires |fields| == |a| == |b|
    ensures Merge(fields, a, b, 0) == a
  {
  }

  /** Another member of the field's union is among the first `n` fields of `b`. */
  ghost predicate Displaced(fields: seq<Field>, b: seq<Slot>, n: nat, f: Field)
    requires n <= |b| == |fields|
  {
    f.rule.Member? && exists j :: 0 <= j < n && fields[j].rule == f.rule && b[j].items != []
  }

  /** What a field has after a merge. */
  lemma {:induction false} MergeAt(fields: seq<Field>, a: seq<Slot>, b: seq<Slot>, n: nat, i: nat)
    requires |fields| == |a| == |b| && Exclusive(fields, b) && n <= |b| && i < |b|
    ensures var f := fields[i];
            Merge(fields, a, b, n)[i] ==
            if i < n && !Silent(f, b[i]) then
              if f.rule.Repeated? then Slot(a[i].items + b[i].items)
              else Slot([MergeValue(f.kind, Present(f, a[i]), b[i].items[0])])
            else if Displaced(fields, b, n, f) then Slot([])
            else a[i]
  {
    if n > 0 {
      hide MergeValue, ZeroValue;
      MergeAt(fields, a, b, n - 1, i);
      var f, g := fields[i], fields[n - 1];
      assert Displaced(fields, b, n, f) <==> Displaced(fields, b, n - 1, f) || (f.rule.Member? && g.rule == f.rule && b[n - 1].items != []);
    }
  }

  /** An array whose elements come one by one is read like the packed one. */
  lemma {:induction false} UnpackedIsRead(fields: seq<Field>, s: seq<Slot>, seen: set<nat>, i: nat, slot: Slot, rest: Bytes)
    requires DescriptorOk(fields) && Typed(fields, s) && i < |s| && TypedSlot(fields[i], slot) && EncodableSlot(fields[i], slot)
    requires fields[i].rule.Repeated? && Packable(fields[i].kind) && |WirePacked(fields[i].kind, slot.items, 0)| < WORD
    requires |WireEach(fields[i], slot.items, 0)| < LIMIT && |WireSlot(fields[i], slot)| < LIMIT
    ensures ReadFields(fields, s, seen, WireEach(fields[i], slot.items, 0) + rest) ==
            ReadFields(fields, s, seen, WireSlot(fields[i], slot) + rest)
  {
    hide ReadFields;
    var f := fields[i];
    if slot.items != [] {
      assert FieldOk(f);
      AllAppended(fields, s, seen, i, slot, rest);
      PackedMerged(fields, s, seen, i, slot, rest);
      forall j | 0 <= j < |slot.items| ensures RestorableValue(f.kind, slot.items[j]) {
        ItemOk(f, slot, j);
      }
    }
  }
}
