/** Version edits: the changes to the file map, as records of the manifest. */
module VersionEdits {
  import opened Coding
  import opened Common

  /** The metadata of a table; keys are encoded internal keys. */
  datatype Meta = Meta(number: nat, size: nat, smallest: Bytes, largest: Bytes)

  /** `deleted` is kept in the order of level and number. */
  datatype Edit = Edit(comparator: Option<Bytes>, logNumber: Option<nat>, prevLogNumber: Option<nat>,
                       nextFile: Option<nat>, lastSequence: Option<nat>,
                       compactPointers: seq<(nat, Bytes)>, deleted: seq<(nat, nat)>, added: seq<(nat, Meta)>)

  const EMPTY: Edit := Edit(None, None, None, None, None, [], [], [])

  // ----- Fields -----

  /** One tagged field of a record. */
  datatype Field =
    | Comparator(name: Bytes)
    | LogNumber(number: nat)
    | PrevLogNumber(number: nat)
    | NextFile(number: nat)
    | LastSequence(number: nat)
    | CompactPointer(level: nat, key: Bytes)
    | DeletedFile(level: nat, number: nat)
    | NewFile(level: nat, meta: Meta)

  /** The parts that a field is made of. */
  datatype Part = Level(level: nat) | Long(value: nat) | Text(bytes: Bytes)

  datatype Kind = ALevel | ALong | AText

  function EncodePart(p: Part): Bytes {
    match p
    case Level(v) => Varint(v)
    case Long(v) => Varint(v)
    case Text(b) => Prefixed(b)
  }

  predicate PartFits(p: Part) {
    match p
    case Level(v) => v < NUM_LEVELS
    case Long(v) => v < LONG
    case Text(b) => |b| < WORD
  }

  function KindOf(p: Part): Kind {
    match p
    case Level(_) => ALevel
    case Long(_) => ALong
    case Text(_) => AText
  }

  /** GetLevel, GetVarint64 and GetLengthPrefixedSlice. */
  function ParsePart(data: Bytes, pos: nat, kind: Kind): (r: Option<(Part, nat)>)
    ensures r.Some? ==> pos < r.value.1 <= |data| && KindOf(r.value.0) == kind && PartFits(r.value.0)
  {
    match kind
    case ALevel =>
      (match GetVarint32(data, pos)
       case None => None
       case Some((v, next)) => if v < NUM_LEVELS then Some((Level(v), next)) else None)
    case ALong =>
      (match GetVarint64(data, pos)
       case None => None
       case Some((v, next)) => Some((Long(v), next)))
    case AText =>
      (match GetPrefixed(data, pos)
       case None => None
       case Some((b, next)) => Some((Text(b), next)))
  }

  lemma {:induction false} LevelRoundTrip(data: Bytes, pos: nat, v: nat)
    requires v < NUM_LEVELS && AtPos(data, pos, Varint(v))
    ensures ParsePart(data, pos, ALevel) == Some((Level(v), pos + |Varint(v)|))
  {
    hide AtPos, GetVarint32, Varint;
    Varint32RoundTrip(data, pos, v);
  }

  lemma {:induction false} LongRoundTrip(data: Bytes, pos: nat, v: nat)
    requires v < LONG && AtPos(data, pos, Varint(v))
    ensures ParsePart(data, pos, ALong) == Some((Long(v), pos + |Varint(v)|))
  {
    hide AtPos, GetVarint64, Varint;
    Varint64RoundTrip(data, pos, v);
  }

  lemma {:induction false} TextRoundTrip(data: Bytes, pos: nat, b: Bytes)
    requires |b| < WORD && AtPos(data, pos, Prefixed(b))
    ensures ParsePart(data, pos, AText) == Some((Text(b), pos + |Prefixed(b)|))
  {
    hide GetPrefixed, Prefixed, AtPos;
    PrefixedRoundTrip(data, pos, b);
  }

  lemma {:induction false} PartRoundTrip(data: Bytes, pos: nat, p: Part)
    requires PartFits(p) && AtPos(data, pos, EncodePart(p))
    ensures ParsePart(data, pos, KindOf(p)) == Some((p, pos + |EncodePart(p)|))
  {
    hide ParsePart, AtPos, Varint;
    match p
    case Level(v) => LevelRoundTrip(data, pos, v);
    case Long(v) => LongRoundTrip(data, pos, v);
    case Text(b) => TextRoundTrip(data, pos, b);
  }

  function EncodeParts(ps: seq<Part>): Bytes {
    if |ps| == 0 then [] else EncodePart(ps[0]) + EncodeParts(ps[1..])
  }

  function KindsOf(ps: seq<Part>): seq<Kind> {
    if |ps| == 0 then [] else [KindOf(ps[0])] + KindsOf(ps[1..])
  }

  function ParseParts(data: Bytes, pos: nat, kinds: seq<Kind>): (r: Option<(seq<Part>, nat)>)
    ensures r.Some? ==> KindsOf(r.value.0) == kinds && pos <= r.value.1
    decreases |kinds|
  {
    if |kinds| == 0 then Some(([], pos))
    else
      match ParsePart(data, pos, kinds[0])
      case None => None
      case Some((p, next)) =>
        match ParseParts(data, next, kinds[1..])
        case None => None
        case Some((ps, end)) => Some(([p] + ps, end))
  }

  lemma {:induction false} PartsRoundTrip(data: Bytes, pos: nat, ps: seq<Part>)
    requires (forall p <- ps :: PartFits(p)) && AtPos(data, pos, EncodeParts(ps))
    ensures ParseParts(data, pos, KindsOf(ps)) == Some((ps, pos + |EncodeParts(ps)|))
    decreases |ps|
  {
    hide Varint, EncodePart, ParsePart;
    if |ps| > 0 {
      var next := pos + |EncodePart(ps[0])|;
      AtSplit(data, pos, EncodePart(ps[0]), EncodeParts(ps[1..]));
      PartRoundTrip(data, pos, ps[0]);
      PartsRoundTrip(data, next, ps[1..]);
      assert [ps[0]] + ps[1..] == ps;
    }
  }

  // ----- Tags -----

  function Tag(f: Field): (t: nat)
    ensures t < 10
  {
    match f
    case Comparator(_) => 1
    case LogNumber(_) => 2
    case NextFile(_) => 3
    case LastSequence(_) => 4
    case CompactPointer(_, _) => 5
    case DeletedFile(_, _) => 6
    case NewFile(_, _) => 7
    case PrevLogNumber(_) => 9
  }

  function Parts(f: Field): seq<Part> {
    match f
    case Comparator(name) => [Text(name)]
    case LogNumber(n) => [Long(n)]
    case PrevLogNumber(n) => [Long(n)]
    case NextFile(n) => [Long(n)]
    case LastSequence(n) => [Long(n)]
    case CompactPointer(level, key) => [Level(level), Text(key)]
    case DeletedFile(level, n) => [Level(level), Long(n)]
    case NewFile(level, m) => [Level(level), Long(m.number), Long(m.size), Text(m.smallest), Text(m.largest)]
  }

  function Shape(tag: nat): Option<seq<Kind>> {
    if tag == 1 then Some([AText])
    else if tag == 2 || tag == 3 || tag == 4 || tag == 9 then Some([ALong])
    else if tag == 5 then Some([ALevel, AText])
    else if tag == 6 then Some([ALevel, ALong])
    else if tag == 7 then Some([ALevel, ALong, ALong, AText, AText])
    else None
  }

  function FieldOf(tag: nat, ps: seq<Part>): Field
    requires Shape(tag) == Some(KindsOf(ps))
  {
    KindsAt(ps);
    if tag == 1 then Comparator(ps[0].bytes)
    else if tag == 2 then LogNumber(ps[0].value)
    else if tag == 3 then NextFile(ps[0].value)
    else if tag == 4 then LastSequence(ps[0].value)
    else if tag == 5 then CompactPointer(ps[0].level, ps[1].bytes)
    else if tag == 6 then DeletedFile(ps[0].level, ps[1].value)
    else if tag == 7 then NewFile(ps[0].level, Meta(ps[1].value, ps[2].value, ps[3].bytes, ps[4].bytes))
    else PrevLogNumber(ps[0].value)
  }

  lemma {:induction false} KindsAt(ps: seq<Part>)
    ensures |KindsOf(ps)| == |ps|
    ensures forall i :: 0 <= i < |ps| ==> KindsOf(ps)[i] == KindOf(ps[i])
  {
    if |ps| > 0 {
      KindsAt(ps[1..]);
    }
  }

  function EncodeField(f: Field): (b: Bytes)
    ensures |b| > 0
  {
    Varint(Tag(f)) + EncodeParts(Parts(f))
  }

  predicate FieldFits(f: Field) {
    forall p <- Parts(f) :: PartFits(p)
  }

  function ParseField(data: Bytes, pos: nat): (r: Option<(Field, nat)>)
    ensures r.Some? ==> pos < r.value.1
  {
    match GetVarint32(data, pos)
    case None => None
    case Some((tag, next)) =>
      match Shape(tag)
      case None => None
      case Some(kinds) =>
        match ParseParts(data, next, kinds)
        case None => None
        case Some((ps, end)) => Some((FieldOf(tag, ps), end))
  }

  lemma {:induction false} ShapeOf(f: Field)
    ensures Shape(Tag(f)) == Some(KindsOf(Parts(f)))
    ensures FieldOf(Tag(f), Parts(f)) == f
  {
    var kinds := KindsOf(Parts(f));
    KindsAt(Parts(f));
    match f
    case Comparator(_) => assert kinds == [AText];
    case LogNumber(_) => assert kinds == [ALong];
    case PrevLogNumber(_) => assert kinds == [ALong];
    case NextFile(_) => assert kinds == [ALong];
    case LastSequence(_) => assert kinds == [ALong];
    case CompactPointer(_, _) => assert kinds == [ALevel, AText];
    case DeletedFile(_, _) => assert kinds == [ALevel, ALong];
    case NewFile(_, _) => assert kinds == [ALevel, ALong, ALong, AText, AText];
  }

  lemma {:induction false} FieldRoundTrip(data: Bytes, pos: nat, f: Field)
    requires FieldFits(f) && AtPos(data, pos, EncodeField(f))
    ensures ParseField(data, pos) == Some((f, pos + |EncodeField(f)|))
  {
    hide Tag, Parts, FieldOf, Shape, Varint, EncodeParts, ParseParts;
    var tag, ps := Tag(f), Parts(f);
    var next := pos + |Varint(tag)|;
    AtSplit(data, pos, Varint(tag), EncodeParts(ps));
    Varint32RoundTrip(data, pos, tag);
    PartsRoundTrip(data, next, ps);
    ShapeOf(f);
  }

  // ----- Records -----

  predicate Less(a: (nat, nat), b: (nat, nat)) {
    a.0 < b.0 || (a.0 == b.0 && a.1 < b.1)
  }

  /** The order of a set of pairs. */
  ghost predicate Ordered(s: seq<(nat, nat)>) {
    forall i, j {:trigger Less(s[i], s[j])} :: 0 <= i < j < |s| ==> Less(s[i], s[j])
  }

  /** Insertion into a set that is kept in order. */
  function Insert(s: seq<(nat, nat)>, x: (nat, nat)): seq<(nat, nat)> {
    if |s| == 0 then [x]
    else if Less(x, s[0]) then [x] + s
    else if x == s[0] then s
    else [s[0]] + Insert(s[1..], x)
  }

  function ApplyField(e: Edit, f: Field): Edit {
    match f
    case Comparator(name) => e.(comparator := Some(name))
    case LogNumber(n) => e.(logNumber := Some(n))
    case PrevLogNumber(n) => e.(prevLogNumber := Some(n))
    case NextFile(n) => e.(nextFile := Some(n))
    case LastSequence(n) => e.(lastSequence := Some(n))
    case CompactPointer(level, key) => e.(compactPointers := e.compactPointers + [(level, key)])
    case DeletedFile(level, n) => e.(deleted := Insert(e.deleted, (level, n)))
    case NewFile(level, meta) => e.(added := e.added + [(level, meta)])
  }

  /** Clear leaves the compact pointers in place. */
  function Cleared(e: Edit): Edit {
    EMPTY.(compactPointers := e.compactPointers)
  }

  /** What parsing from `pos` on makes of an edit, and whether it gets through. */
  function DecodeFields(data: Bytes, pos: nat, e: Edit): (Edit, bool)
    decreases |data| - pos
  {
    if pos >= |data| then (e, true)
    else
      match ParseField(data, pos)
      case None => (e, false)
      case Some((f, next)) => DecodeFields(data, next, ApplyField(e, f))
  }

  function ApplyAll(e: Edit, fs: seq<Field>): Edit
    decreases |fs|
  {
    if |fs| == 0 then e else ApplyAll(ApplyField(e, fs[0]), fs[1..])
  }

  function EncodeFields(fs: seq<Field>): Bytes {
    if |fs| == 0 then [] else EncodeField(fs[0]) + EncodeFields(fs[1..])
  }

  lemma {:induction false} FieldsRoundTrip(data: Bytes, pos: nat, fs: seq<Field>, e: Edit)
    requires (forall f <- fs :: FieldFits(f)) && AtPos(data, pos, EncodeFields(fs)) && pos + |EncodeFields(fs)| == |data|
    ensures DecodeFields(data, pos, e) == (ApplyAll(e, fs), true)
    decreases |fs|
  {
    hide EncodeField, ParseField, ApplyField;
    if |fs| > 0 {
      AtSplit(data, pos, EncodeField(fs[0]), EncodeFields(fs[1..]));
      FieldRoundTrip(data, pos, fs[0]);
      FieldsRoundTrip(data, pos + |EncodeField(fs[0])|, fs[1..], ApplyField(e, fs[0]));
    }
  }

  /** The fields of an edit in the order in which they are written. */
  function Fields(e: Edit): seq<Field> {
    Numbers(e) + Pointers(e.compactPointers) + Deletions(e.deleted) + Additions(e.added)
  }

  function Pointers(ps: seq<(nat, Bytes)>): seq<Field> {
    seq(|ps|, i requires 0 <= i < |ps| => CompactPointer(ps[i].0, ps[i].1))
  }

  function Deletions(ds: seq<(nat, nat)>): seq<Field> {
    seq(|ds|, i requires 0 <= i < |ds| => DeletedFile(ds[i].0, ds[i].1))
  }

  function Additions(ns: seq<(nat, Meta)>): seq<Field> {
    seq(|ns|, i requires 0 <= i < |ns| => NewFile(ns[i].0, ns[i].1))
  }

  function Numbers(e: Edit): seq<Field> {
    (if e.comparator.Some? then [Comparator(e.comparator.value)] else [])
    + (if e.logNumber.Some? then [LogNumber(e.logNumber.value)] else [])
    + (if e.prevLogNumber.Some? then [PrevLogNumber(e.prevLogNumber.value)] else [])
    + (if e.nextFile.Some? then [NextFile(e.nextFile.value)] else [])
    + (if e.lastSequence.Some? then [LastSequence(e.lastSequence.value)] else [])
  }

  /** An edit that the format can hold. */
  ghost predicate EditFits(e: Edit) {
    && (forall f <- Fields(e) :: FieldFits(f))
    && Ordered(e.deleted)
  }

  lemma {:induction false} ApplyConcat(e: Edit, fs: seq<Field>, gs: seq<Field>)
    ensures ApplyAll(e, fs + gs) == ApplyAll(ApplyAll(e, fs), gs)
    decreases |fs|
  {
    hide ApplyField;
    if |fs| == 0 {
      assert fs + gs == gs;
    } else {
      assert (fs + gs)[1..] == fs[1..] + gs;
      ApplyConcat(ApplyField(e, fs[0]), fs[1..], gs);
    }
  }

  lemma {:induction false} ApplyNumbers(e: Edit, pointers: seq<(nat, Bytes)>)
    ensures ApplyAll(EMPTY.(compactPointers := pointers), Numbers(e)) ==
            Edit(e.comparator, e.logNumber, e.prevLogNumber, e.nextFile, e.lastSequence, pointers, [], [])
  {
    var e0 := EMPTY.(compactPointers := pointers);
    var a := if e.comparator.Some? then [Comparator(e.comparator.value)] else [];
    var b := if e.logNumber.Some? then [LogNumber(e.logNumber.value)] else [];
    var c := if e.prevLogNumber.Some? then [PrevLogNumber(e.prevLogNumber.value)] else [];
    var d := if e.nextFile.Some? then [NextFile(e.nextFile.value)] else [];
    var l := if e.lastSequence.Some? then [LastSequence(e.lastSequence.value)] else [];
    ApplyConcat(e0, a + b + c + d, l);
    ApplyConcat(e0, a + b + c, d);
    ApplyConcat(e0, a + b, c);
    ApplyConcat(e0, a, b);
    ApplyOne(e0, a);
    var e1 := ApplyAll(e0, a);
    ApplyOne(e1, b);
    var e2 := ApplyAll(e1, b);
    ApplyOne(e2, c);
    var e3 := ApplyAll(e2, c);
    ApplyOne(e3, d);
    ApplyOne(ApplyAll(e3, d), l);
  }

  lemma {:induction false} ApplyOne(e: Edit, fs: seq<Field>)
    requires |fs| <= 1
    ensures ApplyAll(e, fs) == if |fs| == 0 then e else ApplyField(e, fs[0])
  {
    hide ApplyField;
    if |fs| == 1 {
      assert fs[1..] == [];
    }
  }

  lemma {:induction false} ApplySnoc(e: Edit, fs: seq<Field>, f: Field)
    ensures ApplyAll(e, fs + [f]) == ApplyField(ApplyAll(e, fs), f)
  {
    ApplyConcat(e, fs, [f]);
    ApplyOne(ApplyAll(e, fs), [f]);
  }

  lemma {:induction false} ApplyPointers(e: Edit, ps: seq<(nat, Bytes)>)
    ensures ApplyAll(e, Pointers(ps)) == e.(compactPointers := e.compactPointers + ps)
  {
    if |ps| == 0 {
      assert e.compactPointers + ps == e.compactPointers;
    } else {
      var fewer, last := ps[..|ps| - 1], ps[|ps| - 1];
      ApplyPointers(e, fewer);
      assert Pointers(ps) == Pointers(fewer) + [CompactPointer(last.0, last.1)];
      ApplySnoc(e, Pointers(fewer), CompactPointer(last.0, last.1));
      assert e.compactPointers + fewer + [last] == e.compactPointers + ps;
    }
  }

  lemma {:induction false} InsertLast(s: seq<(nat, nat)>, x: (nat, nat))
    requires forall i :: 0 <= i < |s| ==> Less(s[i], x)
    ensures Insert(s, x) == s + [x]
  {
    if |s| > 0 {
      assert Less(s[0], x);
      InsertLast(s[1..], x);
      assert s == [s[0]] + s[1..];
    }
  }

  lemma {:induction false} ApplyDeleted(e: Edit, ds: seq<(nat, nat)>)
    requires Ordered(ds) && e.deleted == []
    ensures ApplyAll(e, Deletions(ds)) == e.(deleted := ds)
  {
    if |ds| > 0 {
      var fewer, last := ds[..|ds| - 1], ds[|ds| - 1];
      assert Ordered(fewer) && forall i :: 0 <= i < |fewer| ==> Less(fewer[i], last) by {
        assert forall i, j :: 0 <= i < j < |ds| ==> Less(ds[i], ds[j]);
      }
      ApplyDeleted(e, fewer);
      assert Deletions(ds) == Deletions(fewer) + [DeletedFile(last.0, last.1)];
      ApplySnoc(e, Deletions(fewer), DeletedFile(last.0, last.1));
      InsertLast(fewer, last);
      assert fewer + [last] == ds;
    }
  }

  lemma {:induction false} ApplyAdded(e: Edit, ns: seq<(nat, Meta)>)
    ensures ApplyAll(e, Additions(ns)) == e.(added := e.added + ns)
  {
    if |ns| == 0 {
      assert e.added + ns == e.added;
    } else {
      var fewer, last := ns[..|ns| - 1], ns[|ns| - 1];
      ApplyAdded(e, fewer);
      assert Additions(ns) == Additions(fewer) + [NewFile(last.0, last.1)];
      ApplySnoc(e, Additions(fewer), NewFile(last.0, last.1));
      assert e.added + fewer + [last] == e.added + ns;
    }
  }

  /** Decoding undoes encoding; the compact pointers that were there before stay in front. */
  lemma {:induction false} DecodeUndoesEncode(e: Edit, before: Edit)
    requires EditFits(e)
    ensures DecodeFields(EncodeFields(Fields(e)), 0, Cleared(before)) ==
            (e.(compactPointers := before.compactPointers + e.compactPointers), true)
  {
    var data := EncodeFields(Fields(e));
    AtEnd([], data);
    assert [] + data == data;
    FieldsRoundTrip(data, 0, Fields(e), Cleared(before));
    FieldsApply(e, before.compactPointers);
  }

  lemma {:induction false} FieldsApply(e: Edit, pointers: seq<(nat, Bytes)>)
    requires Ordered(e.deleted)
    ensures ApplyAll(EMPTY.(compactPointers := pointers), Fields(e)) == e.(compactPointers := pointers + e.compactPointers)
  {
    hide ApplyAll, Numbers, Pointers, Deletions, Additions;
    var e0 := EMPTY.(compactPointers := pointers);
    var ps, ds, ns := Pointers(e.compactPointers), Deletions(e.deleted), Additions(e.added);
    ApplyConcat(e0, Numbers(e) + ps + ds, ns);
    ApplyConcat(e0, Numbers(e) + ps, ds);
    ApplyConcat(e0, Numbers(e), ps);
    ApplyNumbers(e, pointers);
    ApplyPointers(ApplyAll(e0, Numbers(e)), e.compactPointers);
    ApplyDeleted(ApplyAll(e0, Numbers(e) + ps), e.deleted);
    ApplyAdded(ApplyAll(e0, Numbers(e) + ps + ds), e.added);
    assert [] + e.added == e.added;
  }

  lemma {:induction false} EncodeSnoc(fs: seq<Field>, f: Field)
    ensures EncodeFields(fs + [f]) == EncodeFields(fs) + EncodeField(f)
  {
    hide EncodeField;
    if |fs| == 0 {
      assert fs + [f] == [f] && [f][1..] == [];
    } else {
      assert (fs + [f])[1..] == fs[1..] + [f];
      EncodeSnoc(fs[1..], f);
    }
  }

  class VersionEdit {
    var contents: Edit

    constructor ()
      ensures contents == EMPTY
    {
      contents := EMPTY;
    }

    /** Write one field. */
    static method Put(dst: Bytes, ghost fs: seq<Field>, f: Field) returns (r: Bytes)
      requires dst == EncodeFields(fs)
      ensures r == EncodeFields(fs + [f])
    {
      EncodeSnoc(fs, f);
      hide EncodeField;
      r := dst + EncodeField(f);
    }

    method EncodeTo() returns (dst: Bytes)
      ensures dst == EncodeFields(Fields(contents))
    {
      var e := contents;
      ghost var fs: seq<Field>;
      hide EncodeFields, Numbers;
      dst, fs := EncodeNumbers(e);
      for i := 0 to |e.compactPointers|
        invariant dst == EncodeFields(fs) && fs == Numbers(e) + Pointers(e.compactPointers)[..i]
      {
        var f := CompactPointer(e.compactPointers[i].0, e.compactPointers[i].1);
        dst := Put(dst, fs, f);
        fs := fs + [f];
      }
      assert Pointers(e.compactPointers)[..|e.compactPointers|] == Pointers(e.compactPointers);
      for i := 0 to |e.deleted|
        invariant dst == EncodeFields(fs)
        invariant fs == Numbers(e) + Pointers(e.compactPointers) + Deletions(e.deleted)[..i]
      {
        var f := DeletedFile(e.deleted[i].0, e.deleted[i].1);
        dst := Put(dst, fs, f);
        fs := fs + [f];
      }
      assert Deletions(e.deleted)[..|e.deleted|] == Deletions(e.deleted);
      for i := 0 to |e.added|
        invariant dst == EncodeFields(fs)
        invariant fs == Numbers(e) + Pointers(e.compactPointers) + Deletions(e.deleted) + Additions(e.added)[..i]
      {
        var f := NewFile(e.added[i].0, e.added[i].1);
        dst := Put(dst, fs, f);
        fs := fs + [f];
      }
      assert Additions(e.added)[..|e.added|] == Additions(e.added);
    }

    static method EncodeLogNumbers(e: Edit) returns (dst: Bytes, ghost fs: seq<Field>)
      ensures dst == EncodeFields(fs)
      ensures fs == (if e.comparator.Some? then [Comparator(e.comparator.value)] else [])
                    + (if e.logNumber.Some? then [LogNumber(e.logNumber.value)] else [])
                    + (if e.prevLogNumber.Some? then [PrevLogNumber(e.prevLogNumber.value)] else [])
    {
      dst, fs := [], [];
      assert EncodeFields([]) == [];
      hide EncodeFields;
      if e.comparator.Some? {
        dst := Put(dst, fs, Comparator(e.comparator.value));
        fs := fs + [Comparator(e.comparator.value)];
      }
      if e.logNumber.Some? {
        dst := Put(dst, fs, LogNumber(e.logNumber.value));
        fs := fs + [LogNumber(e.logNumber.value)];
      }
      if e.prevLogNumber.Some? {
        dst := Put(dst, fs, PrevLogNumber(e.prevLogNumber.value));
        fs := fs + [PrevLogNumber(e.prevLogNumber.value)];
      }
    }

    static method EncodeNumbers(e: Edit) returns (dst: Bytes, ghost fs: seq<Field>)
      ensures fs == Numbers(e) && dst == EncodeFields(fs)
    {
      hide EncodeFields;
      dst, fs := EncodeLogNumbers(e);
      if e.nextFile.Some? {
        dst := Put(dst, fs, NextFile(e.nextFile.value));
        fs := fs + [NextFile(e.nextFile.value)];
      }
      if e.lastSequence.Some? {
        dst := Put(dst, fs, LastSequence(e.lastSequence.value));
        fs := fs + [LastSequence(e.lastSequence.value)];
      }
    }

    /** Parse a record into this edit. */
    method DecodeFrom(src: Bytes) returns (ok: bool)
      modifies this
      ensures (contents, ok) == DecodeFields(src, 0, Cleared(old(contents)))
    {
      contents := Cleared(contents);
      var pos := 0;
      while pos < |src|
        invariant DecodeFields(src, pos, contents) == DecodeFields(src, 0, Cleared(old(contents)))
        decreases |src| - pos
      {
        var field := ParseField(src, pos);
        if field.None? {
          return false;
        }
        contents := ApplyField(contents, field.value.0);
        pos := field.value.1;
      }
      return true;
    }
  }
}
