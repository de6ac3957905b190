/** Write batches: operations as bytes, and what inserting them does. */
module WriteBatches {
  import opened Coding
  import opened Common

  datatype Op = Put(key: Bytes, value: Bytes) | Delete(key: Bytes)

  /** Keys and values are shorter than 4 GB. */
  predicate OpFits(op: Op) {
    |op.key| < WORD && (op.Put? ==> |op.value| < WORD)
  }

  /** The sequence number and the count. */
  const BATCH_HEADER: nat := 12

  const TYPE_DELETION: Byte := 0

  const TYPE_VALUE: Byte := 1

  // ----- Operations as bytes -----

  function EncodeOp(op: Op): (b: Bytes)
    ensures |b| >= 2
  {
    match op
    case Put(key, value) => [TYPE_VALUE] + Prefixed(key) + Prefixed(value)
    case Delete(key) => [TYPE_DELETION] + Prefixed(key)
  }

  function EncodeOps(ops: seq<Op>): Bytes {
    if |ops| == 0 then [] else EncodeOp(ops[0]) + EncodeOps(ops[1..])
  }

  /** A batch: header and operations. */
  function BatchOf(sequence: nat, ops: seq<Op>): (b: Bytes)
    requires sequence < LONG
    ensures |b| >= BATCH_HEADER
  {
    Fixed64(sequence) + Fixed32(Truncate32(|ops|)) + EncodeOps(ops)
  }

  lemma {:induction false} EncodeOpsConcat(a: seq<Op>, b: seq<Op>)
    ensures EncodeOps(a + b) == EncodeOps(a) + EncodeOps(b)
  {
    if |a| == 0 {
      assert a + b == b;
    } else {
      assert (a + b)[1..] == a[1..] + b;
      EncodeOpsConcat(a[1..], b);
    }
  }

  function ParseOp(data: Bytes, pos: nat): (r: Option<(Op, nat)>)
    ensures r.Some? ==> pos < r.value.1 <= |data|
  {
    if pos >= |data| then None
    else if data[pos] == TYPE_VALUE then
      match GetPrefixed(data, pos + 1)
      case None => None
      case Some((key, next)) =>
        match GetPrefixed(data, next)
        case None => None
        case Some((value, end)) => Some((Put(key, value), end))
    else if data[pos] == TYPE_DELETION then
      match GetPrefixed(data, pos + 1)
      case None => None
      case Some((key, next)) => Some((Delete(key), next))
    else None
  }

  /** The operations up to the end of the batch, or to the first one that cannot be parsed. */
  function ParseOps(data: Bytes, pos: nat): (seq<Op>, bool)
    requires pos <= |data|
    decreases |data| - pos
  {
    if pos == |data| then ([], true)
    else
      match ParseOp(data, pos)
      case None => ([], false)
      case Some((op, next)) =>
        var rest := ParseOps(data, next);
        ([op] + rest.0, rest.1)
  }

  /** What Iterate hands out, and whether it succeeds: all is parsed and counted. */
  function Iterated(rep: Bytes): (seq<Op>, bool) {
    if |rep| < BATCH_HEADER then ([], false)
    else
      var (ops, ok) := ParseOps(rep, BATCH_HEADER);
      (ops, ok && Truncate32(|ops|) == DecodeFixed32(rep[8..12]))
  }

  lemma {:induction false} OpRoundTrip(data: Bytes, pos: nat, op: Op)
    requires OpFits(op) && AtPos(data, pos, EncodeOp(op))
    ensures ParseOp(data, pos) == Some((op, pos + |EncodeOp(op)|))
  {
    hide GetPrefixed, Prefixed;
    match op {
      case Put(key, value) =>
        AtSplit(data, pos, [TYPE_VALUE] + Prefixed(key), Prefixed(value));
        AtSplit(data, pos, [TYPE_VALUE], Prefixed(key));
        assert Match(data, pos, [TYPE_VALUE], 0);
        PrefixedRoundTrip(data, pos + 1, key);
        PrefixedRoundTrip(data, pos + 1 + |Prefixed(key)|, value);
      case Delete(key) =>
        AtSplit(data, pos, [TYPE_DELETION], Prefixed(key));
        assert Match(data, pos, [TYPE_DELETION], 0);
        PrefixedRoundTrip(data, pos + 1, key);
    }
  }

  lemma {:induction false} OpsRoundTrip(data: Bytes, pos: nat, ops: seq<Op>)
    requires (forall op <- ops :: OpFits(op)) && AtPos(data, pos, EncodeOps(ops)) && pos + |EncodeOps(ops)| == |data|
    ensures ParseOps(data, pos) == (ops, true)
    decreases |ops|
  {
    hide ParseOp, EncodeOp, AtPos;
    if |ops| > 0 {
      AtSplit(data, pos, EncodeOp(ops[0]), EncodeOps(ops[1..]));
      OpRoundTrip(data, pos, ops[0]);
      OpsRoundTrip(data, pos + |EncodeOp(ops[0])|, ops[1..]);
      assert [ops[0]] + ops[1..] == ops;
    }
  }

  /** Every operation of a batch is handed out, in order. */
  lemma {:induction false} BatchRoundTrip(sequence: nat, ops: seq<Op>)
    requires sequence < LONG && forall op <- ops :: OpFits(op)
    ensures Iterated(BatchOf(sequence, ops)) == (ops, true)
    ensures DecodeFixed64(BatchOf(sequence, ops)[..8]) == sequence
    ensures DecodeFixed32(BatchOf(sequence, ops)[8..12]) == Truncate32(|ops|)
  {
    var rep := BatchOf(sequence, ops);
    var header := Fixed64(sequence) + Fixed32(Truncate32(|ops|));
    HeaderParts(sequence, Truncate32(|ops|), EncodeOps(ops));
    AtEnd(header, EncodeOps(ops));
    assert header + EncodeOps(ops) == rep;
    OpsRoundTrip(rep, BATCH_HEADER, ops);
  }

  lemma {:induction false} ParsedOpFits(data: Bytes, pos: nat)
    requires ParseOp(data, pos).Some?
    ensures OpFits(ParseOp(data, pos).value.0)
  {
  }

  lemma {:induction false} ParsedOpsFit(data: Bytes, pos: nat)
    requires pos <= |data|
    ensures forall op <- ParseOps(data, pos).0 :: OpFits(op)
    decreases |data| - pos
  {
    hide ParseOp, OpFits;
    if pos < |data| && ParseOp(data, pos).Some? {
      ParsedOpFits(data, pos);
      ParsedOpsFit(data, ParseOp(data, pos).value.1);
    }
  }

  /** Whatever bytes are accepted: they count their operations, in 32 bits, and the batch that is written from these is
      accepted with the same operations. */
  lemma {:induction false} AcceptedBatch(rep: Bytes)
    requires Iterated(rep).1
    ensures var ops := Iterated(rep).0;
            && |rep| >= 12 && DecodeFixed32(rep[8..12]) == |ops| % 0x1_0000_0000 && (forall op <- ops :: OpFits(op))
            && DecodeFixed64(rep[..8]) < LONG && Iterated(BatchOf(DecodeFixed64(rep[..8]), ops)) == (ops, true)
  {
    hide BatchOf, ParseOps;
    ParsedOpsFit(rep, BATCH_HEADER);
    Fixed64Decoded(rep[..8]);
    BatchRoundTrip(DecodeFixed64(rep[..8]), Iterated(rep).0);
  }

  lemma {:induction false} HeaderParts(sequence: nat, count: Word, rest: Bytes)
    requires sequence < LONG
    ensures var b := Fixed64(sequence) + Fixed32(count) + rest;
            |b| == BATCH_HEADER + |rest| && b[..8] == Fixed64(sequence) && b[8..12] == Fixed32(count) && b[12..] == rest
    ensures DecodeFixed64(Fixed64(sequence)) == sequence && DecodeFixed32(Fixed32(count)) == count
  {
    Fixed64RoundTrip(sequence);
    Fixed32RoundTrip(count);
  }

  /** The operations of two batches in one, with the sequence number of the first. */
  lemma {:induction false} BatchAppended(s: nat, a: seq<Op>, t: nat, b: seq<Op>)
    requires s < LONG && t < LONG
    ensures var x, y := BatchOf(s, a), BatchOf(t, b);
            x[..8] + Fixed32(Truncate32(DecodeFixed32(x[8..12]) + DecodeFixed32(y[8..12]))) + x[12..] + y[12..] == BatchOf(s, a + b)
  {
    hide Fixed32, Fixed64, DecodeFixed32, DecodeFixed64, Truncate32, EncodeOps;
    HeaderParts(s, Truncate32(|a|), EncodeOps(a));
    HeaderParts(t, Truncate32(|b|), EncodeOps(b));
    EncodeOpsConcat(a, b);
    SumTruncated(|a|, |b|);
    Associative(Fixed64(s) + Fixed32(Truncate32(|a| + |b|)), EncodeOps(a), EncodeOps(b));
  }

  lemma {:induction false} Associative(a: Bytes, b: Bytes, c: Bytes)
    ensures a + b + c == a + (b + c)
  {
  }

  /** The same operations with another sequence number. */
  lemma {:induction false} BatchRenumbered(s: nat, a: seq<Op>, t: nat)
    requires s < LONG && t < LONG
    ensures Fixed64(t) + BatchOf(s, a)[8..] == BatchOf(t, a)
  {
    hide Fixed32, Fixed64, Truncate32, EncodeOps;
    var tail := Fixed32(Truncate32(|a|)) + EncodeOps(a);
    Associative(Fixed64(s), Fixed32(Truncate32(|a|)), EncodeOps(a));
    Associative(Fixed64(t), Fixed32(Truncate32(|a|)), EncodeOps(a));
    assert (Fixed64(s) + tail)[8..] == tail;
  }

  lemma {:induction false} SumTruncated(a: nat, b: nat)
    ensures Truncate32(Truncate32(a) + Truncate32(b)) == Truncate32(a + b)
  {
    var q, r := a / 0x1_0000_0000, b / 0x1_0000_0000;
    assert a == 0x1_0000_0000 * q + Truncate32(a) && b == 0x1_0000_0000 * r + Truncate32(b);
    assert a + b == 0x1_0000_0000 * (q + r) + (Truncate32(a) + Truncate32(b));
  }

  /** One operation more. */
  lemma {:induction false} BatchGrown(s: nat, a: seq<Op>, op: Op)
    requires s < LONG
    ensures var x := BatchOf(s, a);
            x[..8] + Fixed32(Truncate32(DecodeFixed32(x[8..12]) + 1)) + x[12..] + EncodeOp(op) == BatchOf(s, a + [op])
  {
    hide Fixed32, Fixed64, DecodeFixed32, DecodeFixed64, EncodeOp, Truncate32;
    HeaderParts(s, Truncate32(|a|), EncodeOps(a));
    EncodeOpsConcat(a, [op]);
    assert EncodeOps([]) == [] && EncodeOps([op]) == EncodeOp(op) + [];
    SumTruncated(|a|, 1);
    OneIsSmall();
    Associative(Fixed64(s) + Fixed32(Truncate32(|a| + 1)), EncodeOps(a), EncodeOp(op));
  }

  lemma {:induction false} OneIsSmall()
    ensures Truncate32(1) == 1
  {
  }

  // ----- The memtable -----

  /** An operation with its sequence number. */
  datatype Entry = Entry(sequence: nat, op: Op)

  /** The operations of a batch, numbered from its sequence number on. */
  function Numbered(sequence: nat, ops: seq<Op>): seq<Entry> {
    seq(|ops|, i requires 0 <= i < |ops| => Entry(sequence + i, ops[i]))
  }

  /** MemTableInserter: it gives every operation the next sequence number. */
  class Inserter {
    var sequence: nat
    var mem: seq<Entry>

    constructor (sequence: nat, mem: seq<Entry>)
      ensures this.sequence == sequence && this.mem == mem
    {
      this.sequence, this.mem := sequence, mem;
    }

    method Handle(op: Op)
      modifies this
      ensures mem == old(mem) + [Entry(old(sequence), op)] && sequence == old(sequence) + 1
    {
      mem := mem + [Entry(sequence, op)];
      sequence := sequence + 1;
    }
  }

  lemma {:induction false} OneMoreParsed(rep: Bytes, pos: nat, s: nat, done: seq<Op>)
    requires pos < |rep| && ParseOp(rep, pos).Some?
    ensures var (op, next) := ParseOp(rep, pos).value;
            && Numbered(s, done + [op]) == Numbered(s, done) + [Entry(s + |done|, op)]
            && done + ParseOps(rep, pos).0 == (done + [op]) + ParseOps(rep, next).0
            && ParseOps(rep, pos).1 == ParseOps(rep, next).1
  {
    hide ParseOp;
    var (op, next) := ParseOp(rep, pos).value;
    assert done + ([op] + ParseOps(rep, next).0) == (done + [op]) + ParseOps(rep, next).0;
  }

  // ----- The batch -----

  class WriteBatch {
    var rep: Bytes
    /** What the bytes stand for, if they were made by the methods of a batch. */
    ghost var content: Option<(nat, seq<Op>)>

    ghost predicate Valid()
      reads this
    {
      && |rep| >= BATCH_HEADER
      && (content.Some? ==>
            && content.value.0 < LONG && rep == BatchOf(content.value.0, content.value.1)
            && forall op <- content.value.1 :: OpFits(op))
    }

    /** An empty batch. */
    constructor ()
      ensures Valid() && content == Some((0, []))
    {
      rep := seq(BATCH_HEADER, _ => 0);
      content := Some((0, []));
      new;
      assert Fixed64(0) == [0, 0, 0, 0, 0, 0, 0, 0];
    }

    function Count(): Word
      requires Valid()
      reads this
    {
      DecodeFixed32(rep[8..12])
    }

    function Sequence(): nat
      requires Valid()
      reads this
    {
      DecodeFixed64(rep[..8])
    }

    method SetSequence(sequence: nat)
      requires Valid() && sequence < LONG
      modifies this
      ensures Valid() && (old(content).Some? ==> content == Some((sequence, old(content).value.1)))
    {
      hide BatchOf, Fixed64;
      if content.Some? {
        BatchRenumbered(content.value.0, content.value.1, sequence);
        content := Some((sequence, content.value.1));
      }
      rep := Fixed64(sequence) + rep[8..];
    }

    /** One more operation: the count goes up, and its record is appended. */
    method AddOp(op: Op, record: Bytes)
      requires Valid() && OpFits(op) && record == EncodeOp(op)
      modifies this
      ensures Valid() && (old(content).Some? ==> content == Some((old(content).value.0, old(content).value.1 + [op])))
    {
      hide EncodeOp, DecodeFixed32, Fixed32, BatchOf;
      if content.Some? {
        BatchGrown(content.value.0, content.value.1, op);
      }
      rep := rep[..8] + Fixed32(Truncate32(Count() + 1)) + rep[12..] + record;
      if content.Some? {
        content := Some((content.value.0, content.value.1 + [op]));
      }
    }

    method Put(key: Bytes, value: Bytes)
      requires Valid() && |key| < WORD && |value| < WORD
      modifies this
      ensures Valid()
      ensures old(content).Some? ==> content == Some((old(content).value.0, old(content).value.1 + [Op.Put(key, value)]))
    {
      AddOp(Op.Put(key, value), [TYPE_VALUE] + Prefixed(key) + Prefixed(value));
    }

    method Delete(key: Bytes)
      requires Valid() && |key| < WORD
      modifies this
      ensures Valid()
      ensures old(content).Some? ==> content == Some((old(content).value.0, old(content).value.1 + [Op.Delete(key)]))
    {
      AddOp(Op.Delete(key), [TYPE_DELETION] + Prefixed(key));
    }

    /** All operations of another batch. */
    method Append(source: WriteBatch)
      requires Valid() && source.Valid()
      modifies this
      ensures Valid()
      ensures old(content).Some? && old(source.content).Some? ==>
        content == Some((old(content).value.0, old(content).value.1 + old(source.content).value.1))
    {
      hide DecodeFixed32, Fixed32, BatchOf;
      ghost var was, more := content, source.content;
      if was.Some? && more.Some? {
        BatchAppended(was.value.0, was.value.1, more.value.0, more.value.1);
        content := Some((was.value.0, was.value.1 + more.value.1));
      } else {
        content := None;
      }
      rep := rep[..8] + Fixed32(Truncate32(DecodeFixed32(rep[8..12]) + DecodeFixed32(source.rep[8..12]))) + rep[12..] + source.rep[12..];
    }

    method SetContents(contents: Bytes, ghost content: Option<(nat, seq<Op>)>)
      requires |contents| >= BATCH_HEADER
      requires content.Some? ==>
        && content.value.0 < LONG && contents == BatchOf(content.value.0, content.value.1)
        && forall op <- content.value.1 :: OpFits(op)
      modifies this
      ensures Valid() && rep == contents && this.content == content
    {
      rep := contents;
      this.content := content;
    }

    /** Iterate, for the handler that inserts into a memtable. */
    method Iterate(handler: Inserter) returns (ok: bool)
      requires Valid()
      modifies handler
      ensures var (ops, fine) := Iterated(rep);
              ok == fine && handler.mem == old(handler.mem) + Numbered(old(handler.sequence), ops)
    {
      hide ParseOp, BatchOf, DecodeFixed32;
      var pos, found := BATCH_HEADER, 0;
      ghost var s, done: seq<Op> := handler.sequence, [];
      assert [] + ParseOps(rep, BATCH_HEADER).0 == ParseOps(rep, BATCH_HEADER).0;
      while pos < |rep|
        invariant BATCH_HEADER <= pos <= |rep| && found == |done| && handler.sequence == s + |done|
        invariant handler.mem == old(handler.mem) + Numbered(s, done)
        invariant var rest := ParseOps(rep, pos); ParseOps(rep, BATCH_HEADER) == (done + rest.0, rest.1)
        decreases |rep| - pos
      {
        found := found + 1;
        var r := ParseOp(rep, pos);
        if r.None? {
          assert done + [] == done;
          return false;
        }
        var (op, next) := r.value;
        handler.Handle(op);
        OneMoreParsed(rep, pos, s, done);
        done := done + [op];
        pos := next;
      }
      assert done + [] == done;
      ok := Truncate32(found) == Count();
    }

    /** Insert the operations into a memtable, numbered from the batch's sequence number on. */
    method InsertInto(mem: seq<Entry>) returns (after: seq<Entry>, ok: bool)
      requires Valid()
      ensures after == mem + Numbered(Sequence(), Iterated(rep).0) && ok == Iterated(rep).1
      ensures content.Some? ==> ok && after == mem + Numbered(content.value.0, content.value.1)
    {
      var inserter := new Inserter(Sequence(), mem);
      ok := Iterate(inserter);
      after := inserter.mem;
      if content.Some? {
        BatchRoundTrip(content.value.0, content.value.1);
      }
    }
  }
}
