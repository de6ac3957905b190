/** Numbers as bytes: little-endian words and varints. */
module Coding {
  import opened Common

  type Byte = b: int | 0 <= b < 256

  type Bytes = seq<Byte>

  type Word = w: int | 0 <= w < 0x1_0000_0000

  // ----- Fixed-size words -----

  function Fixed32(w: Word): (b: seq<Byte>)
    ensures |b| == 4
  {
    [w % 256, w / 256 % 256, w / 0x1_0000 % 256, w / 0x100_0000]
  }

  function DecodeFixed32(b: seq<Byte>): Word
    requires |b| == 4
  {
    var b0: int, b1: int, b2: int, b3: int := b[0], b[1], b[2], b[3];
    b0 + 256 * b1 + 0x1_0000 * b2 + 0x100_0000 * b3
  }

  lemma {:induction false} Fixed32RoundTrip(w: Word)
    ensures DecodeFixed32(Fixed32(w)) == w
  {
    var q1, q2, q3 := w / 256, w / 0x1_0000, w / 0x100_0000;
    assert w == 256 * q1 + w % 256;
    assert q1 == 256 * q2 + q1 % 256;
    assert q2 == 256 * q3 + q2 % 256;
  }

  function Fixed64(v: nat): (b: seq<Byte>)
    requires v < LONG
    ensures |b| == 8
  {
    Fixed32(v % WORD) + Fixed32(v / WORD)
  }

  function DecodeFixed64(b: seq<Byte>): nat
    requires |b| == 8
  {
    DecodeFixed32(b[..4]) + WORD * DecodeFixed32(b[4..])
  }

  lemma {:induction false} Fixed64RoundTrip(v: nat)
    requires v < LONG
    ensures DecodeFixed64(Fixed64(v)) == v
  {
    var b := Fixed64(v);
    assert b[..4] == Fixed32(v % WORD) && b[4..] == Fixed32(v / WORD);
    Fixed32RoundTrip(v % WORD);
    Fixed32RoundTrip(v / WORD);
  }

  /** Words with the same value have the same bytes. */
  lemma {:induction false} Fixed32Decoded(b: seq<Byte>)
    requires |b| == 4
    ensures Fixed32(DecodeFixed32(b)) == b
  {
    var b0: int, b1: int, b2: int, b3: int := b[0], b[1], b[2], b[3];
    var w: int := b0 + 256 * (b1 + 256 * (b2 + 256 * b3));
    assert w == DecodeFixed32(b);
    assert w / 256 == b1 + 256 * (b2 + 256 * b3) && w % 256 == b0;
    assert w / 0x1_0000 == b2 + 256 * b3;
    assert w / 0x100_0000 == b3;
  }

  lemma {:induction false} Fixed64Decoded(b: seq<Byte>)
    requires |b| == 8
    ensures DecodeFixed64(b) < LONG && Fixed64(DecodeFixed64(b)) == b
  {
    var lo, hi := DecodeFixed32(b[..4]), DecodeFixed32(b[4..]);
    assert DecodeFixed64(b) == lo + WORD * hi;
    assert DecodeFixed64(b) % WORD == lo && DecodeFixed64(b) / WORD == hi;
    Fixed32Decoded(b[..4]);
    Fixed32Decoded(b[4..]);
  }

  // ----- Arrays of words -----

  /** What is left of a number in 32 bits. */
  function Truncate32(n: nat): (w: Word)
    ensures n < WORD ==> w == n
  {
    n % 0x1_0000_0000
  }

  function Truncate64(n: nat): (w: nat)
    ensures w < LONG
    ensures n < LONG ==> w == n
  {
    n % LONG
  }

  predicate SmallWords(words: seq<nat>) {
    forall k :: 0 <= k < |words| ==> words[k] < WORD
  }

  /** Fixed-size words one after the other. */
  function WordArray(words: seq<nat>): seq<Byte> {
    if |words| == 0 then [] else WordArray(words[..|words| - 1]) + Fixed32(Truncate32(words[|words| - 1]))
  }

  lemma {:induction false} WordArrayAt(words: seq<nat>, k: nat)
    requires k < |words|
    ensures |WordArray(words)| == 4 * |words|
    ensures WordArray(words)[4 * k..4 * k + 4] == Fixed32(Truncate32(words[k]))
  {
    var fewer := words[..|words| - 1];
    if |fewer| > 0 {
      WordArrayAt(fewer, if k < |fewer| then k else 0);
    }
  }

  // ----- Varints -----

  /** Seven bits a byte, low bits first; all bytes but the last have the high bit set. */
  function Varint(v: nat): (b: seq<Byte>)
    ensures |b| > 0
  {
    if v < 128 then [v] else [128 + v % 128] + Varint(v / 128)
  }

  /** The loop of EncodeVarint64; EncodeVarint32 unrolls it. */
  method EncodeVarint(value: nat) returns (b: seq<Byte>)
    ensures b == Varint(value)
  {
    var v := value;
    b := [];
    while v >= 128
      invariant b + Varint(v) == Varint(value)
    {
      assert b + ([128 + v % 128] + Varint(v / 128)) == (b + [128 + v % 128]) + Varint(v / 128);
      b := b + [128 + v % 128];
      v := v / 128;
    }
    b := b + [v];
  }

  /** The number that a varint of at most `n` bytes at `pos` stands for, and where it ends. */
  function DecodeVarint(b: seq<Byte>, pos: nat, n: nat): (r: Option<(nat, nat)>)
    ensures r.Some? ==> pos < r.value.1 <= |b|
    decreases n
  {
    if n == 0 || pos >= |b| then None
    else if b[pos] < 128 then Some((b[pos], pos + 1))
    else
      match DecodeVarint(b, pos + 1, n - 1)
      case None => None
      case Some((v, next)) =>
        var low: int := b[pos];
        Some((low - 128 + 128 * v, next))
  }

  const WORD: nat := 0x1_0000_0000

  const MAX_VARINT32: nat := 5

  const MAX_VARINT64: nat := 10

  const LONG: nat := 0x1_0000_0000_0000_0000

  function Truncated(r: Option<(nat, nat)>, modulus: nat): Option<(nat, nat)>
    requires modulus > 0
  {
    match r
    case None => None
    case Some((v, next)) => Some((v % modulus, next))
  }

  /** GetVarint32Ptr: the bits past 32 are shifted out. */
  function GetVarint32(b: seq<Byte>, pos: nat): (r: Option<(nat, nat)>)
    ensures r.Some? ==> pos < r.value.1 <= |b| && r.value.0 < WORD
  {
    Truncated(DecodeVarint(b, pos, MAX_VARINT32), WORD)
  }

  function GetVarint64(b: seq<Byte>, pos: nat): (r: Option<(nat, nat)>)
    ensures r.Some? ==> pos < r.value.1 <= |b| && r.value.0 < LONG
  {
    Truncated(DecodeVarint(b, pos, MAX_VARINT64), LONG)
  }

  /** What is decoded, shifted up and added to what was read before. */
  function Shifted(r: Option<(nat, nat)>, result: nat, scale: nat): Option<(nat, nat)> {
    match r
    case None => None
    case Some((v, next)) => Some((result + scale * v, next))
  }

  /** The loop of GetVarint32PtrFallback and GetVarint64Ptr, before truncation. */
  method GetVarintPtr(b: seq<Byte>, pos: nat, n: nat) returns (r: Option<(nat, nat)>)
    ensures r == DecodeVarint(b, pos, n)
  {
    var p: nat, left: nat, result: nat, scale: nat := pos, n, 0, 1;
    assert DecodeVarint(b, pos, n) == Shifted(DecodeVarint(b, pos, n), 0, 1);
    while left > 0 && p < |b|
      invariant left <= n
      invariant DecodeVarint(b, pos, n) == Shifted(DecodeVarint(b, p, left), result, scale)
    {
      var byte: int := b[p];
      p, left := p + 1, left - 1;
      if byte >= 128 {
        ShiftOne(b, p - 1, left, result, scale);
        result := result + scale * (byte - 128);
        scale := scale * 128;
      } else {
        return Some((result + scale * byte, p));
      }
    }
    return None;
  }

  lemma {:induction false} ShiftOne(b: seq<Byte>, p: nat, left: nat, result: nat, scale: nat)
    requires p < |b| && b[p] >= 128
    ensures Shifted(DecodeVarint(b, p, left + 1), result, scale) ==
            Shifted(DecodeVarint(b, p + 1, left), result + scale * (b[p] as int - 128), scale * 128)
  {
    match DecodeVarint(b, p + 1, left)
    case None =>
    case Some((v, _)) =>
      Distribute(scale, b[p] as int - 128, v);
  }

  lemma {:induction false} Distribute(scale: nat, low: nat, v: nat)
    ensures scale * (low + 128 * v) == scale * low + (scale * 128) * v
  {
  }

  function Bound(n: nat): nat { if n == 0 then 1 else 128 * Bound(n - 1) }

  lemma {:induction false} VarintLength(v: nat, n: nat)
    requires n > 0 && v < Bound(n)
    ensures |Varint(v)| <= n
  {
    if v >= 128 {
      assert n > 1;
      VarintLength(v / 128, n - 1);
    }
  }

  lemma {:induction false} Varint32Size(v: nat)
    requires v < WORD
    ensures |Varint(v)| <= 5
  {
    assert Bound(3) == 0x20_0000;
    assert Bound(5) == 128 * (128 * Bound(3));
    VarintLength(v, 5);
  }

  lemma {:induction false} Varint64Size(v: nat)
    requires v < LONG
    ensures |Varint(v)| <= 10
  {
    assert Bound(3) == 0x20_0000;
    assert Bound(6) == 128 * (128 * (128 * Bound(3)));
    assert Bound(9) == 128 * (128 * (128 * Bound(6)));
    VarintLength(v, 10);
  }

  ghost predicate Match(data: seq<Byte>, p: nat, b: seq<Byte>, i: nat)
    requires i < |b| && p + |b| <= |data|
  {
    data[p + i] == b[i]
  }

  /** The bytes `b` stand in `data` at position `p`. */
  ghost predicate AtPos(data: seq<Byte>, p: nat, b: seq<Byte>) {
    p + |b| <= |data| && forall i {:trigger Match(data, p, b, i)} :: 0 <= i < |b| ==> Match(data, p, b, i)
  }

  lemma {:induction false} AtSplit(data: seq<Byte>, p: nat, a: seq<Byte>, b: seq<Byte>)
    requires AtPos(data, p, a + b)
    ensures AtPos(data, p, a) && AtPos(data, p + |a|, b)
  {
    forall i | 0 <= i < |a| ensures Match(data, p, a, i) {
      assert Match(data, p, a + b, i);
    }
    var q := p + |a|;
    forall i | 0 <= i < |b| ensures Match(data, q, b, i) {
      assert Match(data, p, a + b, |a| + i);
    }
  }

  lemma {:induction false} AtPrefix(data: seq<Byte>, more: seq<Byte>, p: nat, b: seq<Byte>)
    requires AtPos(data, p, b)
    ensures AtPos(data + more, p, b)
  {
    forall i | 0 <= i < |b| ensures Match(data + more, p, b, i) {
      assert Match(data, p, b, i);
    }
  }

  lemma {:induction false} AtEnd(data: seq<Byte>, b: seq<Byte>)
    ensures AtPos(data + b, |data|, b)
  {
    forall i | 0 <= i < |b| ensures Match(data + b, |data|, b, i) {
    }
  }

  lemma {:induction false} AtSlice(data: seq<Byte>, p: nat, b: seq<Byte>)
    requires AtPos(data, p, b)
    ensures data[p..p + |b|] == b
  {
    forall i | 0 <= i < |b| ensures data[p..p + |b|][i] == b[i] {
      assert Match(data, p, b, i);
    }
  }

  /** A varint that stands in a byte string is read back. */
  lemma {:induction false} VarintRoundTrip(data: seq<Byte>, p: nat, v: nat, n: nat)
    requires AtPos(data, p, Varint(v)) && |Varint(v)| <= n
    ensures DecodeVarint(data, p, n) == Some((v, p + |Varint(v)|))
    ensures data[p] == Varint(v)[0]
    decreases n
  {
    assert Match(data, p, Varint(v), 0);
    if v >= 128 {
      AtSplit(data, p, [128 + v % 128], Varint(v / 128));
      VarintRoundTrip(data, p + 1, v / 128, n - 1);
    }
  }

  lemma {:induction false} Varint32RoundTrip(data: seq<Byte>, p: nat, v: nat)
    requires v < WORD && AtPos(data, p, Varint(v))
    ensures GetVarint32(data, p) == Some((v, p + |Varint(v)|))
    ensures data[p] == Varint(v)[0]
  {
    Varint32Size(v);
    VarintRoundTrip(data, p, v, MAX_VARINT32);
  }

  lemma {:induction false} Varint64RoundTrip(data: seq<Byte>, p: nat, v: nat)
    requires v < LONG && AtPos(data, p, Varint(v))
    ensures GetVarint64(data, p) == Some((v, p + |Varint(v)|))
  {
    Varint64Size(v);
    VarintRoundTrip(data, p, v, MAX_VARINT64);
    assert DecodeVarint(data, p, MAX_VARINT64).value.0 % LONG == v;
  }

  // ----- Length-prefixed bytes -----

  function Prefixed(b: Bytes): Bytes {
    Varint(|b|) + b
  }

  /** GetLengthPrefixedSlice: the bytes at `pos`, and where they end. */
  function GetPrefixed(data: Bytes, pos: nat): (r: Option<(Bytes, nat)>)
    ensures r.Some? ==> pos < r.value.1 <= |data| && |r.value.0| < WORD
  {
    match GetVarint32(data, pos)
    case None => None
    case Some((n, next)) => if next + n <= |data| then Some((data[next..next + n], next + n)) else None
  }

  lemma {:induction false} PrefixedRoundTrip(data: Bytes, pos: nat, b: Bytes)
    requires |b| < WORD && AtPos(data, pos, Prefixed(b))
    ensures GetPrefixed(data, pos) == Some((b, pos + |Prefixed(b)|))
  {
    hide GetVarint32, Varint;
    AtSplit(data, pos, Varint(|b|), b);
    Varint32RoundTrip(data, pos, |b|);
    AtSlice(data, pos + |Varint(|b|)|, b);
    assert pos + |Varint(|b|)| + |b| <= |data|;
  }
}
