/** Bloom filters: a filter made for a set of keys never turns one of them away. */
module Bloom {
  import opened Coding
  import opened Common

  /** BloomHash: any function from keys to 32-bit words. */
  type Hash = Bytes -> Word

  // ----- Bits in bytes -----

  predicate Bit(b: nat, i: nat) {
    if i == 0 then b % 2 == 1 else Bit(b / 2, i - 1)
  }

  /** `b | (1 << i)`. */
  function WithBit(b: nat, i: nat): nat {
    if i == 0 then 2 * (b / 2) + 1 else 2 * WithBit(b / 2, i - 1) + b % 2
  }

  lemma {:induction false} BitOfWithBit(b: nat, i: nat, j: nat)
    ensures Bit(WithBit(b, i), j) <==> i == j || Bit(b, j)
  {
    if i > 0 {
      assert WithBit(b, i) / 2 == WithBit(b / 2, i - 1);
      if j > 0 {
        BitOfWithBit(b / 2, i - 1, j - 1);
      }
    } else if j > 0 {
      assert WithBit(b, i) / 2 == b / 2;
    }
  }

  lemma {:induction false} WithBitFits(b: nat, i: nat, n: nat)
    requires b < Pow2(n) && i < n
    ensures WithBit(b, i) < Pow2(n)
  {
    var half := Pow2(n - 1);
    assert Pow2(n) == 2 * half && b / 2 < half;
    if i > 0 {
      WithBitFits(b / 2, i - 1, n - 1);
      assert WithBit(b / 2, i - 1) < half;
    }
  }

  predicate BitAt(a: Bytes, p: nat)
    requires p < 8 * |a|
  {
    Bit(a[p / 8], p % 8)
  }

  /** One bit of the array is set and no other one changes. */
  method SetBit(a: array<Byte>, p: nat)
    requires p < 8 * a.Length
    modifies a
    ensures forall q :: 0 <= q < 8 * a.Length ==> (BitAt(a[..], q) <==> q == p || old(BitAt(a[..], q)))
  {
    assert Pow2(8) == 256 by {
      assert Pow2(4) == 16;
    }
    WithBitFits(a[p / 8], p % 8, 8);
    ghost var was := a[..];
    var b: nat := WithBit(a[p / 8], p % 8);
    a[p / 8] := b;
    assert a[..] == was[p / 8 := b];
    forall q | 0 <= q < 8 * a.Length ensures BitAt(a[..], q) <==> q == p || BitAt(was, q) {
      if q / 8 == p / 8 {
        BitOfWithBit(was[p / 8], p % 8, q % 8);
      }
    }
  }

  // ----- Probes -----

  /** Rotate right by 17 bits. */
  function Delta(h: Word): Word {
    h / 0x2_0000 + h % 0x2_0000 * 0x8000
  }

  /** The hash after `j` additions of the delta, in 32 bits. */
  function ProbeHash(h: Word, j: nat): Word {
    if j == 0 then h else (ProbeHash(h, j - 1) + Delta(h)) % 0x1_0000_0000
  }

  function Position(h: Word, j: nat, bits: nat): (p: nat)
    requires bits > 0
    ensures p < bits
  {
    ProbeHash(h, j) % bits
  }

  /** One of the first `k` probes for `key` is bit `p`. */
  ghost predicate Probes(hash: Hash, key: Bytes, k: nat, bits: nat, p: nat)
    requires bits > 0
  {
    exists j :: 0 <= j < k && Position(hash(key), j, bits) == p
  }

  ghost predicate Marked(hash: Hash, keys: seq<Bytes>, k: nat, bits: nat, p: nat)
    requires bits > 0
  {
    exists key :: key in keys && Probes(hash, key, k, bits, p)
  }

  /** The bits that are set in `filter` are exactly the probes for the keys. */
  ghost predicate FilterOf(hash: Hash, keys: seq<Bytes>, filter: Bytes) {
    && |filter| >= 2 && filter[|filter| - 1] <= 30
    && var bits := 8 * (|filter| - 1);
       forall p :: 0 <= p < bits ==> (BitAt(filter, p) <==> Marked(hash, keys, filter[|filter| - 1], bits, p))
  }

  /** Probe `j` for the key is a bit that is set. */
  ghost predicate Hit(hash: Hash, key: Bytes, filter: Bytes, j: nat)
    requires |filter| >= 2
  {
    BitAt(filter, Position(hash(key), j, 8 * (|filter| - 1)))
  }

  /** What KeyMayMatch computes. */
  ghost predicate MayMatch(hash: Hash, key: Bytes, filter: Bytes) {
    && |filter| >= 2
    && var k := filter[|filter| - 1];
       k > 30 || forall j :: 0 <= j < k ==> Hit(hash, key, filter, j)
  }

  /** A key matches a filter just when each of its probes is a probe for a key of the filter. */
  lemma {:induction false} MatchesExactly(hash: Hash, keys: seq<Bytes>, filter: Bytes, key: Bytes)
    requires FilterOf(hash, keys, filter)
    ensures var k, bits := filter[|filter| - 1], 8 * (|filter| - 1);
            MayMatch(hash, key, filter) <==> forall j :: 0 <= j < k ==> Marked(hash, keys, k, bits, Position(hash(key), j, bits))
  {
    var k, bits := filter[|filter| - 1], 8 * (|filter| - 1);
    forall j | 0 <= j < k ensures Hit(hash, key, filter, j) <==> Marked(hash, keys, k, bits, Position(hash(key), j, bits)) {
    }
  }

  /** No false negatives. */
  lemma {:induction false} AddedKeyMatches(hash: Hash, keys: seq<Bytes>, filter: Bytes, key: Bytes)
    requires FilterOf(hash, keys, filter) && key in keys
    ensures MayMatch(hash, key, filter)
  {
    var k, bits := filter[|filter| - 1], 8 * (|filter| - 1);
    forall j | 0 <= j < k ensures Hit(hash, key, filter, j) {
      assert Probes(hash, key, k, bits, Position(hash(key), j, bits));
    }
  }

  datatype BloomFilterPolicy = BloomFilterPolicy(bitsPerKey: nat, hash: Hash) {

    /** The number of probes. */
    function K(): (k: nat)
      ensures 1 <= k <= 30
    {
      var k := (bitsPerKey as real * 0.69).Floor;
      if k < 1 then 1 else if k > 30 then 30 else k
    }

    method CreateFilter(keys: seq<Bytes>) returns (filter: Bytes)
      ensures FilterOf(hash, keys, filter)
      ensures var bits := Max(64, |keys| * bitsPerKey); bits <= 8 * (|filter| - 1) < bits + 8
      ensures filter[|filter| - 1] == K()
    {
      var bits := |keys| * bitsPerKey;
      if bits < 64 {
        bits := 64;
      }
      var bytes: nat := (bits + 7) / 8;
      bits := bytes * 8;
      var a := new Byte[bytes](_ => 0);
      ghost var k := K();
      forall p | 0 <= p < bits ensures !BitAt(a[..], p) {
        ZeroHasNoBits(p % 8);
      }
      for i := 0 to |keys|
        invariant forall p :: 0 <= p < bits ==> (BitAt(a[..], p) <==> Marked(hash, keys[..i], k, bits, p))
      {
        ghost var before := a[..];
        AddKey(a, keys[i]);
        forall p | 0 <= p < bits ensures BitAt(a[..], p) <==> Marked(hash, keys[..i + 1], k, bits, p) {
          MarkedNext(keys, i, bits, p);
        }
      }
      assert keys[..|keys|] == keys;
      filter := a[..] + [K()];
      forall p | 0 <= p < bits ensures BitAt(filter, p) <==> Marked(hash, keys, k, bits, p) {
        assert filter[p / 8] == a[p / 8];
        assert BitAt(a[..], p) == BitAt(filter, p);
      }
    }

    lemma {:induction false} MarkedNext(keys: seq<Bytes>, i: nat, bits: nat, p: nat)
      requires i < |keys| && bits > 0
      ensures Marked(hash, keys[..i + 1], K(), bits, p) <==>
              Marked(hash, keys[..i], K(), bits, p) || Probes(hash, keys[i], K(), bits, p)
    {
      assert forall key :: key in keys[..i + 1] <==> key in keys[..i] || key == keys[i];
    }

    lemma {:induction false} ProbesNext(key: Bytes, j: nat, bits: nat)
      requires bits > 0
      ensures forall p :: Probes(hash, key, j + 1, bits, p) <==> Probes(hash, key, j, bits, p) || p == Position(hash(key), j, bits)
    {
      assert Probes(hash, key, j + 1, bits, Position(hash(key), j, bits));
      forall p | Probes(hash, key, j, bits, p) ensures Probes(hash, key, j + 1, bits, p) {
        var i :| 0 <= i < j && Position(hash(key), i, bits) == p;
      }
    }

    /** Set the bits of one key. */
    method AddKey(a: array<Byte>, key: Bytes)
      requires a.Length > 0
      modifies a
      ensures forall p :: 0 <= p < 8 * a.Length ==>
        (BitAt(a[..], p) <==> old(BitAt(a[..], p)) || Probes(hash, key, K(), 8 * a.Length, p))
    {
      var bits := 8 * a.Length;
      var h := hash(key);
      var delta := Delta(h);
      for j := 0 to K()
        invariant h == ProbeHash(hash(key), j)
        invariant forall p :: 0 <= p < bits ==> (BitAt(a[..], p) <==> old(BitAt(a[..], p)) || Probes(hash, key, j, bits, p))
      {
        var bitpos: nat := h % bits;
        assert bitpos == Position(hash(key), j, bits);
        SetBit(a, bitpos);
        ProbesNext(key, j, bits);
        h := (h + delta) % 0x1_0000_0000;
      }
    }

    method KeyMayMatch(key: Bytes, filter: Bytes) returns (r: bool)
      ensures r <==> MayMatch(hash, key, filter)
    {
      var len := |filter|;
      if len < 2 {
        return false;
      }
      var bits := 8 * (len - 1);
      var k: nat := filter[len - 1];
      if k > 30 {
        // not an encoding that this policy knows
        return true;
      }
      var h := hash(key);
      var delta := Delta(h);
      for j := 0 to k
        invariant h == ProbeHash(hash(key), j)
        invariant forall i :: 0 <= i < j ==> Hit(hash, key, filter, i)
      {
        var bitpos: nat := h % bits;
        assert BitAt(filter, bitpos) == Hit(hash, key, filter, j);
        if !BitAt(filter, bitpos) {
          return false;
        }
        h := (h + delta) % 0x1_0000_0000;
      }
      return true;
    }
  }

  lemma {:induction false} ZeroHasNoBits(i: nat)
    ensures !Bit(0, i)
  {
    if i > 0 {
      ZeroHasNoBits(i - 1);
    }
  }
}
