/** The order of keys as bytes, and the short keys that the index of a table uses. */
module Separators {
  import opened Coding

  /** Slice::compare: the first different byte decides, or else the length. */
  predicate Less(a: Bytes, b: Bytes) {
    |b| > 0 && (|a| == 0 || a[0] < b[0] || (a[0] == b[0] && Less(a[1..], b[1..])))
  }

  lemma {:induction false} LessTotal(a: Bytes, b: Bytes)
    ensures !(Less(a, b) && Less(b, a))
    ensures a == b <==> !Less(a, b) && !Less(b, a)
  {
    if |a| > 0 && |b| > 0 {
      LessTotal(a[1..], b[1..]);
      assert a == [a[0]] + a[1..] && b == [b[0]] + b[1..];
    }
  }

  lemma {:induction false} LessTransitive(a: Bytes, b: Bytes, c: Bytes)
    requires Less(a, b) && Less(b, c)
    ensures Less(a, c)
  {
    if |a| > 0 && a[0] == b[0] == c[0] {
      LessTransitive(a[1..], b[1..], c[1..]);
    }
  }

  /** The order in numbers: at the first difference there is a smaller byte, or there is none and it is shorter. */
  lemma {:induction false} LessMeans(a: Bytes, b: Bytes)
    ensures Less(a, b) <==>
      exists d :: 0 <= d <= |a| && d < |b| && a[..d] == b[..d] && (d == |a| || a[d] < b[d])
  {
    if Less(a, b) {
      var d := WhereLess(a, b);
    }
    if d :| 0 <= d <= |a| && d < |b| && a[..d] == b[..d] && (d == |a| || a[d] < b[d]) {
      LessAt(a, b, d);
    }
  }

  lemma {:induction false} WhereLess(a: Bytes, b: Bytes) returns (d: nat)
    requires Less(a, b)
    ensures d <= |a| && d < |b| && a[..d] == b[..d] && (d == |a| || a[d] < b[d])
  {
    if |a| == 0 || a[0] < b[0] {
      d := 0;
    } else {
      var e := WhereLess(a[1..], b[1..]);
      d := e + 1;
      assert a[..d] == [a[0]] + a[1..][..e] && b[..d] == [b[0]] + b[1..][..e];
    }
  }

  lemma {:induction false} LessAt(a: Bytes, b: Bytes, d: nat)
    requires d <= |a| && d < |b| && a[..d] == b[..d] && (d == |a| || a[d] < b[d])
    ensures Less(a, b)
  {
    if d > 0 {
      assert a[0] == a[..d][0] == b[..d][0] == b[0];
      assert a[1..][..d - 1] == a[..d][1..] == b[..d][1..] == b[1..][..d - 1];
      LessAt(a[1..], b[1..], d - 1);
    }
  }

  /** The first different byte decides. */
  lemma {:induction false} DifferAt(a: Bytes, b: Bytes, d: nat)
    requires d < |a| && d < |b| && a[..d] == b[..d] && a[d] < b[d]
    ensures Less(a, b)
  {
    LessAt(a, b, d);
  }

  /** A byte string at or past `start` and before `limit`, no longer than `start`. */
  method FindShortestSeparator(start: Bytes, limit: Bytes) returns (r: Bytes)
    ensures r == start || (Less(start, r) && Less(r, limit))
    ensures |r| <= |start|
    // it ends at the first difference if there is room for a byte between
    ensures forall d :: 0 <= d < |start| && d < |limit| && start[..d] == limit[..d] && start[d] < 255 && start[d] as int + 1 < limit[d] as int ==>
      r == start[..d] + [start[d] as int + 1]
    ensures (forall d :: 0 <= d < |start| && d < |limit| && start[..d] == limit[..d] ==> start[d] as int + 1 >= limit[d] as int) ==> r == start
  {
    var minLength := if |start| < |limit| then |start| else |limit|;
    var d := 0;
    while d < minLength && start[d] == limit[d]
      invariant d <= minLength && start[..d] == limit[..d]
    {
      d := d + 1;
    }
    if d >= minLength {
      return start;
    }
    var diff: int := start[d];
    if diff < 0xff && diff + 1 < limit[d] {
      r := start[..d] + [diff + 1];
      assert r[..d] == start[..d];
      DifferAt(start, r, d);
      DifferAt(r, limit, d);
      return r;
    }
    return start;
  }

  /** A byte string at or past `key`. */
  method FindShortSuccessor(key: Bytes) returns (r: Bytes)
    ensures r == key || Less(key, r)
    ensures |r| <= |key|
    // it ends at the first byte that can be raised
    ensures r == key <==> forall i :: 0 <= i < |key| ==> key[i] == 255
    ensures r != key ==> |r| > 0 && (forall i :: 0 <= i < |r| - 1 ==> key[i] == 255) && r == key[..|r| - 1] + [key[|r| - 1] as int + 1]
  {
    for i := 0 to |key|
      invariant forall j :: 0 <= j < i ==> key[j] == 255
    {
      var byte: int := key[i];
      if byte != 0xff {
        r := key[..i] + [byte + 1];
        assert r[..i] == key[..i];
        DifferAt(key, r, i);
        return r;
      }
    }
    return key;
  }

  // ----- Internal keys -----

  /** A user key and then eight bytes of tag: sequence number, then type. */
  const TAG: nat := 8

  predicate IsKey(k: Bytes) { |k| >= TAG }

  function UserPart(k: Bytes): Bytes
    requires IsKey(k)
  {
    k[..|k| - TAG]
  }

  function TagPart(k: Bytes): nat
    requires IsKey(k)
  {
    DecodeFixed64(k[|k| - TAG..])
  }

  /** The tag of the greatest sequence number and the seek type. */
  const MAX_TAG: nat := 0xff_ffff_ffff_ffff * 256 + 1

  /** InternalKeyComparator::Compare: user keys ascend; within a user key, tags descend. */
  predicate Before(a: Bytes, b: Bytes) {
    && IsKey(a) && IsKey(b)
    && (Less(UserPart(a), UserPart(b)) || (UserPart(a) == UserPart(b) && TagPart(a) > TagPart(b)))
  }

  /** Keys that the order does not tell apart are the same bytes. */
  lemma {:induction false} BeforeTotal(a: Bytes, b: Bytes)
    requires IsKey(a) && IsKey(b)
    ensures !(Before(a, b) && Before(b, a))
    ensures a == b <==> !Before(a, b) && !Before(b, a)
  {
    LessTotal(UserPart(a), UserPart(b));
    if UserPart(a) == UserPart(b) && TagPart(a) == TagPart(b) {
      Fixed64Decoded(a[|a| - TAG..]);
      Fixed64Decoded(b[|b| - TAG..]);
      assert a == UserPart(a) + a[|a| - TAG..] && b == UserPart(b) + b[|b| - TAG..];
    }
  }

  lemma {:induction false} BeforeTransitive(a: Bytes, b: Bytes, c: Bytes)
    requires Before(a, b) && Before(b, c)
    ensures Before(a, c)
  {
    if Less(UserPart(a), UserPart(b)) && Less(UserPart(b), UserPart(c)) {
      LessTransitive(UserPart(a), UserPart(b), UserPart(c));
    }
  }

  /** `sep` may stand for a block that ends with `last`, before a block that starts with `next`: it is
      the last key itself, or has a user key strictly between theirs. */
  predicate Separates(last: Bytes, sep: Bytes, next: Bytes) {
    && IsKey(last) && IsKey(sep) && IsKey(next)
    && (sep == last || (Less(UserPart(last), UserPart(sep)) && Less(UserPart(sep), UserPart(next))))
  }

  lemma {:induction false} SeparatesOrder(last: Bytes, sep: Bytes, next: Bytes)
    requires Before(last, next) && Separates(last, sep, next)
    ensures !Before(sep, last) && Before(sep, next)
  {
    BeforeTotal(last, sep);
  }

  lemma {:induction false} WithTag(user: Bytes, tag: nat)
    requires tag < LONG
    ensures var k := user + Fixed64(tag);
            IsKey(k) && UserPart(k) == user && TagPart(k) == tag
  {
    Fixed64RoundTrip(tag);
    var k := user + Fixed64(tag);
    assert k[|k| - TAG..] == Fixed64(tag) && UserPart(k) == user;
  }

  /** InternalKeyComparator::FindShortestSeparator. */
  method InternalSeparator(start: Bytes, limit: Bytes) returns (r: Bytes)
    requires IsKey(start) && IsKey(limit)
    ensures Separates(start, r, limit) && |r| <= |start|
    ensures r == start || (|r| < |start| && TagPart(r) == 0xffff_ffff_ffff_ff01)
  {
    var tmp := FindShortestSeparator(UserPart(start), UserPart(limit));
    if |tmp| < |UserPart(start)| && Less(UserPart(start), tmp) {
      WithTag(tmp, MAX_TAG);
      LessTotal(UserPart(start), tmp);
      return tmp + Fixed64(MAX_TAG);
    }
    return start;
  }

  /** InternalKeyComparator::FindShortSuccessor. */
  method InternalSuccessor(key: Bytes) returns (r: Bytes)
    requires IsKey(key)
    ensures IsKey(r) && |r| <= |key| && (r == key || Less(UserPart(key), UserPart(r)))
    ensures r == key || (|r| < |key| && TagPart(r) == 0xffff_ffff_ffff_ff01)
  {
    var tmp := FindShortSuccessor(UserPart(key));
    if |tmp| < |UserPart(key)| && Less(UserPart(key), tmp) {
      WithTag(tmp, MAX_TAG);
      return tmp + Fixed64(MAX_TAG);
    }
    return key;
  }
}
