/** Small definitions that several modules share. */
module Common {

  datatype Option<+T> = None | Some(value: T)

  /** The levels of a version. */
  const NUM_LEVELS: nat := 7

  function Min(a: nat, b: nat): nat { if a < b then a else b }

  function Max(a: nat, b: nat): nat { if a < b then b else a }

  function Pow2(k: nat): nat {
    if k == 0 then 1 else 2 * Pow2(k - 1)
  }

  lemma {:induction false} SubsetSize<T>(a: set<T>, b: set<T>)
    requires a <= b
    ensures |a| <= |b|
  {
    if a != {} {
      var x :| x in a;
      SubsetSize(a - {x}, b - {x});
    }
  }

  // ----- Sequences without repetition -----

  ghost predicate Differ<T>(s: seq<T>, i: nat, j: nat)
    requires i < |s| && j < |s|
  {
    s[i] != s[j]
  }

  /** No element occurs twice. */
  ghost predicate Distinct<T>(s: seq<T>) {
    forall i, j {:trigger Differ(s, i, j)} :: 0 <= i < j < |s| ==> Differ(s, i, j)
  }

  lemma {:induction false} Prepend<T>(x: T, s: seq<T>)
    requires Distinct(s) && x !in s
    ensures Distinct([x] + s) && forall y :: y in [x] + s <==> y in s || y == x
  {
    var r := [x] + s;
    forall i, j | 0 <= i < j < |r| ensures Differ(r, i, j) {
      assert i > 0 ==> Differ(s, i - 1, j - 1);
    }
  }

  lemma {:induction false} RemoveHead<T>(s: seq<T>)
    requires Distinct(s) && |s| > 0
    ensures Distinct(s[1..]) && s[0] !in s[1..]
    ensures forall x :: x in s <==> x == s[0] || x in s[1..]
  {
    var r := s[1..];
    assert s == [s[0]] + r;
    forall i, j | 0 <= i < j < |r| ensures Differ(r, i, j) {
      assert Differ(s, i + 1, j + 1);
    }
    forall i | 0 <= i < |r| ensures r[i] != s[0] {
      assert Differ(s, 0, i + 1);
    }
  }

  lemma {:induction false} Append<T>(s: seq<T>, x: T)
    requires Distinct(s) && x !in s
    ensures Distinct(s + [x])
    ensures forall y :: y in s + [x] <==> y in s || y == x
  {
    var r := s + [x];
    forall i, j | 0 <= i < j < |r| ensures Differ(r, i, j) {
      assert j < |s| ==> Differ(s, i, j);
    }
  }
}
