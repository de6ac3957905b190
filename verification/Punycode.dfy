/** The Punycode encoder of one domain label, and the decoder of RFC 3492 as its partner. */
module Punycode {
  import opened Common

  const UINT_MAX: nat := 0xffff_ffff

  const UV_EINVAL: int := -22

  const UV_E2BIG: int := -7

  const HYPHEN: nat := 45

  const PREFIX: seq<nat> := [120, 110, 45, 45]  // "xn--"

  // ----- Generalized variable-length integers (RFC 3492, section 3.3) -----

  /** The digit threshold at position `k`. */
  function Threshold(k: nat, bias: nat): (t: nat)
    ensures 1 <= t <= 26
  {
    var t := if k > bias then k - bias else 1;
    if t > 26 then 26 else t
  }

  /** The character for a digit: a to z, then 0 to 9. */
  function Character(digit: nat): nat
    requires digit < 36
  {
    if digit < 26 then 97 + digit else 22 + digit
  }

  /** Lower-case letters and digits. */
  ghost predicate Digits(s: seq<nat>) {
    forall c :: c in s ==> 97 <= c <= 122 || 48 <= c <= 57
  }

  function DigitOf(c: nat): Option<nat> {
    if 97 <= c <= 122 then Some(c - 97)
    else if 65 <= c <= 90 then Some(c - 65)
    else if 48 <= c <= 57 then Some(c - 22)
    else None
  }

  /** Product, quotient and remainder by repeated addition and subtraction. */
  function Times(a: nat, b: nat): nat {
    if a == 0 then 0 else b + Times(a - 1, b)
  }

  function Quotient(x: nat, b: nat): (r: nat)
    requires b > 0
    ensures r <= x
    decreases x
  {
    if x < b then 0 else 1 + Quotient(x - b, b)
  }

  function Remainder(x: nat, b: nat): (r: nat)
    requires b > 0
    ensures r < b
    decreases x
  {
    if x < b then x else Remainder(x - b, b)
  }

  lemma {:induction false} TimesIs(a: nat, b: nat)
    ensures Times(a, b) == a * b
  {
    if a > 0 {
      TimesIs(a - 1, b);
      assert a * b == (a - 1) * b + b;
    }
  }

  lemma {:induction false} QuotientIs(x: nat, b: nat)
    requires b > 0
    ensures x == Times(Quotient(x, b), b) + Remainder(x, b)
    decreases x
  {
    if x >= b {
      QuotientIs(x - b, b);
    }
  }

  /** What is left of `q` after its digit, and the digit's distance from the threshold. */
  function Rest(q: nat, t: nat): (r: nat)
    requires 1 <= t <= 26 && t <= q
    ensures r < q
  {
    Quotient(q - t, 36 - t)
  }

  function Excess(q: nat, t: nat): (r: nat)
    requires 1 <= t <= 26 && t <= q
    ensures r < 36 - t
  {
    Remainder(q - t, 36 - t)
  }

  lemma {:induction false} Decompose(q: nat, t: nat, w: nat)
    requires 1 <= t <= 26 && t <= q
    ensures Times(t + Excess(q, t), w) + Times(Rest(q, t), Times(w, 36 - t)) == Times(q, w)
  {
    QuotientIs(q - t, 36 - t);
    Distribute(t + Excess(q, t), Times(Rest(q, t), 36 - t), w);
    Reorder(Rest(q, t), 36 - t, w);
  }

  lemma {:induction false} Reorder(r: nat, b: nat, w: nat)
    ensures Times(Times(r, b), w) == Times(r, Times(w, b))
  {
    TimesIs(r, b);
    TimesIs(r * b, w);
    TimesIs(w, b);
    TimesIs(r, w * b);
    assert (r * b) * w == r * (w * b);
  }

  lemma {:induction false} Distribute(a: nat, b: nat, y: nat)
    ensures Times(a + b, y) == Times(a, y) + Times(b, y)
  {
    if a > 0 {
      Distribute(a - 1, b, y);
    }
  }

  lemma {:induction false} Commute(a: nat, b: nat)
    ensures Times(a, b) == Times(b, a)
  {
    TimesIs(a, b);
    TimesIs(b, a);
  }

  lemma {:induction false} Bounded(a: nat, y: nat, b: nat, z: nat)
    requires a <= b && y <= z
    ensures Times(a, y) <= Times(b, z)
  {
    if a > 0 {
      Bounded(a - 1, y, b - 1, z);
    }
  }

  lemma {:induction false} DivModOf(a: nat, b: nat, c: nat)
    requires c < b
    ensures Quotient(Times(a, b) + c, b) == a && Remainder(Times(a, b) + c, b) == c
  {
    if a > 0 {
      DivModOf(a - 1, b, c);
    }
  }

  function EncodeInt(q: nat, bias: nat, k: nat): seq<nat> {
    var t := Threshold(k, bias);
    if q < t then [Character(q)]
    else [Character(t + Excess(q, t))] + EncodeInt(Rest(q, t), bias, k + 36)
  }

  /** Read one integer; `w` is the weight of the next digit. */
  function DecodeInt(input: seq<nat>, bias: nat, k: nat, w: nat, acc: nat): Option<(nat, seq<nat>)>
    decreases |input|
  {
    if |input| == 0 then None
    else match DigitOf(input[0])
      case None => None
      case Some(digit) =>
        var t := Threshold(k, bias);
        if digit < t then Some((acc + Times(digit, w), input[1..]))
        else DecodeInt(input[1..], bias, k + 36, Times(w, 36 - t), acc + Times(digit, w))
  }

  lemma {:induction false} CharacterDigit(digit: nat)
    requires digit < 36
    ensures DigitOf(Character(digit)) == Some(digit) && Character(digit) != HYPHEN
  {
  }

  lemma {:induction false} DecodeDigit(input: seq<nat>, bias: nat, k: nat, w: nat, acc: nat, digit: nat)
    requires |input| > 0 && DigitOf(input[0]) == Some(digit) && digit >= Threshold(k, bias)
    ensures DecodeInt(input, bias, k, w, acc)
         == DecodeInt(input[1..], bias, k + 36, Times(w, 36 - Threshold(k, bias)), acc + Times(digit, w))
  {
  }

  lemma {:induction false} DecodeFirst(q: nat, bias: nat, k: nat, w: nat, acc: nat, rest: seq<nat>, w': nat, acc': nat)
    requires var t := Threshold(k, bias);
      t <= q && w' == Times(w, 36 - t) && acc' == acc + Times(t + Excess(q, t), w)
    ensures DecodeInt(EncodeInt(q, bias, k) + rest, bias, k, w, acc)
         == DecodeInt(EncodeInt(Rest(q, Threshold(k, bias)), bias, k + 36) + rest, bias, k + 36, w', acc')
  {
    var t := Threshold(k, bias);
    var input, input' := EncodeInt(q, bias, k) + rest, EncodeInt(Rest(q, t), bias, k + 36) + rest;
    CharacterDigit(t + Excess(q, t));
    assert input[1..] == input';
    DecodeDigit(input, bias, k, w, acc, t + Excess(q, t));
  }

  lemma {:induction false} DecodeLast(q: nat, bias: nat, k: nat, w: nat, acc: nat, rest: seq<nat>)
    requires q < Threshold(k, bias)
    ensures DecodeInt(EncodeInt(q, bias, k) + rest, bias, k, w, acc) == Some((acc + Times(q, w), rest))
  {
    CharacterDigit(q);
    assert (EncodeInt(q, bias, k) + rest)[1..] == rest;
  }

  lemma {:induction false} DecodeEncodeInt(q: nat, bias: nat, k: nat, w: nat, acc: nat, rest: seq<nat>)
    ensures DecodeInt(EncodeInt(q, bias, k) + rest, bias, k, w, acc) == Some((acc + Times(q, w), rest))
    decreases q
  {
    var t := Threshold(k, bias);
    if q < t {
      DecodeLast(q, bias, k, w, acc, rest);
    } else {
      var w', acc' := Times(w, 36 - t), acc + Times(t + Excess(q, t), w);
      DecodeEncodeInt(Rest(q, t), bias, k + 36, w', acc', rest);
      DecodeFirst(q, bias, k, w, acc, rest, w', acc');
      Decompose(q, t, w);
    }
  }

  lemma {:induction false} EncodeIntDigits(q: nat, bias: nat, k: nat)
    ensures Digits(EncodeInt(q, bias, k)) && |EncodeInt(q, bias, k)| > 0
    decreases q
  {
    var t := Threshold(k, bias);
    if q >= t {
      EncodeIntDigits(Rest(q, t), bias, k + 36);
    }
  }

  lemma {:induction false} DecodeIntShortens(input: seq<nat>, bias: nat, k: nat, w: nat, acc: nat)
    ensures match DecodeInt(input, bias, k, w, acc) case None => true case Some(r) => |r.1| < |input|
    decreases |input|
  {
    if |input| > 0 && DigitOf(input[0]).Some? {
      var digit, t := DigitOf(input[0]).value, Threshold(k, bias);
      DecodeIntShortens(input[1..], bias, k + 36, Times(w, 36 - t), acc + Times(digit, w));
    }
  }

  lemma {:induction false} DecodeIntAppend(input: seq<nat>, bias: nat, k: nat, w: nat, acc: nat, more: seq<nat>)
    requires DecodeInt(input, bias, k, w, acc).Some?
    ensures DecodeInt(input + more, bias, k, w, acc)
         == Some((DecodeInt(input, bias, k, w, acc).value.0, DecodeInt(input, bias, k, w, acc).value.1 + more))
    decreases |input|
  {
    var digit, t := DigitOf(input[0]).value, Threshold(k, bias);
    assert (input + more)[1..] == input[1..] + more;
    if digit >= t {
      DecodeIntAppend(input[1..], bias, k + 36, Times(w, 36 - t), acc + Times(digit, w), more);
    }
  }

  // ----- Bias adaptation (RFC 3492, section 6.1) -----

  function Damped(delta: nat, bias: nat): nat {
    if delta > 455 then Damped(delta / 35, bias + 36) else bias + 36 * delta / (delta + 38)
  }

  function Adapt(delta: nat, points: nat, first: bool): nat
    requires points > 0
  {
    var d := if first then delta / 700 else delta / 2;
    Damped(d + Quotient(d, points), 0)
  }

  function Pow35(k: nat): (p: nat)
    ensures p > 0
  {
    if k == 0 then 1 else 35 * Pow35(k - 1)
  }

  /** The number was divided by 35 as often as it took to get it to at most 455. */
  ghost predicate Reduced(e: nat, k: nat) {
    e / Pow35(k) <= 455 && (k > 0 ==> e / Pow35(k - 1) > 455)
  }

  /** The bias in numbers: base 36, least and greatest threshold 1 and 26, skew 38, damp 700. */
  ghost predicate IsBias(delta: nat, points: nat, first: bool, bias: nat)
    requires points > 0
  {
    var d := if first then delta / 700 else delta / 2;
    var e := d + d / points;
    exists k: nat :: Reduced(e, k) && bias == 36 * k + 36 * (e / Pow35(k)) / (e / Pow35(k) + 38)
  }

  lemma {:induction false} DivTwice(x: nat, p: nat)
    requires p > 0
    ensures x / 35 / p == x / (35 * p)
  {
    var q, d := x / 35, x % 35;
    var r, c := q / p, q % p;
    assert x == 35 * q + d && q == r * p + c;
    assert x == r * (35 * p) + (35 * c + d) by {
      assert 35 * (r * p) == r * (35 * p);
    }
    assert 35 * c + d < 35 * p;
    DivModOf(r, 35 * p, 35 * c + d);
    TimesIs(r, 35 * p);
    QuotientDivides(x, 35 * p);
  }

  lemma {:induction false} QuotientDivides(x: nat, b: nat)
    requires b > 0
    ensures Quotient(x, b) == x / b && Remainder(x, b) == x % b
  {
    QuotientIs(x, b);
    TimesIs(Quotient(x, b), b);
    DivUnique(Quotient(x, b), Remainder(x, b), x / b, x % b, b);
  }

  lemma {:induction false} DivUnique(q: nat, c: nat, r: nat, d: nat, b: nat)
    requires q * b + c == r * b + d && c < b && d < b
    ensures q == r && c == d
  {
    hide Quotient, Remainder;
    TimesIs(q, b);
    TimesIs(r, b);
    DivModOf(q, b, c);
    DivModOf(r, b, d);
  }

  lemma {:induction false} DampedIs(delta: nat, bias: nat) returns (k: nat)
    ensures Reduced(delta, k) && Damped(delta, bias) == bias + 36 * k + 36 * (delta / Pow35(k)) / (delta / Pow35(k) + 38)
  {
    if delta > 455 {
      var j := DampedIs(delta / 35, bias + 36);
      k := j + 1;
      DivTwice(delta, Pow35(j));
      if j > 0 {
        DivTwice(delta, Pow35(j - 1));
      }
      assert k == 1 ==> Pow35(0) == 1;
    } else {
      k := 0;
      assert Pow35(0) == 1;
    }
  }

  lemma {:induction false} AdaptIs(delta: nat, points: nat, first: bool)
    requires points > 0
    ensures IsBias(delta, points, first, Adapt(delta, points, first))
  {
    hide Quotient, Damped, Reduced, Pow35;
    var d := if first then delta / 700 else delta / 2;
    QuotientDivides(d, points);
    var e := d + d / points;
    var k := DampedIs(e, 0);
    assert Adapt(delta, points, first) == Damped(e, 0);
  }

  // ----- The decoder (RFC 3492, section 6.2) -----

  datatype State = State(n: nat, i: nat, bias: nat, output: seq<nat>)

  /** Insert the code point that an encoded integer stands for. */
  function Insert(st: State, delta: nat): State {
    var i := st.i + delta;
    var points := |st.output| + 1;
    var at := Remainder(i, points);
    var n := st.n + Quotient(i, points);
    State(n, at + 1, Adapt(delta, points, st.i == 0), st.output[..at] + [n] + st.output[at..])
  }

  function Run(input: seq<nat>, st: State): Option<State>
    decreases |input|
  {
    if |input| == 0 then Some(st)
    else
      DecodeIntShortens(input, st.bias, 36, 1, 0);
      match DecodeInt(input, st.bias, 36, 1, 0)
      case None => None
      case Some(r) => Run(r.1, Insert(st, r.0))
  }

  /** The position after the last hyphen before `e`, or 0. */
  function AfterLastHyphen(input: seq<nat>, e: nat): (b: nat)
    requires e <= |input|
    ensures b <= e
  {
    if e == 0 then 0 else if input[e - 1] == HYPHEN then e else AfterLastHyphen(input, e - 1)
  }

  /** Decode a label without its prefix. */
  function Decode(input: seq<nat>): Option<seq<nat>> {
    var b := AfterLastHyphen(input, |input|);
    // a hyphen with nothing before it is no separator
    var (basic, start) := if b <= 1 then ([], 0) else (input[..b - 1], b);
    match Run(input[start..], State(128, 0, 72, basic))
    case None => None
    case Some(st) => Some(st.output)
  }

  lemma {:induction false} RunAppend(input: seq<nat>, st: State, mid: State, delta: nat)
    requires Run(input, st) == Some(mid)
    ensures Run(input + EncodeInt(delta, mid.bias, 36), st) == Some(Insert(mid, delta))
    decreases |input|
  {
    var piece := EncodeInt(delta, mid.bias, 36);
    EncodeIntDigits(delta, mid.bias, 36);
    if |input| == 0 {
      assert input + piece == piece + [];
      DecodeEncodeInt(delta, mid.bias, 36, 1, 0, []);
      TimesIs(delta, 1);
    } else {
      var r := DecodeInt(input, st.bias, 36, 1, 0).value;
      DecodeIntShortens(input, st.bias, 36, 1, 0);
      DecodeIntAppend(input, st.bias, 36, 1, 0, piece);
      RunAppend(r.1, Insert(st, r.0), mid, delta);
    }
  }

  lemma {:induction false} LastHyphen(basic: seq<nat>, digits: seq<nat>, e: nat)
    requires Digits(digits) && e <= |digits|
    ensures AfterLastHyphen(basic + [HYPHEN] + digits, |basic| + 1 + e) == |basic| + 1
  {
    if e > 0 {
      assert (basic + [HYPHEN] + digits)[|basic| + e] == digits[e - 1] && digits[e - 1] in digits;
      LastHyphen(basic, digits, e - 1);
    }
  }

  lemma {:induction false} NoHyphen(digits: seq<nat>, e: nat)
    requires Digits(digits) && e <= |digits|
    ensures AfterLastHyphen(digits, e) == 0
  {
    if e > 0 {
      assert digits[e - 1] in digits;
      NoHyphen(digits, e - 1);
    }
  }

  /** The decoder undoes basic code points, separator and integers. */
  lemma {:induction false} DecodeOf(basic: seq<nat>, digits: seq<nat>, final: State)
    requires Digits(digits) && Run(digits, State(128, 0, 72, basic)) == Some(final)
    ensures Decode(Separated(basic) + digits) == Some(final.output)
  {
    if |basic| > 0 {
      var input := basic + [HYPHEN] + digits;
      LastHyphen(basic, digits, |digits|);
      assert input[|basic| + 1..] == digits && input[..|basic|] == basic;
    } else {
      NoHyphen(digits, |digits|);
      assert [] + digits == digits && digits[0..] == digits;
      assert basic == [];
    }
  }

  // ----- What has been encoded -----

  /** Handled once every code point below `n`, and those equal to `n` before position `p`, are. */
  predicate Handled(s: seq<nat>, n: nat, p: nat, j: nat)
    requires j < |s|
  {
    s[j] < n || (s[j] == n && j < p)
  }

  /** The handled code points among the first `e`, in order. */
  function Kept(s: seq<nat>, n: nat, p: nat, e: nat): (r: seq<nat>)
    requires e <= |s|
    ensures |r| <= e
  {
    if e == 0 then []
    else Kept(s, n, p, e - 1) + if Handled(s, n, p, e - 1) then [s[e - 1]] else []
  }

  lemma {:induction false} KeptSame(s: seq<nat>, n: nat, p: nat, n': nat, p': nat, e: nat)
    requires e <= |s| && forall j :: 0 <= j < e ==> Handled(s, n, p, j) == Handled(s, n', p', j)
    ensures Kept(s, n, p, e) == Kept(s, n', p', e)
  {
    if e > 0 {
      KeptSame(s, n, p, n', p', e - 1);
    }
  }

  /** Handling the code point at `p` inserts it after the handled ones before it. */
  lemma {:induction false} KeptInsert(s: seq<nat>, n: nat, p: nat, e: nat)
    requires p < e <= |s| && s[p] == n
    ensures var at := |Kept(s, n, p, p)|;
      && at <= |Kept(s, n, p, e)|
      && Kept(s, n, p + 1, e) == Kept(s, n, p, e)[..at] + [n] + Kept(s, n, p, e)[at..]
    ensures |Kept(s, n, p + 1, p + 1)| == |Kept(s, n, p, p)| + 1
  {
    KeptSame(s, n, p, n, p + 1, p);
    if e == p + 1 {
      assert Kept(s, n, p, e) == Kept(s, n, p, p);
    } else {
      KeptInsert(s, n, p, e - 1);
      var at := |Kept(s, n, p, p)|;
      var a, b := Kept(s, n, p, e - 1), Kept(s, n, p, e);
      assert a[..at] == b[..at];
      assert Handled(s, n, p, e - 1) == Handled(s, n, p + 1, e - 1);
      assert if Handled(s, n, p, e - 1) then b[at..] == a[at..] + [s[e - 1]] else b[at..] == a[at..];
    }
  }

  lemma {:induction false} KeptWhole(s: seq<nat>, n: nat, p: nat, e: nat)
    requires e <= |s|
    ensures |Kept(s, n, p, e)| == e ==> Kept(s, n, p, e) == s[..e]
    ensures |Kept(s, n, p, e)| < e <==> exists j :: 0 <= j < e && !Handled(s, n, p, j)
  {
    if e > 0 {
      KeptWhole(s, n, p, e - 1);
      assert s[..e] == s[..e - 1] + [s[e - 1]];
    }
  }

  lemma {:induction false} KeptAscii(s: seq<nat>, p: nat, e: nat)
    requires e <= |s|
    ensures forall c :: c in Kept(s, 128, 0, e) ==> c < 128
  {
    if e > 0 {
      KeptAscii(s, p, e - 1);
    }
  }

  /** The same number of handled code points means the same ones. */
  lemma {:induction false} KeptPrefix(s: seq<nat>, n: nat, p: nat, e: nat, e': nat)
    requires e <= e' <= |s|
    ensures Kept(s, n, p, e) <= Kept(s, n, p, e')
    decreases e'
  {
    if e < e' {
      KeptPrefix(s, n, p, e, e' - 1);
    }
  }

  // ----- The encoder and the decoder in step -----

  /** The decoder, run on the digits so far, is `delta` insertions-to-be away from where the
      encoder stands: at value `n` and position `p`. */
  ghost predicate InStep(s: seq<nat>, n: nat, p: nat, delta: nat, basic: seq<nat>, digits: seq<nat>, st: State)
    requires p <= |s|
  {
    && Run(digits, State(128, 0, 72, basic)) == Some(st) && Digits(digits)
    && st.n <= n && st.output == Kept(s, n, p, |s|)
    && st.i + delta == Times(n - st.n, |st.output| + 1) + |Kept(s, n, p, p)|
  }

  /** Moving on to the next value present, with nothing to handle in between. */
  lemma {:induction false} StepValue(s: seq<nat>, n: nat, m: nat, delta: nat, basic: seq<nat>, digits: seq<nat>, st: State)
    requires InStep(s, n, 0, delta, basic, digits, st) && n <= m
    requires forall c :: c in s && n <= c ==> m <= c
    ensures InStep(s, m, 0, delta + Times(m - n, |st.output| + 1), basic, digits, st)
  {
    forall j | 0 <= j < |s| ensures Handled(s, n, 0, j) == Handled(s, m, 0, j) {
      assert s[j] in s;
    }
    KeptSame(s, n, 0, m, 0, |s|);
    Distribute(n - st.n, m - n, |st.output| + 1);
  }

  lemma {:induction false} StepOver(s: seq<nat>, n: nat, p: nat, delta: nat, basic: seq<nat>, digits: seq<nat>, st: State)
    requires p < |s| && InStep(s, n, p, delta, basic, digits, st) && s[p] != n
    ensures InStep(s, n, p + 1, if s[p] < n then delta + 1 else delta, basic, digits, st)
  {
    KeptSame(s, n, p, n, p + 1, |s|);
    KeptSame(s, n, p, n, p + 1, p);
  }

  /** The decoder inserts the code point at `p` where the encoder found it. */
  lemma {:induction false} InsertsNext(s: seq<nat>, n: nat, p: nat, delta: nat, basic: seq<nat>, digits: seq<nat>, st: State)
    requires p < |s| && InStep(s, n, p, delta, basic, digits, st) && s[p] == n
    ensures var st', at := Insert(st, delta), |Kept(s, n, p, p)|;
      && st'.n == n && st'.i == at + 1 && st'.output == Kept(s, n, p + 1, |s|) && |st'.output| == |st.output| + 1
      && st'.bias == Adapt(delta, |st.output| + 1, st.i == 0) && |Kept(s, n, p + 1, p + 1)| == at + 1
  {
    hide Insert, Quotient, Remainder, Run, Digits, Adapt, Times;
    KeptInsert(s, n, p, |s|);
    var at, y := |Kept(s, n, p, p)|, |st.output| + 1;
    DivModOf(n - st.n, y, at);
    InsertedAt(st, delta, n, at);
  }

  lemma {:induction false} InsertedAt(st: State, delta: nat, n: nat, at: nat)
    requires st.n <= n && at <= |st.output|
    requires Quotient(st.i + delta, |st.output| + 1) == n - st.n && Remainder(st.i + delta, |st.output| + 1) == at
    ensures Insert(st, delta) ==
            State(n, at + 1, Adapt(delta, |st.output| + 1, st.i == 0), st.output[..at] + [n] + st.output[at..])
  {
    hide Quotient, Remainder, Adapt;
  }

  lemma {:induction false} InStepAt(s: seq<nat>, n: nat, p: nat, basic: seq<nat>, digits: seq<nat>, st: State)
    requires p <= |s| && Run(digits, State(128, 0, 72, basic)) == Some(st) && Digits(digits)
    requires st.n == n && st.output == Kept(s, n, p, |s|) && st.i == |Kept(s, n, p, p)|
    ensures InStep(s, n, p, 0, basic, digits, st)
  {
  }

  /** Encoding `delta` keeps encoder and decoder in step. */
  lemma {:induction false} StepInsert(s: seq<nat>, n: nat, p: nat, delta: nat, basic: seq<nat>, digits: seq<nat>, st: State)
    requires p < |s| && InStep(s, n, p, delta, basic, digits, st) && s[p] == n
    ensures var st' := Insert(st, delta);
      && InStep(s, n, p + 1, 0, basic, digits + EncodeInt(delta, st.bias, 36), st')
      && st'.n == n && st'.i > 0 && |st'.output| == |st.output| + 1
      && st'.bias == Adapt(delta, |st.output| + 1, st.i == 0)
  {
    InsertsNext(s, n, p, delta, basic, digits, st);
    RunAppend(digits, State(128, 0, 72, basic), st, delta);
    EncodeIntDigits(delta, st.bias, 36);
    InStepAt(s, n, p + 1, basic, digits + EncodeInt(delta, st.bias, 36), Insert(st, delta));
  }

  /** At the end of a round the encoder moves to the next value. */
  lemma {:induction false} StepRound(s: seq<nat>, n: nat, delta: nat, basic: seq<nat>, digits: seq<nat>, st: State)
    requires InStep(s, n, |s|, delta, basic, digits, st)
    ensures InStep(s, n + 1, 0, delta + 1, basic, digits, st)
  {
    KeptSame(s, n, |s|, n + 1, 0, |s|);
    Distribute(n - st.n, 1, |st.output| + 1);
  }

  // ----- The encoder -----

  const MAX_CODE_POINT: nat := 0x10FFFF

  /** The digits of one integer. */
  method EmitInt(delta: nat, bias: nat) returns (digits: seq<nat>)
    ensures digits == EncodeInt(delta, bias, 36)
  {
    digits := [];
    var k: nat, q: nat := 36, delta;
    while true
      invariant digits + EncodeInt(q, bias, k) == EncodeInt(delta, bias, 36)
      decreases q
    {
      var t := Threshold(k, bias);
      if q < t {
        break;
      }
      var x, y := q - t, 36 - t;
      var d := t + Remainder(x, y);
      assert d == t + Excess(q, t);
      digits := digits + [Character(d)];
      q := Quotient(x, y);
      k := k + 36;
    }
    digits := digits + [Character(q)];
  }

  /** The bias after an integer, with the handled code points counted in `points`. */
  method AdaptBias(delta0: nat, points: nat, first: bool) returns (bias: nat)
    requires points > 0
    ensures bias == Adapt(delta0, points, first) && IsBias(delta0, points, first, bias)
  {
    var delta: nat := delta0 / 2;
    if first {
      delta := delta / 350;
    }
    delta := delta + Quotient(delta, points);
    bias := 0;
    ghost var all := Damped(delta, 0);
    while delta > 455
      invariant Damped(delta, bias) == all
    {
      delta := delta / 35;
      bias := bias + 36;
    }
    bias := bias + 36 * delta / (delta + 38);
    AdaptIs(delta0, points, first);
  }

  /** The least code point at or above `n`. */
  method NextValue(s: seq<nat>, n: nat) returns (m: nat)
    requires exists c :: c in s && n <= c < UINT_MAX
    ensures m in s && n <= m < UINT_MAX && forall c :: c in s && n <= c ==> m <= c
  {
    m := UINT_MAX;
    for j := 0 to |s|
      invariant m <= UINT_MAX && (m < UINT_MAX ==> m in s && n <= m)
      invariant forall i :: 0 <= i < j && n <= s[i] ==> m <= s[i]
    {
      if s[j] >= n && s[j] < m {
        m := s[j];
      }
    }
  }

  /** All of the encoder's variables, against the decoder. */
  ghost predicate Encoding(s: seq<nat>, n: nat, p: nat, delta: nat, h: nat, todo: int, bias: nat, first: bool,
                           basic: seq<nat>, digits: seq<nat>, st: State)
    requires p <= |s|
  {
    && InStep(s, n, p, delta, basic, digits, st)
    && h == |st.output| && todo == |s| - h && bias == st.bias && first == (st.i == 0) && delta <= UINT_MAX
  }

  /** An overflow takes a label so long that its integers need not fit. */
  predicate Overlong(s: seq<nat>) {
    Times(|s| + 1, MAX_CODE_POINT + 1) > UINT_MAX
  }

  lemma {:induction false} OverflowIsOverlong(s: seq<nat>, n: nat, p: nat, delta: nat, basic: seq<nat>, digits: seq<nat>, st: State)
    requires p <= |s| && InStep(s, n, p, delta, basic, digits, st) && n <= MAX_CODE_POINT && delta >= UINT_MAX
    ensures Overlong(s)
  {
    var y := |st.output| + 1;
    KeptPrefix(s, n, p, p, |s|);
    Distribute(n - st.n, 1, y);
    Commute(n - st.n + 1, y);
    Bounded(y, n - st.n + 1, |s| + 1, MAX_CODE_POINT + 1);
  }

  /** The overflow test of a round, which divides instead of multiplying. */
  lemma {:induction false} OverflowTest(x: nat, y: nat, delta: nat)
    requires y > 0 && delta <= UINT_MAX
    ensures x > Quotient(UINT_MAX - delta, y) <==> delta + Times(x, y) > UINT_MAX
  {
    var room := UINT_MAX - delta;
    QuotientIs(room, y);
    var q := Quotient(room, y);
    if x > q {
      Bounded(q + 1, y, x, y);
    } else {
      Bounded(x, y, q, y);
    }
  }

  /** While something is to do, some code point at or above `n` is not handled. */
  lemma {:induction false} SomethingLeft(s: seq<nat>, n: nat)
    requires |Kept(s, n, 0, |s|)| < |s|
    ensures exists c :: c in s && n <= c
  {
    KeptWhole(s, n, 0, |s|);
    var j :| 0 <= j < |s| && !Handled(s, n, 0, j);
    assert s[j] in s;
  }

  /** One pass over the label for the code points equal to `n`. */
  method EncodeValue(s: seq<nat>, n: nat, delta0: nat, h0: nat, todo0: nat, bias0: nat, first0: bool,
                     ghost basic: seq<nat>, digits0: seq<nat>, ghost st0: State)
    returns (overflow: bool, delta: nat, h: nat, todo: nat, bias: nat, first: bool, digits: seq<nat>, ghost st: State)
    requires Encoding(s, n, 0, delta0, h0, todo0, bias0, first0, basic, digits0, st0)
    requires n in s && n <= MAX_CODE_POINT
    ensures overflow ==> Overlong(s)
    ensures !overflow ==> Encoding(s, n, |s|, delta, h, todo, bias, first, basic, digits, st) && st.n == n
  {
    overflow, delta, h, todo, bias, first, digits, st := false, delta0, h0, todo0, bias0, first0, digits0, st0;
    for p := 0 to |s|
      invariant Encoding(s, n, p, delta, h, todo, bias, first, basic, digits, st)
      invariant n in s[..p] ==> st.n == n
    {
      var c := s[p];
      assert s[..p + 1] == s[..p] + [c];
      if c < n {
        if delta == UINT_MAX {
          OverflowIsOverlong(s, n, p, delta, basic, digits, st);
          overflow := true;
          return;
        }
        StepOver(s, n, p, delta, basic, digits, st);
        delta := delta + 1;
        continue;
      }
      if c != n {
        StepOver(s, n, p, delta, basic, digits, st);
        continue;
      }
      var piece := EmitInt(delta, bias);
      StepInsert(s, n, p, delta, basic, digits, st);
      digits, st := digits + piece, Insert(st, delta);
      h := h + 1;
      bias := AdaptBias(delta, h, first);
      first := false;
      delta := 0;
      todo := todo - 1;
    }
    assert s[..|s|] == s;
  }

  lemma {:induction false} EncodingStarts(s: seq<nat>, basic: seq<nat>)
    requires |s| < UINT_MAX && basic == Kept(s, 128, 0, |s|)
    ensures Encoding(s, 128, 0, 0, |basic|, |s| - |basic|, 72, true, basic, [], State(128, 0, 72, basic))
  {
  }

  /** The rounds of the encoder: lower values first, and within a value by position. */
  method EncodeRest(s: seq<nat>, ghost basic: seq<nat>, h0: nat) returns (rc: int, digits: seq<nat>)
    requires forall c :: c in s ==> c <= MAX_CODE_POINT
    requires |s| < UINT_MAX && basic == Kept(s, 128, 0, |s|) && h0 == |basic|
    ensures rc == 0 || (rc == UV_E2BIG && Overlong(s))
    ensures rc == 0 ==> Decode(Separated(basic) + digits) == Some(s) && Digits(digits)
  {
    hide Decode, Run, Digits, Quotient, Times;
    digits := [];
    var n: nat, bias: nat, delta: nat, first, h: nat, todo: nat := 128, 72, 0, true, h0, |s| - h0;
    ghost var st := State(128, 0, 72, basic);
    EncodingStarts(s, basic);
    while todo > 0
      invariant Encoding(s, n, 0, delta, h, todo, bias, first, basic, digits, st)
      decreases MAX_CODE_POINT + 1 - n
    {
      SomethingLeft(s, n);
      var m := NextValue(s, n);
      var x, y := m - n, h + 1;
      OverflowTest(x, y, delta);
      StepValue(s, n, m, delta, basic, digits, st);
      assert InStep(s, m, 0, delta + Times(x, y), basic, digits, st);
      if x > Quotient(UINT_MAX - delta, y) {
        OverflowIsOverlong(s, m, 0, delta + Times(x, y), basic, digits, st);
        return UV_E2BIG, digits;
      }
      delta := delta + Times(x, y);
      n := m;
      var overflow;
      overflow, delta, h, todo, bias, first, digits, st := EncodeValue(s, n, delta, h, todo, bias, first, basic, digits, st);
      if overflow {
        return UV_E2BIG, [];
      }
      RoundFits(s, n, delta, h, todo, bias, first, basic, digits, st);
      StepRound(s, n, delta, basic, digits, st);
      delta := delta + 1;
      n := n + 1;
    }
    Finished(s, n, delta, h, bias, first, basic, digits, st);
    rc := 0;
  }

  /** After a round the count of skipped code points is small again. */
  lemma {:induction false} RoundFits(s: seq<nat>, n: nat, delta: nat, h: nat, todo: nat, bias: nat, first: bool,
                                     basic: seq<nat>, digits: seq<nat>, st: State)
    requires |s| < UINT_MAX && Encoding(s, n, |s|, delta, h, todo, bias, first, basic, digits, st) && st.n == n
    ensures delta < UINT_MAX
  {
  }

  lemma {:induction false} Finished(s: seq<nat>, n: nat, delta: nat, h: nat, bias: nat, first: bool,
                                    basic: seq<nat>, digits: seq<nat>, st: State)
    requires Encoding(s, n, 0, delta, h, 0, bias, first, basic, digits, st)
    ensures Decode(Separated(basic) + digits) == Some(s) && Digits(digits)
  {
    KeptWhole(s, n, 0, |s|);
    assert s[..|s|] == s;
    DecodeOf(basic, digits, st);
  }

  predicate AllAscii(s: seq<nat>) {
    forall c :: c in s ==> c < 128
  }

  lemma {:induction false} KeptAllAscii(s: seq<nat>)
    ensures AllAscii(s) <==> |Kept(s, 128, 0, |s|)| == |s|
    ensures AllAscii(s) ==> Kept(s, 128, 0, |s|) == s
  {
    KeptWhole(s, 128, 0, |s|);
    assert s[..|s|] == s;
    if AllAscii(s) {
      assert forall j :: 0 <= j < |s| ==> s[j] in s && Handled(s, 128, 0, j);
    } else {
      var c :| c in s && c >= 128;
      var j :| 0 <= j < |s| && s[j] == c;
      assert !Handled(s, 128, 0, j);
    }
  }

  /** Count the ASCII and the other code points, and find decoding errors. */
  method CountAscii(s: seq<nat>) returns (valid: bool, h: nat, todo: nat)
    ensures valid <==> UINT_MAX !in s
    ensures valid ==> h == |Kept(s, 128, 0, |s|)| && todo == |s| - h
  {
    h, todo := 0, 0;
    for j := 0 to |s|
      invariant h == |Kept(s, 128, 0, j)| && todo == j - h
      invariant UINT_MAX !in s[..j]
    {
      assert s[..j + 1] == s[..j] + [s[j]];
      if s[j] < 128 {
        h := h + 1;
      } else if s[j] == UINT_MAX {
        return false, h, todo;
      } else {
        todo := todo + 1;
      }
    }
    assert s[..|s|] == s;
    valid := true;
  }

  /** uv__idna_toascii_label for a destination that is large enough.  A decoding error of the
      label is the code point UINT_MAX. */
  method ToAsciiLabel(s: seq<nat>) returns (rc: int, out: seq<nat>)
    requires forall c :: c in s ==> c <= MAX_CODE_POINT || c == UINT_MAX
    requires |s| < UINT_MAX
    ensures rc == -22 <==> 0xffff_ffff in s
    ensures rc == -7 ==> Overlong(s)
    ensures rc == -22 || rc == -7 || rc == if AllAscii(s) then |s| else 0
    ensures rc >= 0 && AllAscii(s) ==> out == s
    ensures rc >= 0 && !AllAscii(s) ==> PREFIX <= out && Decode(out[|PREFIX|..]) == Some(s)
    // in ASCII, with lower-case letters and digits after the label's own ASCII characters
    ensures rc >= 0 && !AllAscii(s) ==> WrittenWith(Kept(s, 128, 0, |s|), out)
    ensures rc >= 0 ==> AllAscii(out)
  {
    hide Decode, Digits, Kept, WrittenWith;
    out := [];
    var valid, h, todo := CountAscii(s);
    if !valid {
      return UV_EINVAL, out;
    }
    KeptAllAscii(s);
    if todo > 0 {
      out := PREFIX;
    }
    var basic := CopyAscii(s, h);
    out := out + basic;
    if todo == 0 {
      return h, out;
    }
    if h > 0 {
      out := out + [HYPHEN];
    }
    var digits;
    rc, digits := EncodeRest(s, basic, h);
    out := out + digits;
    if rc == 0 {
      assert out[|PREFIX|..] == Separated(basic) + digits;
      assert out == PREFIX + Separated(basic) + digits;
      KeptAscii(s, 0, |s|);
      WrittenIsAscii(basic, digits, out);
    }
  }

  /** ASCII characters and a hyphen, if there are any. */
  function Separated(basic: seq<nat>): seq<nat> {
    if |basic| > 0 then basic + [HYPHEN] else []
  }

  ghost predicate WrittenWith(basic: seq<nat>, out: seq<nat>) {
    var front := PREFIX + Separated(basic);
    front <= out && Digits(out[|front|..])
  }

  lemma {:induction false} WrittenIsAscii(basic: seq<nat>, digits: seq<nat>, out: seq<nat>)
    requires AllAscii(basic) && Digits(digits) && out == PREFIX + Separated(basic) + digits
    ensures WrittenWith(basic, out) && AllAscii(out)
  {
    var front := PREFIX + Separated(basic);
    assert out[|front|..] == digits;
    assert forall c :: c in out ==> c in front || c in digits;
  }

  /** The ASCII characters of a label that has `h` of them. */
  method CopyAscii(s: seq<nat>, h: nat) returns (basic: seq<nat>)
    requires h == |Kept(s, 128, 0, |s|)|
    ensures basic == Kept(s, 128, 0, |s|)
  {
    basic := [];
    var x := 0;
    for j := 0 to |s|
      invariant basic == Kept(s, 128, 0, j) && x == |basic|
    {
      if s[j] > 127 {
        continue;
      }
      basic := basic + [s[j]];
      x := x + 1;
      if x == h {
        KeptPrefix(s, 128, 0, j + 1, |s|);
        break;
      }
    }
  }
}
