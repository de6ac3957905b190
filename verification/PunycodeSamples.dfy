/** Samples of Punycode, integer by integer. */
module PunycodeSamples {
  import opened Common
  import opened Punycode
  import opened PunycodeUniqueness

  lemma {:induction false} EncodeDigit(q: nat, bias: nat, k: nat, digit: nat, rest: nat)
    requires Threshold(k, bias) <= digit < 36 && q == digit + rest * (36 - Threshold(k, bias))
    ensures EncodeInt(q, bias, k) == [Character(digit)] + EncodeInt(rest, bias, k + 36)
  {
    hide Quotient, Remainder;
    var t := Threshold(k, bias);
    TimesIs(rest, 36 - t);
    DivModOf(rest, 36 - t, digit - t);
  }

  lemma {:induction false} LastDigit(digit: nat, bias: nat, k: nat)
    requires digit < Threshold(k, bias)
    ensures EncodeInt(digit, bias, k) == [Character(digit)]
  {
  }

  /** A bias after `k` divisions. */
  lemma {:induction false} AdaptTo(delta: nat, points: nat, first: bool, e: nat, k: nat, reduced: nat)
    requires points > 0
    requires var d := if first then delta / 700 else delta / 2; e == d + d / points
    requires if k == 0 then e == reduced else e > 455 && if k == 1 then reduced == e / 35 else k == 2 && e / 35 > 455 && reduced == e / 35 / 35
    requires reduced <= 455
    ensures Adapt(delta, points, first) == 36 * k + 36 * reduced / (reduced + 38)
  {
    hide Quotient;
    QuotientDivides(if first then delta / 700 else delta / 2, points);
    assert k > 0 ==> Damped(e, 0) == Damped(e / 35, 36);
    assert k > 1 ==> Damped(e / 35, 36) == Damped(e / 35 / 35, 72);
  }

  /** One more integer of a sample, with the state after it. */
  lemma {:induction false} Step(input: seq<nat>, text: seq<nat>, basic: seq<nat>, st: State, delta: nat, next: State)
    requires Run(input, State(128, 0, 72, basic)) == Some(st) && text == EncodeInt(delta, st.bias, 36)
    requires st.n <= next.n && 0 < next.i <= |st.output| + 1
    requires st.i + delta == (next.n - st.n) * (|st.output| + 1) + (next.i - 1)
    requires next.bias == Adapt(delta, |st.output| + 1, st.i == 0)
    requires next.output == st.output[..next.i - 1] + [next.n] + st.output[next.i - 1..]
    ensures Run(input + text, State(128, 0, 72, basic)) == Some(next)
  {
    hide Run, Insert, Quotient, Remainder, Adapt, EncodeInt;
    var points, n, at := |st.output| + 1, next.n, next.i - 1;
    RunAppend(input, State(128, 0, 72, basic), st, delta);
    TimesIs(n - st.n, points);
    DivModOf(n - st.n, points, at);
    InsertedAt(st, delta, n, at);
  }

  lemma {:induction false} Nothing(st: State)
    ensures Run([], st) == Some(st)
  {
  }

  /** The end of a sample. */
  lemma {:induction false} Sampled(basic: seq<nat>, digits: seq<nat>, final: State)
    requires Run(digits, State(128, 0, 72, basic)) == Some(final) && Digits(digits) && AllAscii(basic)
    ensures Encodes(Separated(basic) + digits, final.output)
  {
    hide Run, Decode;
    DecodeOf(basic, digits, final);
    if basic == [] {
      NoHyphen(digits, |digits|);
      assert Separated(basic) + digits == digits && digits[0..] == digits;
    } else {
      LastHyphen(basic, digits, |digits|);
      assert (basic + [HYPHEN] + digits)[|basic| + 1..] == digits;
    }
  }

  lemma {:induction false} TwoCharactersInt1()
    // fiq
    ensures EncodeInt(19885, 72, 36) == [102, 105, 113]
    ensures Adapt(19885, 1, true) == 21
  {
    hide EncodeInt, Adapt;
    EncodeDigit(19885, 72, 36, 5, 568);
    EncodeDigit(568, 72, 72, 8, 16);
    LastDigit(16, 72, 108);
    AdaptTo(19885, 1, true, 56, 0, 56);
  }

  lemma {:induction false} TwoCharactersInt2()
    // 228c
    ensures EncodeInt(11956, 21, 36) == [50, 50, 56, 99]
    ensures Adapt(11956, 2, false) == 67
  {
    hide EncodeInt, Adapt;
    EncodeDigit(11956, 21, 36, 28, 568);
    EncodeDigit(568, 21, 72, 28, 54);
    EncodeDigit(54, 21, 108, 34, 2);
    LastDigit(2, 21, 144);
    AdaptTo(11956, 2, false, 8967, 1, 256);
  }

  /** The decoder after 2 of its integers. */
  lemma {:induction false} TwoCharactersTo2()
    // fiq228c
    ensures Run([102, 105, 113, 50, 50, 56, 99], State(128, 0, 72, [])) == Some(State(0x6587, 2, 67, [0x4E2D, 0x6587]))
  {
    hide Run, Encodes, EncodeInt, Adapt, Digits, Separated;
    var basic: seq<nat> := [];
    var d0: seq<nat>, s0 := [], State(128, 0, 72, basic);
    Nothing(s0);
    var s1 := State(0x4e2d, 1, 21, [0x4E2D]);
    TwoCharactersInt1();
    Step(d0, [102, 105, 113], basic, s0, 19885, s1);  // fiq
    var d1 := d0 + [102, 105, 113];
    var s2 := State(0x6587, 2, 67, [0x4E2D, 0x6587]);
    TwoCharactersInt2();
    Step(d1, [50, 50, 56, 99], basic, s1, 11956, s2);  // 228c
    var d2 := d1 + [50, 50, 56, 99];
    assert d2 == [102, 105, 113, 50, 50, 56, 99];
  }

  lemma {:induction false} TwoCharactersDigits()
    ensures Digits([102, 105, 113, 50, 50, 56, 99])
    ensures Separated([]) + [102, 105, 113, 50, 50, 56, 99] == [102, 105, 113, 50, 50, 56, 99]
  {
  }

  /** Two Chinese characters. */
  lemma {:induction false} TwoCharacters()
    // fiq228c
    ensures Encodes([102, 105, 113, 50, 50, 56, 99], [0x4E2D, 0x6587])
  {
    hide Run, Encodes, EncodeInt, Adapt, Digits, Separated;
    var basic: seq<nat> := [];
    TwoCharactersTo2();
    var d2, s2 := [102, 105, 113, 50, 50, 56, 99], State(0x6587, 2, 67, [0x4E2D, 0x6587]);
    TwoCharactersDigits();
    Sampled(basic, d2, s2);
  }

  lemma {:induction false} SampleLInt1()
    // ww4c
    ensures EncodeInt(62042, 72, 36) == [119, 119, 52, 99]
    ensures Adapt(62042, 3, true) == 27
  {
    hide EncodeInt, Adapt;
    EncodeDigit(62042, 72, 36, 22, 1772);
    EncodeDigit(1772, 72, 72, 22, 50);
    EncodeDigit(50, 72, 108, 30, 2);
    LastDigit(2, 72, 144);
    AdaptTo(62042, 3, true, 117, 0, 117);
  }

  lemma {:induction false} SampleLInt2()
    // 5e
    ensures EncodeInt(139, 27, 36) == [53, 101]
    ensures Adapt(139, 4, false) == 24
  {
    hide EncodeInt, Adapt;
    EncodeDigit(139, 27, 36, 31, 4);
    LastDigit(4, 27, 72);
    AdaptTo(139, 4, false, 86, 0, 86);
  }

  lemma {:induction false} SampleLInt3()
    // 180e
    ensures EncodeInt(16683, 24, 36) == [49, 56, 48, 101]
    ensures Adapt(16683, 5, false) == 67
  {
    hide EncodeInt, Adapt;
    EncodeDigit(16683, 24, 36, 27, 694);
    EncodeDigit(694, 24, 72, 34, 66);
    EncodeDigit(66, 24, 108, 26, 4);
    LastDigit(4, 24, 144);
    AdaptTo(16683, 5, false, 10009, 1, 285);
  }

  lemma {:induction false} SampleLInt4()
    // 575a
    ensures EncodeInt(34821, 67, 36) == [53, 55, 53, 97]
    ensures Adapt(34821, 6, false) == 82
  {
    hide EncodeInt, Adapt;
    EncodeDigit(34821, 67, 36, 31, 994);
    EncodeDigit(994, 67, 72, 33, 31);
    EncodeDigit(31, 67, 108, 31, 0);
    LastDigit(0, 67, 144);
    AdaptTo(34821, 6, false, 20311, 2, 16);
  }

  lemma {:induction false} SampleLInt5()
    // 65l
    ensures EncodeInt(14592, 82, 36) == [54, 53, 108]
    ensures Adapt(14592, 7, false) == 67
  {
    hide EncodeInt, Adapt;
    EncodeDigit(14592, 82, 36, 32, 416);
    EncodeDigit(416, 82, 72, 31, 11);
    LastDigit(11, 82, 108);
    AdaptTo(14592, 7, false, 8338, 1, 238);
  }

  lemma {:induction false} SampleLInt6()
    // sy2b
    ensures EncodeInt(42088, 67, 36) == [115, 121, 50, 98]
    ensures Adapt(42088, 8, false) == 84
  {
    hide EncodeInt, Adapt;
    EncodeDigit(42088, 67, 36, 18, 1202);
    EncodeDigit(1202, 67, 72, 24, 38);
    EncodeDigit(38, 67, 108, 28, 1);
    LastDigit(1, 67, 144);
    AdaptTo(42088, 8, false, 23674, 2, 19);
  }

  /** The decoder after 3 of its integers. */
  lemma {:induction false} SampleLTo3()
    // ww4c5e180e
    ensures Run([119, 119, 52, 99, 53, 101, 49, 56, 48, 101], State(128, 0, 72, [51, 66])) == Some(State(0x5e74, 2, 67, [51, 0x5E74, 66, 0x516B, 0x5148]))
  {
    hide Run, Encodes, EncodeInt, Adapt, Digits, Separated;
    var basic: seq<nat> := [51, 66];
    var d0: seq<nat>, s0 := [], State(128, 0, 72, basic);
    Nothing(s0);
    var s1 := State(0x5148, 3, 27, [51, 66, 0x5148]);
    SampleLInt1();
    Step(d0, [119, 119, 52, 99], basic, s0, 62042, s1);  // ww4c
    var d1 := d0 + [119, 119, 52, 99];
    var s2 := State(0x516b, 3, 24, [51, 66, 0x516B, 0x5148]);
    SampleLInt2();
    Step(d1, [53, 101], basic, s1, 139, s2);  // 5e
    var d2 := d1 + [53, 101];
    var s3 := State(0x5e74, 2, 67, [51, 0x5E74, 66, 0x516B, 0x5148]);
    SampleLInt3();
    Step(d2, [49, 56, 48, 101], basic, s2, 16683, s3);  // 180e
    var d3 := d2 + [49, 56, 48, 101];
    assert d3 == [119, 119, 52, 99, 53, 101, 49, 56, 48, 101];
  }

  /** The decoder after 5 of its integers. */
  lemma {:induction false} SampleLTo5()
    // ww4c5e180e575a65l
    ensures Run([119, 119, 52, 99, 53, 101, 49, 56, 48, 101, 53, 55, 53, 97, 54, 53, 108], State(128, 0, 72, [51, 66])) == Some(State(0x7d44, 4, 67, [51, 0x5E74, 66, 0x7D44, 0x516B, 0x5148, 0x751F]))
  {
    hide Run, Encodes, EncodeInt, Adapt, Digits, Separated;
    var basic: seq<nat> := [51, 66];
    SampleLTo3();
    var d3, s3 := [119, 119, 52, 99, 53, 101, 49, 56, 48, 101], State(0x5e74, 2, 67, [51, 0x5E74, 66, 0x516B, 0x5148]);
    var s4 := State(0x751f, 6, 82, [51, 0x5E74, 66, 0x516B, 0x5148, 0x751F]);
    SampleLInt4();
    Step(d3, [53, 55, 53, 97], basic, s3, 34821, s4);  // 575a
    var d4 := d3 + [53, 55, 53, 97];
    var s5 := State(0x7d44, 4, 67, [51, 0x5E74, 66, 0x7D44, 0x516B, 0x5148, 0x751F]);
    SampleLInt5();
    Step(d4, [54, 53, 108], basic, s4, 14592, s5);  // 65l
    var d5 := d4 + [54, 53, 108];
    assert d5 == [119, 119, 52, 99, 53, 101, 49, 56, 48, 101, 53, 55, 53, 97, 54, 53, 108];
  }

  /** The decoder after 6 of its integers. */
  lemma {:induction false} SampleLTo6()
    // ww4c5e180e575a65lsy2b
    ensures Run([119, 119, 52, 99, 53, 101, 49, 56, 48, 101, 53, 55, 53, 97, 54, 53, 108, 115, 121, 50, 98], State(128, 0, 72, [51, 66])) == Some(State(0x91d1, 5, 84, [51, 0x5E74, 66, 0x7D44, 0x91D1, 0x516B, 0x5148, 0x751F]))
  {
    hide Run, Encodes, EncodeInt, Adapt, Digits, Separated;
    var basic: seq<nat> := [51, 66];
    SampleLTo5();
    var d5, s5 := [119, 119, 52, 99, 53, 101, 49, 56, 48, 101, 53, 55, 53, 97, 54, 53, 108], State(0x7d44, 4, 67, [51, 0x5E74, 66, 0x7D44, 0x516B, 0x5148, 0x751F]);
    var s6 := State(0x91d1, 5, 84, [51, 0x5E74, 66, 0x7D44, 0x91D1, 0x516B, 0x5148, 0x751F]);
    SampleLInt6();
    Step(d5, [115, 121, 50, 98], basic, s5, 42088, s6);  // sy2b
    var d6 := d5 + [115, 121, 50, 98];
    assert d6 == [119, 119, 52, 99, 53, 101, 49, 56, 48, 101, 53, 55, 53, 97, 54, 53, 108, 115, 121, 50, 98];
  }

  lemma {:induction false} SampleLDigits()
    ensures Digits([119, 119, 52, 99, 53, 101, 49, 56, 48, 101, 53, 55, 53, 97, 54, 53, 108, 115, 121, 50, 98])
    ensures Separated([51, 66]) + [119, 119, 52, 99, 53, 101, 49, 56, 48, 101, 53, 55, 53, 97, 54, 53, 108, 115, 121, 50, 98] == [51, 66, 45, 119, 119, 52, 99, 53, 101, 49, 56, 48, 101, 53, 55, 53, 97, 54, 53, 108, 115, 121, 50, 98]
  {
  }

  /** Sample (L) of section 7.1 of RFC 3492, with ASCII characters in between. */
  lemma {:induction false} SampleL()
    // 3B-ww4c5e180e575a65lsy2b
    ensures Encodes([51, 66, 45, 119, 119, 52, 99, 53, 101, 49, 56, 48, 101, 53, 55, 53, 97, 54, 53, 108, 115, 121, 50, 98], [51, 0x5E74, 66, 0x7D44, 0x91D1, 0x516B, 0x5148, 0x751F])
  {
    hide Run, Encodes, EncodeInt, Adapt, Digits, Separated;
    var basic: seq<nat> := [51, 66];
    SampleLTo6();
    var d6, s6 := [119, 119, 52, 99, 53, 101, 49, 56, 48, 101, 53, 55, 53, 97, 54, 53, 108, 115, 121, 50, 98], State(0x91d1, 5, 84, [51, 0x5E74, 66, 0x7D44, 0x91D1, 0x516B, 0x5148, 0x751F]);
    SampleLDigits();
    Sampled(basic, d6, s6);
  }

  /** The encoder on the samples: xn--fiq228c and xn--3B-ww4c5e180e575a65lsy2b. */
  method Samples() returns (two: seq<nat>, l: seq<nat>)
    ensures two == [120, 110, 45, 45] + [102, 105, 113, 50, 50, 56, 99]
    ensures l == [120, 110, 45, 45] + [51, 66, 45, 119, 119, 52, 99, 53, 101, 49, 56, 48, 101, 53, 55, 53, 97, 54, 53, 108, 115, 121, 50, 98]
  {
    hide Encodes;
    TwoCharacters();
    var s := [0x4E2D, 0x6587];
    assert s[0] in s;
    two := EncodeAs(s, [102, 105, 113, 50, 50, 56, 99]);
    SampleL();
    s := [51, 0x5E74, 66, 0x7D44, 0x91D1, 0x516B, 0x5148, 0x751F];
    assert s[1] in s;
    l := EncodeAs(s, [51, 66, 45, 119, 119, 52, 99, 53, 101, 49, 56, 48, 101, 53, 55, 53, 97, 54, 53, 108, 115, 121, 50, 98]);
  }
}
