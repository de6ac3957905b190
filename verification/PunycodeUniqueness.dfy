/** A label has only one encoding, so the encoder's output is known from the decoder alone. */
module PunycodeUniqueness {
  import opened Common
  import opened Punycode

  /** A label without its prefix that stands for `s`, in ASCII and with lower-case digits. */
  ghost predicate Encodes(text: seq<nat>, s: seq<nat>) {
    Decode(text) == Some(s) && AllAscii(text) && Digits(text[AfterLastHyphen(text, |text|)..])
  }

  // ----- Integers -----

  /** What was read as an integer is what the integer is written as. */
  lemma {:induction false} OneInt(input: seq<nat>, bias: nat, k: nat, w: nat, acc: nat) returns (q: nat)
    requires Digits(input) && DecodeInt(input, bias, k, w, acc).Some?
    ensures var r := DecodeInt(input, bias, k, w, acc).value; input == EncodeInt(q, bias, k) + r.1 && r.0 == acc + Times(q, w)
    decreases |input|
  {
    hide Quotient, Remainder, Times;
    var t, digit := Threshold(k, bias), DigitOf(input[0]).value;
    assert input[0] in input && input[0] == Character(digit) && input == [input[0]] + input[1..];
    if digit < t {
      q := digit;
    } else {
      assert forall c :: c in input[1..] ==> c in input;
      var more := OneInt(input[1..], bias, k + 36, Times(w, 36 - t), acc + Times(digit, w));
      q := digit + Times(more, 36 - t);
      DivModOf(more, 36 - t, digit - t);
      Distribute(digit, Times(more, 36 - t), w);
      Reorder(more, 36 - t, w);
      assert EncodeInt(q, bias, k) == [Character(digit)] + EncodeInt(more, bias, k + 36);
    }
  }

  // ----- Runs of the decoder -----

  /** The decoder's state after some integers. */
  ghost function After(deltas: seq<nat>, st: State): State {
    if deltas == [] then st else Insert(After(deltas[..|deltas| - 1], st), deltas[|deltas| - 1])
  }

  /** The integers, written. */
  ghost function Written(deltas: seq<nat>, st: State): seq<nat> {
    if deltas == [] then []
    else
      var earlier := deltas[..|deltas| - 1];
      Written(earlier, st) + EncodeInt(deltas[|deltas| - 1], After(earlier, st).bias, 36)
  }

  lemma {:induction false} FirstDelta(x: nat, deltas: seq<nat>, st: State)
    ensures After([x] + deltas, st) == After(deltas, Insert(st, x))
    ensures Written([x] + deltas, st) == EncodeInt(x, st.bias, 36) + Written(deltas, Insert(st, x))
  {
    hide Insert, EncodeInt;
    var all := [x] + deltas;
    if deltas == [] {
      assert all[..0] == [] && all == [x];
    } else {
      assert all[..|all| - 1] == [x] + deltas[..|deltas| - 1];
      FirstDelta(x, deltas[..|deltas| - 1], st);
    }
  }

  /** What was read is what some integers are written as. */
  lemma {:induction false} RunIsDeltas(input: seq<nat>, st: State) returns (deltas: seq<nat>)
    requires Digits(input) && Run(input, st).Some?
    ensures After(deltas, st) == Run(input, st).value && Written(deltas, st) == input
    decreases |input|
  {
    hide Insert, EncodeInt, DecodeInt;
    if |input| == 0 {
      deltas := [];
    } else {
      DecodeIntShortens(input, st.bias, 36, 1, 0);
      var r := DecodeInt(input, st.bias, 36, 1, 0).value;
      var q := OneInt(input, st.bias, 36, 1, 0);
      TimesIs(q, 1);
      assert forall c :: c in r.1 ==> c in input;
      var others := RunIsDeltas(r.1, Insert(st, q));
      FirstDelta(q, others, st);
      deltas := [q] + others;
    }
  }

  // ----- The last insertion -----

  /** The last code point inserted is the last of the greatest ones. */
  ghost predicate Settled(st: State) {
    && st.i <= |st.output| && (forall j :: 0 <= j < |st.output| ==> st.output[j] <= st.n)
    && (forall j :: st.i <= j < |st.output| ==> st.output[j] < st.n)
  }

  lemma {:induction false} WhereInserted(st: State, delta: nat)
    requires st.i <= |st.output|
    ensures var next := Insert(st, delta);
            && 0 < next.i <= |st.output| + 1 && st.n <= next.n && (next.n == st.n ==> st.i < next.i)
            && next.output == st.output[..next.i - 1] + [next.n] + st.output[next.i - 1..]
  {
    hide Adapt;
    QuotientIs(st.i + delta, |st.output| + 1);
    assert Quotient(st.i + delta, |st.output| + 1) == 0 ==> Times(0, |st.output| + 1) == 0;
  }

  /** A code point among others that are no greater, and less from there on. */
  lemma {:induction false} GreatestAmong(s: seq<nat>, n: nat, at: nat)
    requires at <= |s| && (forall j :: 0 <= j < |s| ==> s[j] <= n) && (forall j :: at <= j < |s| ==> s[j] < n)
    ensures var out := s[..at] + [n] + s[at..];
            && (forall j :: 0 <= j < |out| ==> out[j] <= n) && (forall j :: at < j < |out| ==> out[j] < n)
            && out[..at] + out[at + 1..] == s
  {
  }

  lemma {:induction false} SettledNext(st: State, delta: nat)
    requires Settled(st)
    ensures var next := Insert(st, delta);
            && Settled(next) && st.n <= next.n && 0 < next.i && next.output[next.i - 1] == next.n
            && next.output[..next.i - 1] + next.output[next.i..] == st.output && |next.output| == |st.output| + 1
  {
    hide Insert;
    WhereInserted(st, delta);
    GreatestAmong(st.output, Insert(st, delta).n, Insert(st, delta).i - 1);
  }

  lemma {:induction false} AllSettled(deltas: seq<nat>, st: State)
    requires Settled(st)
    ensures Settled(After(deltas, st)) && st.n <= After(deltas, st).n && |After(deltas, st).output| == |st.output| + |deltas|
  {
    hide Insert, Settled;
    if deltas != [] {
      AllSettled(deltas[..|deltas| - 1], st);
      SettledNext(After(deltas[..|deltas| - 1], st), deltas[|deltas| - 1]);
    }
  }

  /** The same result of two insertions: they inserted the same, into the same. */
  lemma {:induction false} SameInsertion(x: State, d: nat, y: State, e: nat)
    requires Settled(x) && Settled(y) && Insert(x, d).output == Insert(y, e).output
    ensures Insert(x, d).n == Insert(y, e).n && Insert(x, d).i == Insert(y, e).i && x.output == y.output
  {
    hide Insert;
    SettledNext(x, d);
    SettledNext(y, e);
    var a, b := Insert(x, d), Insert(y, e);
    assert a.output[a.i - 1] in b.output && b.output[b.i - 1] in a.output;
  }

  lemma {:induction false} SameDelta(x: State, d: nat, e: nat)
    requires Insert(x, d).n == Insert(x, e).n && Insert(x, d).i == Insert(x, e).i
    ensures d == e
  {
    hide Adapt;
    var points := |x.output| + 1;
    QuotientIs(x.i + d, points);
    QuotientIs(x.i + e, points);
  }

  lemma {:induction false} SameDeltas(a: seq<nat>, b: seq<nat>, st: State)
    requires Settled(st) && |a| == |b| && After(a, st).output == After(b, st).output
    ensures a == b
  {
    hide Insert, Settled;
    if a != [] {
      var a', b' := a[..|a| - 1], b[..|b| - 1];
      AllSettled(a', st);
      AllSettled(b', st);
      SameInsertion(After(a', st), a[|a| - 1], After(b', st), b[|b| - 1]);
      SameDeltas(a', b', st);
      SameDelta(After(a', st), a[|a| - 1], b[|b| - 1]);
      assert a == a' + [a[|a| - 1]] && b == b' + [b[|b| - 1]];
    }
  }

  // ----- The ASCII characters -----

  lemma {:induction false} KeptConcat(a: seq<nat>, b: seq<nat>)
    ensures Kept(a + b, 128, 0, |a + b|) == Kept(a, 128, 0, |a|) + Kept(b, 128, 0, |b|)
  {
    if b == [] {
      assert a + b == a;
    } else {
      var b', c := b[..|b| - 1], b[|b| - 1];
      KeptConcat(a, b');
      assert a + b == (a + b') + [c] && b == b' + [c];
      KeptSnoc(a + b', c);
      KeptSnoc(b', c);
    }
  }

  lemma {:induction false} KeptSnoc(s: seq<nat>, c: nat)
    ensures Kept(s + [c], 128, 0, |s| + 1) == Kept(s, 128, 0, |s|) + if c < 128 then [c] else []
  {
    KeptFront(s, c, |s|);
  }

  lemma {:induction false} KeptFront(s: seq<nat>, c: nat, e: nat)
    requires e <= |s|
    ensures Kept(s + [c], 128, 0, e) == Kept(s, 128, 0, e)
  {
    if e > 0 {
      KeptFront(s, c, e - 1);
    }
  }

  /** No insertion changes which ASCII characters there are. */
  lemma {:induction false} InsertKeepsAscii(st: State, delta: nat)
    requires st.n >= 128
    ensures var out := Insert(st, delta).output; Kept(out, 128, 0, |out|) == Kept(st.output, 128, 0, |st.output|)
  {
    hide Adapt, Kept;
    var at, n := Remainder(st.i + delta, |st.output| + 1), Insert(st, delta).n;
    var front, back := st.output[..at], st.output[at..];
    assert front + back == st.output && Insert(st, delta).output == (front + [n]) + back;
    KeptConcat(front, back);
    KeptConcat(front + [n], back);
    KeptSnoc(front, n);
  }

  lemma {:induction false} AsciiKept(deltas: seq<nat>, st: State)
    requires Settled(st) && st.n >= 128
    ensures var out := After(deltas, st).output; Kept(out, 128, 0, |out|) == Kept(st.output, 128, 0, |st.output|)
  {
    hide Insert, Kept, Settled;
    if deltas != [] {
      var earlier := deltas[..|deltas| - 1];
      AllSettled(earlier, st);
      AsciiKept(earlier, st);
      InsertKeepsAscii(After(earlier, st), deltas[|deltas| - 1]);
    }
  }

  // ----- Labels -----

  lemma {:induction false} HyphenAt(input: seq<nat>, e: nat)
    requires e <= |input|
    ensures var b := AfterLastHyphen(input, e); b > 0 ==> input[b - 1] == HYPHEN
  {
    if e > 0 {
      HyphenAt(input, e - 1);
    }
  }

  /** The parts of a label: the ASCII characters of what it stands for, and integers. */
  lemma {:induction false} Parts(text: seq<nat>, s: seq<nat>) returns (deltas: seq<nat>)
    requires Encodes(text, s)
    ensures var basic := Kept(s, 128, 0, |s|);
            var st := State(128, 0, 72, basic);
            && Settled(st) && After(deltas, st).output == s && |deltas| == |s| - |basic|
            && text == Separated(basic) + Written(deltas, st)
  {
    hide Run, Kept, Insert, EncodeInt, Digits;
    var b := AfterLastHyphen(text, |text|);
    HyphenAt(text, |text|);
    if b == 1 {
      NotAnInt(text);
    }
    var basic, digits := if b == 0 then [] else text[..b - 1], text[b..];
    assert text == Separated(basic) + digits;
    assert forall c :: c in basic ==> c in text;
    var st := State(128, 0, 72, basic);
    deltas := RunIsDeltas(digits, st);
    forall j | 0 <= j < |basic| ensures basic[j] < 128 {
      assert basic[j] in basic;
    }
    AllSettled(deltas, st);
    AsciiKept(deltas, st);
    KeptAllAscii(basic);
  }

  lemma {:induction false} NotAnInt(text: seq<nat>)
    requires |text| > 0 && text[0] == HYPHEN
    ensures forall st :: Run(text, st) == None
  {
    assert forall bias :: DecodeInt(text, bias, 36, 1, 0) == None;
  }

  /** No label has two encodings. */
  lemma {:induction false} OnlyEncoding(a: seq<nat>, b: seq<nat>, s: seq<nat>)
    requires Encodes(a, s) && Encodes(b, s)
    ensures a == b
  {
    hide Encodes, Kept, Insert, Written, After, Settled;
    var d := Parts(a, s);
    var e := Parts(b, s);
    SameDeltas(d, e, State(128, 0, 72, Kept(s, 128, 0, |s|)));
  }

  /** What the encoder promises makes its output an encoding. */
  lemma {:induction false} OutputEncodes(s: seq<nat>, out: seq<nat>)
    requires PREFIX <= out && Decode(out[|PREFIX|..]) == Some(s) && WrittenWith(Kept(s, 128, 0, |s|), out) && AllAscii(out)
    ensures Encodes(out[|PREFIX|..], s)
  {
    hide Decode, Kept;
    var basic, text := Kept(s, 128, 0, |s|), out[|PREFIX|..];
    var digits := out[|PREFIX + Separated(basic)|..];
    assert text == Separated(basic) + digits;
    assert forall c :: c in text ==> c in out;
    if basic == [] {
      NoHyphen(digits, |digits|);
      assert text == digits && text[0..] == digits;
    } else {
      LastHyphen(basic, digits, |digits|);
      assert text[|basic| + 1..] == digits;
    }
  }

  /** The encoder's output for a label of which an encoding is known. */
  method EncodeAs(s: seq<nat>, text: seq<nat>) returns (out: seq<nat>)
    requires Encodes(text, s) && !AllAscii(s) && |s| < 3000 && forall c :: c in s ==> c <= MAX_CODE_POINT
    ensures out == PREFIX + text
  {
    hide Encodes, WrittenWith, Decode, Kept;
    TimesIs(|s| + 1, MAX_CODE_POINT + 1);
    var rc;
    rc, out := ToAsciiLabel(s);
    OutputEncodes(s, out);
    OnlyEncoding(out[|PREFIX|..], text, s);
  }
}
