/** Choosing the inputs of a compaction. */
module Selection {
  import opened Common
  import opened InternalKey
  import opened Versions
  import opened Compaction
  import opened Lsm

  /** A user-key range; None is unbounded on that side. */
  datatype KeyRange = KeyRange(begin: Option<UserKey>, end: Option<UserKey>) {
    predicate Meets(f: File) {
      && !(begin.Some? && f.largest.key < begin.value)
      && !(end.Some? && end.value < f.smallest.key)
    }

    predicate Encloses(f: File) {
      && (begin.Some? ==> begin.value <= f.smallest.key)
      && (end.Some? ==> f.largest.key <= end.value)
    }

    /** Every file the range meets lies inside it. */
    ghost predicate Closed(files: seq<File>) {
      forall f :: f in files && Meets(f) ==> Encloses(f)
    }

    predicate Extends(r: KeyRange) {
      && (begin.Some? ==> r.begin.Some? && begin.value <= r.begin.value)
      && (end.Some? ==> r.end.Some? && r.end.value <= end.value)
    }
  }

  /** `inputs` are exactly the files that meet the range. */
  ghost predicate Collected(files: seq<File>, r: KeyRange, inputs: seq<File>) {
    forall f :: f in inputs <==> f in files && r.Meets(f)
  }

  /** The files among the first `n` that meet the range, in order. */
  ghost function Filter(files: seq<File>, n: nat, r: KeyRange): seq<File>
    requires n <= |files|
  {
    if n == 0 then []
    else Filter(files, n - 1, r) + if r.Meets(files[n - 1]) then [files[n - 1]] else []
  }

  ghost function StartBelow(files: seq<File>, begin: Option<UserKey>): set<nat> {
    set i: nat | i < |files| && begin.Some? && files[i].smallest.key < begin.value
  }

  ghost function EndAbove(files: seq<File>, end: Option<UserKey>): set<nat> {
    set i: nat | i < |files| && end.Some? && files[i].largest.key > end.value
  }

  lemma {:induction false} FewerBelow(files: seq<File>, begin: Option<UserKey>, i: nat)
    requires i < |files| && begin.Some? && files[i].smallest.key < begin.value
    ensures |StartBelow(files, Some(files[i].smallest.key))| < |StartBelow(files, begin)|
  {
    var fewer := StartBelow(files, Some(files[i].smallest.key));
    assert fewer <= StartBelow(files, begin) - {i};
    SubsetSize(fewer, StartBelow(files, begin) - {i});
  }

  lemma {:induction false} FewerAbove(files: seq<File>, end: Option<UserKey>, i: nat)
    requires i < |files| && end.Some? && files[i].largest.key > end.value
    ensures |EndAbove(files, Some(files[i].largest.key))| < |EndAbove(files, end)|
  {
    var fewer := EndAbove(files, Some(files[i].largest.key));
    assert fewer <= EndAbove(files, end) - {i};
    SubsetSize(fewer, EndAbove(files, end) - {i});
  }

  lemma {:induction false} CollectedStep(files: seq<File>, i: nat, r: KeyRange, inputs: seq<File>)
    requires i < |files| && Collected(files[..i], r, inputs)
    ensures Collected(files[..i + 1], r, if r.Meets(files[i]) then inputs + [files[i]] else inputs)
  {
    assert files[..i + 1] == files[..i] + [files[i]];
  }

  lemma {:induction false} ClosedStep(files: seq<File>, i: nat, r: KeyRange)
    requires i < |files| && r.Closed(files[..i]) && (r.Meets(files[i]) ==> r.Encloses(files[i]))
    ensures r.Closed(files[..i + 1])
  {
    assert files[..i + 1] == files[..i] + [files[i]];
  }

  /** Every closed extension of the range also extends `r`. */
  ghost predicate Necessary(files: seq<File>, range: KeyRange, r: KeyRange) {
    forall c: KeyRange :: c.Closed(files) && c.Extends(range) ==> c.Extends(r)
  }

  /** Growing the range to take in a file that it meets is necessary. */
  lemma {:induction false} NecessaryGrowth(files: seq<File>, range: KeyRange, r: KeyRange, f: File)
    requires f in files && r.Meets(f) && Necessary(files, range, r)
    ensures r.begin.Some? ==> Necessary(files, range, r.(begin := Some(f.smallest.key)))
    ensures r.end.Some? ==> Necessary(files, range, r.(end := Some(f.largest.key)))
  {
    forall c: KeyRange | c.Closed(files) && c.Extends(range) ensures c.Extends(r) && c.Encloses(f) {
      assert c.Extends(r);
      assert c.Meets(f);
    }
  }

  /** The range grown to a file that it meets, on one side. */
  method Widen(files: seq<File>, range: KeyRange, user: KeyRange, i: nat) returns (wider: KeyRange)
    requires i < |files| && user.Meets(files[i]) && user.Extends(range) && Necessary(files, range, user)
    ensures wider.Extends(range) && Necessary(files, range, wider)
    ensures wider == user <==> user.Encloses(files[i])
    ensures wider != user ==>
      |StartBelow(files, wider.begin)| + |EndAbove(files, wider.end)| < |StartBelow(files, user.begin)| + |EndAbove(files, user.end)|
  {
    var f := files[i];
    NecessaryGrowth(files, range, user, f);
    if user.begin.Some? && f.smallest.key < user.begin.value {
      FewerBelow(files, user.begin, i);
      return user.(begin := Some(f.smallest.key));
    } else if user.end.Some? && f.largest.key > user.end.value {
      FewerAbove(files, user.end, i);
      return user.(end := Some(f.largest.key));
    }
    return user;
  }

  /** What is known of the first `i` files. */
  ghost predicate Scanned(files: seq<File>, i: nat, level: nat, range: KeyRange, user: KeyRange, inputs: seq<File>) {
    && i <= |files| && user.Extends(range)
    && Collected(files[..i], user, inputs)
    && (level > 0 ==> user == range && inputs == Filter(files, i, range))
    && (level == 0 ==> user.Closed(files[..i]) && Necessary(files, range, user))
  }

  lemma {:induction false} ScanStart(files: seq<File>, level: nat, range: KeyRange, user: KeyRange)
    requires user.Extends(range) && Necessary(files, range, user) && (level > 0 ==> user == range)
    ensures Scanned(files, 0, level, range, user, [])
  {
  }

  lemma {:induction false} ScanNext(files: seq<File>, i: nat, level: nat, range: KeyRange, user: KeyRange, inputs: seq<File>)
    requires Scanned(files, i, level, range, user, inputs) && i < |files|
    requires level == 0 && user.Meets(files[i]) ==> user.Encloses(files[i])
    ensures Scanned(files, i + 1, level, range, user, if user.Meets(files[i]) then inputs + [files[i]] else inputs)
  {
    CollectedStep(files, i, user, inputs);
    if level == 0 {
      ClosedStep(files, i, user);
    }
  }

  lemma {:induction false} ScanEnd(files: seq<File>, level: nat, range: KeyRange, user: KeyRange, inputs: seq<File>)
    requires Scanned(files, |files|, level, range, user, inputs)
    ensures Collected(files, user, inputs) && user.Extends(range)
    ensures level > 0 ==> user == range && inputs == Filter(files, |files|, range)
    ensures level == 0 ==> user.Closed(files) && Necessary(files, range, user)
  {
    assert files[..|files|] == files;
  }

  /** Past level 0 the files that meet the range; at level 0 the least closed extension of
      the range and the files that meet it. */
  method GetOverlappingInputs(files: seq<File>, level: nat, range: KeyRange)
    returns (inputs: seq<File>, ghost r: KeyRange)
    ensures Collected(files, r, inputs) && r.Extends(range)
    ensures level > 0 ==> r == range && inputs == Filter(files, |files|, range)
    ensures level == 0 ==> r.Closed(files) && Necessary(files, range, r)
  {
    var user := range;
    inputs := [];
    var i := 0;
    ScanStart(files, level, range, user);
    while i < |files|
      invariant 0 <= i <= |files| && Scanned(files, i, level, range, user, inputs)
      decreases |StartBelow(files, user.begin)| + |EndAbove(files, user.end)|, |files| - i
    {
      var f := files[i];
      if user.begin.Some? && f.largest.key < user.begin.value {
        ScanNext(files, i, level, range, user, inputs);
      } else if user.end.Some? && f.smallest.key > user.end.value {
        ScanNext(files, i, level, range, user, inputs);
      } else {
        if level == 0 {
          // the range grows, so files that were passed may meet it now
          var wider := Widen(files, range, user, i);
          if wider != user {
            user, inputs, i := wider, [], 0;
            ScanStart(files, level, range, user);
            continue;
          }
        }
        ScanNext(files, i, level, range, user, inputs);
        inputs := inputs + [f];
      }
      i := i + 1;
    }
    ScanEnd(files, level, range, user, inputs);
    r := user;
  }

  // ----- Ranges of files -----

  method GetRange(inputs: seq<File>) returns (smallest: Entry, largest: Entry)
    requires |inputs| > 0
    ensures exists f :: f in inputs && f.smallest == smallest
    ensures exists f :: f in inputs && f.largest == largest
    ensures forall f :: f in inputs ==> !Before(f.smallest, smallest) && !Before(largest, f.largest)
  {
    smallest, largest := inputs[0].smallest, inputs[0].largest;
    for i := 1 to |inputs|
      invariant exists f :: f in inputs && f.smallest == smallest
      invariant exists f :: f in inputs && f.largest == largest
      invariant forall j :: 0 <= j < i ==> !Before(inputs[j].smallest, smallest) && !Before(largest, inputs[j].largest)
    {
      var f := inputs[i];
      assert f in inputs;
      if Before(f.smallest, smallest) {
        smallest := f.smallest;
      }
      if Before(largest, f.largest) {
        largest := f.largest;
      }
    }
  }

  lemma {:induction false} RangeSpans(inputs: seq<File>, smallest: Entry, largest: Entry)
    requires exists f :: f in inputs && f.smallest == smallest
    requires exists f :: f in inputs && f.largest == largest
    requires forall f :: f in inputs ==> !Before(f.smallest, smallest) && !Before(largest, f.largest)
    ensures Spans(Files(inputs), smallest.key, largest.key)
  {
    var f :| f in inputs && f.smallest == smallest;
    var g :| g in inputs && g.largest == largest;
    assert f in Files(inputs) && g in Files(inputs);
  }

  // ----- Boundary files -----

  predicate StartsAfter(largest: Entry, f: File) {
    Before(largest, f.smallest) && f.smallest.key == largest.key
  }

  /** `f` starts next after `largest` on the same user key. */
  ghost predicate IsBoundary(files: seq<File>, largest: Entry, f: File) {
    && f in files && StartsAfter(largest, f)
    && forall g :: g in files && StartsAfter(largest, g) ==> !Before(g.smallest, f.smallest)
  }

  ghost predicate NoBoundary(files: seq<File>, largest: Entry) {
    forall g :: g in files ==> !StartsAfter(largest, g)
  }

  method FindSmallestBoundaryFile(files: seq<File>, largest: Entry) returns (r: Option<File>)
    ensures match r case Some(f) => IsBoundary(files, largest, f) case None => NoBoundary(files, largest)
  {
    r := None;
    for i := 0 to |files|
      invariant r.Some? ==> r.value in files && StartsAfter(largest, r.value)
      invariant forall j :: 0 <= j < i && StartsAfter(largest, files[j]) ==>
        r.Some? && !Before(files[j].smallest, r.value.smallest)
    {
      var f := files[i];
      if StartsAfter(largest, f) {
        if r.None? || Before(f.smallest, r.value.smallest) {
          r := Some(f);
        }
      }
    }
  }

  /** The largest key before position `i` of a chain that starts from `largest`. */
  ghost function LargestBefore(largest: Entry, chain: seq<File>, i: nat): Entry
    requires i <= |chain|
  {
    if i == 0 then largest else chain[i - 1].largest
  }

  /** Each file of the chain is the boundary file of what comes before it. */
  ghost predicate IsChain(files: seq<File>, largest: Entry, chain: seq<File>) {
    forall i {:trigger LargestBefore(largest, chain, i)} :: 0 <= i < |chain| ==>
      IsBoundary(files, LargestBefore(largest, chain, i), chain[i])
  }

  lemma {:induction false} ChainGrows(files: seq<File>, largest: Entry, chain: seq<File>, f: File)
    requires IsChain(files, largest, chain) && IsBoundary(files, LargestBefore(largest, chain, |chain|), f)
    ensures IsChain(files, largest, chain + [f])
    ensures LargestBefore(largest, chain + [f], |chain| + 1) == f.largest
  {
    forall i | 0 <= i <= |chain| ensures LargestBefore(largest, chain + [f], i) == LargestBefore(largest, chain, i) {
    }
  }

  ghost function StartingAfter(files: seq<File>, largest: Entry): set<nat> {
    set i: nat | i < |files| && Before(largest, files[i].smallest)
  }

  lemma {:induction false} FewerAfter(files: seq<File>, largest: Entry, f: File)
    requires f in files && Before(largest, f.smallest)
    ensures |StartingAfter(files, f.largest)| < |StartingAfter(files, largest)|
  {
    var i :| 0 <= i < |files| && files[i] == f;
    EntryBounds(f, f.largest);
    assert StartingAfter(files, f.largest) <= StartingAfter(files, largest) - {i};
    SubsetSize(StartingAfter(files, f.largest), StartingAfter(files, largest) - {i});
  }

  /** Append boundary files until none is left after the chosen largest key. */
  method AddBoundaryInputs(files: seq<File>, inputs: seq<File>) returns (r: seq<File>, ghost first: Entry, ghost chain: seq<File>)
    ensures r == inputs + chain
    ensures |inputs| == 0 ==> chain == []
    ensures |inputs| > 0 ==>
      && (exists f :: f in inputs && f.largest == first) && (forall f :: f in inputs ==> !Before(first, f.largest))
      && IsChain(files, first, chain) && NoBoundary(files, LargestBefore(first, chain, |chain|))
  {
    r, first, chain := inputs, SOME_ENTRY, [];
    if |inputs| == 0 {
      return;
    }
    var _, largest := GetRange(inputs);
    first := largest;
    var searching := true;
    while searching
      invariant r == inputs + chain && IsChain(files, first, chain)
      invariant largest == LargestBefore(first, chain, |chain|)
      invariant !searching ==> NoBoundary(files, largest)
      decreases |StartingAfter(files, largest)|, searching
    {
      var boundary := FindSmallestBoundaryFile(files, largest);
      if boundary.Some? {
        FewerAfter(files, largest, boundary.value);
        ChainGrows(files, first, chain, boundary.value);
        r := r + [boundary.value];
        chain := chain + [boundary.value];
        largest := boundary.value.largest;
      } else {
        searching := false;
      }
    }
  }

  // ----- What boundary files are on sorted files -----

  /** `inputs` are the files listed in `files[a..b]`. */
  ghost predicate IsSlice(files: seq<File>, a: nat, b: nat, inputs: seq<File>) {
    a < b <= |files| && forall f :: f in inputs <==> f in files[a..b]
  }

  lemma {:induction false} SliceLargest(files: seq<File>, a: nat, b: nat, inputs: seq<File>, largest: Entry)
    requires Disjoint(files) && IsSlice(files, a, b, inputs)
    requires exists f :: f in inputs && f.largest == largest
    requires forall f :: f in inputs ==> !Before(largest, f.largest)
    ensures largest == files[b - 1].largest
  {
    var f :| f in inputs && f.largest == largest;
    var i :| a <= i < b && files[i] == f;
    assert files[b - 1] in files[a..b];
    LargestAscends(files, i, b - 1);
  }

  /** The boundary file of sorted files is the next file. */
  lemma {:induction false} BoundaryIsNext(files: seq<File>, b: nat, f: File)
    requires Disjoint(files) && 0 < b <= |files|
    requires IsBoundary(files, files[b - 1].largest, f)
    ensures b < |files| && f == files[b] && Continues(files[b - 1], files[b])
  {
    var i :| 0 <= i < |files| && files[i] == f;
    EntryBounds(f, f.largest);
    LargestAscends(files, if i < b then i else 0, b - 1);
    assert b <= i;
    EntryBounds(files[b], files[b].largest);
    assert b < i ==> Before(files[b].largest, files[i].smallest);
    assert Before(files[b - 1].largest, files[b].smallest);
    assert StartsAfter(files[b - 1].largest, files[b]);
  }

  /** File `i` continues the file before it. */
  predicate ContinuesAt(files: seq<File>, i: nat) {
    0 < i < |files| && Continues(files[i - 1], files[i])
  }

  lemma {:induction false} ChainIsRun(files: seq<File>, b: nat, largest: Entry, chain: seq<File>, n: nat)
    requires Disjoint(files) && 0 < b <= |files| && largest == files[b - 1].largest
    requires IsChain(files, largest, chain) && n <= |chain|
    ensures b + n <= |files| && chain[..n] == files[b..b + n]
    ensures LargestBefore(largest, chain, n) == files[b + n - 1].largest
    ensures forall i :: b <= i < b + n ==> ContinuesAt(files, i)
  {
    if n > 0 {
      ChainIsRun(files, b, largest, chain, n - 1);
      assert IsBoundary(files, LargestBefore(largest, chain, n - 1), chain[n - 1]);
      BoundaryIsNext(files, b + n - 1, chain[n - 1]);
      assert chain[..n] == chain[..n - 1] + [chain[n - 1]];
      assert files[b..b + n] == files[b..b + n - 1] + [files[b + n - 1]];
    }
  }

  /** On sorted files, the appended files are exactly those that continue the chosen ones. */
  lemma {:induction false} BoundaryRun(files: seq<File>, a: nat, b: nat, inputs: seq<File>, largest: Entry, chain: seq<File>)
    requires Disjoint(files) && IsSlice(files, a, b, inputs)
    requires exists f :: f in inputs && f.largest == largest
    requires forall f :: f in inputs ==> !Before(largest, f.largest)
    requires IsChain(files, largest, chain) && NoBoundary(files, LargestBefore(largest, chain, |chain|))
    ensures var b' := b + |chain|;
      && IsSlice(files, a, b', inputs + chain)
      && (forall i :: b <= i < b' ==> ContinuesAt(files, i))
      && !ContinuesAt(files, b')
  {
    SliceLargest(files, a, b, inputs, largest);
    ChainIsRun(files, b, largest, chain, |chain|);
    var b' := b + |chain|;
    assert files[a..b'] == files[a..b] + files[b..b'];
    assert chain[..|chain|] == chain;
    assert b' < |files| ==> files[b'] in files;
  }

  /** On level-0 files whose range is closed there is nothing to append. */
  lemma {:induction false} NothingAppended(files: seq<File>, range: KeyRange, inputs: seq<File>, largest: Entry, chain: seq<File>)
    requires Collected(files, range, inputs) && range.Closed(files)
    requires exists f :: f in inputs && f.largest == largest
    requires forall f :: f in inputs ==> !Before(largest, f.largest)
    requires IsChain(files, largest, chain)
    ensures chain == []
  {
    if |chain| > 0 {
      var f := chain[0];
      assert IsBoundary(files, LargestBefore(largest, chain, 0), f);
      var g :| g in inputs && g.largest == largest;
      assert range.Encloses(g);
      EntryBounds(f, f.largest);
      EntryBounds(g, g.largest);
    }
  }

  // ----- SetupOtherInputs -----

  /** Inputs that AddBoundaryInputs can complete: a run of sorted files, or at level 0 the
      files of a closed range. */
  ghost predicate Startable(files: seq<File>, level: nat, inputs: seq<File>) {
    && |inputs| > 0
    && (level > 0 ==> exists a: nat, b: nat :: IsSlice(files, a, b, inputs))
    && (level == 0 ==> exists r: KeyRange :: Collected(files, r, inputs) && r.Closed(files))
  }

  /** The chosen files of the compacted level, closed at their end. */
  ghost predicate Complete(files: seq<File>, level: nat, in0: set<File>, lo: UserKey, hi: UserKey) {
    && in0 <= Files(files) && Spans(in0, lo, hi)
    && (level == 0 ==> forall g :: g in files && g !in in0 ==> !Overlaps(g, lo, hi))
    && (level > 0 ==> forall f, g :: f in in0 && g in files && g !in in0 ==> !Continues(f, g))
  }

  /** No file past a run continues a file of the run, if none continues its last file. */
  lemma {:induction false} PastRun(files: seq<File>, i: nat, b: nat, j: nat)
    requires Disjoint(files) && i < b <= j < |files| && !ContinuesAt(files, b)
    ensures !Continues(files[i], files[j])
  {
    LargestAscends(files, i, b - 1);
    EntryBounds(files[b], files[b].largest);
    assert Before(files[b - 1].largest, files[b].smallest);
    assert b == j || Before(files[b].largest, files[j].smallest);
  }

  lemma {:induction false} SliceComplete(files: seq<File>, a: nat, b: nat, inputs: seq<File>, f: File, g: File)
    requires Disjoint(files) && IsSlice(files, a, b, inputs) && !ContinuesAt(files, b)
    requires f in inputs && g in files && g !in inputs
    ensures !Continues(f, g)
  {
    var i: nat :| a <= i < b && files[i] == f;
    var j: nat :| j < |files| && files[j] == g;
    forall k | a <= k < b ensures files[k] in inputs {
      assert files[a..b][k - a] == files[k];
    }
    if b <= j {
      PastRun(files, i, b, j);
    } else {
      assert j < i && Before(files[j].largest, files[i].smallest);
      EntryBounds(g, g.largest);
      EntryBounds(f, f.largest);
    }
  }

  lemma {:induction false} RunComplete(files: seq<File>, a: nat, b: nat, inputs: seq<File>, first: Entry, chain: seq<File>)
    requires Disjoint(files) && IsSlice(files, a, b, inputs)
    requires exists f :: f in inputs && f.largest == first
    requires forall f :: f in inputs ==> !Before(first, f.largest)
    requires IsChain(files, first, chain) && NoBoundary(files, LargestBefore(first, chain, |chain|))
    ensures Files(inputs + chain) <= Files(files)
    ensures forall f, g :: f in inputs + chain && g in files && g !in inputs + chain ==> !Continues(f, g)
  {
    BoundaryRun(files, a, b, inputs, first, chain);
    forall f, g | f in inputs + chain && g in files && g !in inputs + chain ensures !Continues(f, g) {
      SliceComplete(files, a, b + |chain|, inputs + chain, f, g);
    }
  }

  lemma {:induction false} ClosedComplete(files: seq<File>, range: KeyRange, inputs: seq<File>, lo: UserKey, hi: UserKey)
    requires Collected(files, range, inputs) && range.Closed(files) && Spans(Files(inputs), lo, hi)
    ensures Files(inputs) <= Files(files)
    ensures forall g :: g in files && g !in inputs ==> !Overlaps(g, lo, hi)
  {
    var f :| f in Files(inputs) && f.smallest.key == lo;
    var h :| h in Files(inputs) && h.largest.key == hi;
    assert range.Encloses(f) && range.Encloses(h);
  }

  /** Add the boundary files and find the range of the result. */
  method CompleteInputs(files: seq<File>, level: nat, inputs: seq<File>)
    returns (r: seq<File>, smallest: Entry, largest: Entry)
    requires Startable(files, level, inputs) && (level > 0 ==> Disjoint(files))
    ensures Complete(files, level, Files(r), smallest.key, largest.key)
    ensures inputs <= r
  {
    ghost var first, chain;
    r, first, chain := AddBoundaryInputs(files, inputs);
    smallest, largest := GetRange(r);
    RangeSpans(r, smallest, largest);
    if level > 0 {
      ghost var a: nat, b: nat :| IsSlice(files, a, b, inputs);
      RunComplete(files, a, b, inputs, first, chain);
    } else {
      ghost var range: KeyRange :| Collected(files, range, inputs) && range.Closed(files);
      NothingAppended(files, range, inputs, first, chain);
      assert r == inputs;
      ClosedComplete(files, range, inputs, smallest.key, largest.key);
    }
  }

  // ----- Starting points -----

  /** The sorted files that meet a range are consecutive. */
  lemma {:induction false} MeetingInterval(files: seq<File>, range: KeyRange, w: nat) returns (a: nat, b: nat)
    requires Disjoint(files) && w < |files| && range.Meets(files[w])
    ensures a < b <= |files| && forall i :: 0 <= i < |files| ==> (range.Meets(files[i]) <==> a <= i < b)
  {
    a := 0;
    while !range.Meets(files[a])
      decreases w - a
      invariant a <= w && forall i :: 0 <= i < a ==> !range.Meets(files[i])
    {
      a := a + 1;
    }
    b := |files|;
    while !range.Meets(files[b - 1])
      decreases b
      invariant w < b <= |files| && forall i :: b <= i < |files| ==> !range.Meets(files[i])
    {
      b := b - 1;
    }
    forall i | a <= i < b ensures range.Meets(files[i]) {
      Between(files, range, a, i, b - 1);
    }
  }

  lemma {:induction false} MeetingSlice(files: seq<File>, range: KeyRange, inputs: seq<File>) returns (a: nat, b: nat)
    requires Disjoint(files) && Collected(files, range, inputs) && |inputs| > 0
    ensures IsSlice(files, a, b, inputs)
  {
    assert inputs[0] in inputs;
    var w: nat :| w < |files| && files[w] == inputs[0];
    a, b := MeetingInterval(files, range, w);
    forall f | f in inputs ensures f in files[a..b] {
      var i :| 0 <= i < |files| && files[i] == f;
      assert files[a..b][i - a] == f;
    }
  }

  lemma {:induction false} FilterInterval(files: seq<File>, range: KeyRange, a: nat, b: nat, n: nat)
    requires a <= b <= |files| && n <= |files|
    requires forall i {:trigger range.Meets(files[i])} :: 0 <= i < |files| ==> (range.Meets(files[i]) <==> a <= i < b)
    ensures Filter(files, n, range) == files[Min(a, n)..Min(b, n)]
  {
    if n > 0 {
      FilterInterval(files, range, a, b, n - 1);
      if n <= a {
        assert !range.Meets(files[n - 1]);
      } else if n <= b {
        assert range.Meets(files[n - 1]);
        assert Filter(files, n, range) == files[a..n - 1] + [files[n - 1]];
      } else {
        assert !range.Meets(files[n - 1]);
      }
    }
  }

  lemma {:induction false} Between(files: seq<File>, range: KeyRange, a: nat, i: nat, b: nat)
    requires Disjoint(files) && a <= i <= b < |files| && range.Meets(files[a]) && range.Meets(files[b])
    ensures range.Meets(files[i])
  {
    LargestAscends(files, a, i);
    EntryBounds(files[i], files[i].largest);
    assert i < b ==> Before(files[i].largest, files[b].smallest);
  }

  function TotalSize(files: seq<File>): nat {
    if |files| == 0 then 0 else files[0].size + TotalSize(files[1..])
  }

  // ----- SetupOtherInputs -----

  /** Exactly the next-level files that meet the user-key range. */
  ghost predicate Parents(v: Version, level: nat, in1: seq<File>, lo: UserKey, hi: UserKey)
    requires level + 1 < NUM_LEVELS
  {
    Collected(v.levels[level + 1], KeyRange(Some(lo), Some(hi)), in1)
  }

  lemma {:induction false} CompleteSelected(v: Version, level: nat, in0: seq<File>, in1: seq<File>, lo: UserKey, hi: UserKey)
    requires level + 1 < NUM_LEVELS && Complete(v.levels[level], level, Files(in0), lo, hi)
    requires Parents(v, level, in1, lo, hi)
    ensures Selected(v, level, Files(in0), Files(in1), lo, hi)
  {
    assert Files(in1) == set g | g in v.levels[level + 1] && Overlaps(g, lo, hi);
  }

  /** Files that meet the range of all inputs: at level 0 of a closed extension of it. */
  method Expand(v: Version, level: nat, in0: seq<File>, start: UserKey, limit: UserKey) returns (r: seq<File>)
    requires level + 1 < NUM_LEVELS && Valid(v)
    requires |in0| > 0 && forall f :: f in in0 ==> f in v.levels[level] && start <= f.smallest.key <= f.largest.key <= limit
    ensures Startable(v.levels[level], level, r) && forall f :: f in in0 ==> f in r
    ensures forall f :: f in v.levels[level] && Overlaps(f, start, limit) ==> f in r
  {
    ghost var range;
    r, range := GetOverlappingInputs(v.levels[level], level, KeyRange(Some(start), Some(limit)));
    assert in0[0] in in0 && in0[0] in r;
    if level > 0 {
      ghost var a, b := MeetingSlice(v.levels[level], range, r);
    }
    forall f | f in v.levels[level] && Overlaps(f, start, limit) ensures f in r {
      assert range.Meets(f);
    }
  }

  lemma {:induction false} CompleteWithin(files: seq<File>, level: nat, in0: seq<File>, lo: UserKey, hi: UserKey)
    requires Complete(files, level, Files(in0), lo, hi)
    ensures |in0| > 0 && forall f :: f in in0 ==> f in files && lo <= f.smallest.key <= f.largest.key <= hi
  {
    var w :| w in Files(in0) && w.smallest.key == lo;
    forall f | f in in0 ensures f in files && lo <= f.smallest.key <= f.largest.key <= hi {
      assert f in Files(in0);
      EntryBounds(f, f.largest);
    }
  }

  /** The completed files `base0` and their parents `base1`, or more files of the level that have as many parents
      and together with these stay below the limit. */
  ghost predicate Expanded(base0: seq<File>, base1: seq<File>, in0: seq<File>, in1: seq<File>, expandedLimit: nat) {
    && (forall f :: f in base0 ==> f in in0)
    && ((in0 == base0 && in1 == base1) ||
        (|in0| > |base0| && |in1| == |base1| && TotalSize(base1) + TotalSize(in0) < expandedLimit))
  }

  /** All files of the level that meet the range of the inputs, completed, with their parents. */
  ghost predicate Grown(v: Version, level: nat, base0: seq<File>, base1: seq<File>, more0: seq<File>, more1: seq<File>)
    requires level + 1 < NUM_LEVELS
  {
    && (forall f, g, h {:trigger f in v.levels[level], g in base0 + base1, h in base0 + base1} ::
          f in v.levels[level] && g in base0 + base1 && h in base0 + base1 && g.smallest.key <= f.largest.key && f.smallest.key <= h.largest.key ==>
          f in more0)
    && exists lo, hi :: Complete(v.levels[level], level, Files(more0), lo, hi) && Parents(v, level, more1, lo, hi)
  }

  lemma {:induction false} FilterCollects(files: seq<File>, n: nat, range: KeyRange)
    requires n <= |files|
    ensures forall f :: f in Filter(files, n, range) <==> exists i :: 0 <= i < n && files[i] == f && range.Meets(f)
  {
    if n > 0 {
      FilterCollects(files, n - 1, range);
    }
  }

  lemma {:induction false} GrownIs(v: Version, level: nat, base0: seq<File>, base1: seq<File>, start: Entry, limit: Entry,
                                   found: seq<File>, more0: seq<File>, lo: UserKey, hi: UserKey)
    requires level + 1 < NUM_LEVELS && found <= more0
    requires forall f :: f in base0 + base1 ==> !Before(f.smallest, start) && !Before(limit, f.largest)
    requires forall f :: f in v.levels[level] && Overlaps(f, start.key, limit.key) ==> f in found
    requires Complete(v.levels[level], level, Files(more0), lo, hi)
    ensures var parents := v.levels[level + 1];
            Grown(v, level, base0, base1, more0, Filter(parents, |parents|, KeyRange(Some(lo), Some(hi))))
  {
    hide Complete;
    var parents, range := v.levels[level + 1], KeyRange(Some(lo), Some(hi));
    FilterCollects(parents, |parents|, range);
    assert Parents(v, level, Filter(parents, |parents|, range), lo, hi);
    forall f, g, h | f in v.levels[level] && g in base0 + base1 && h in base0 + base1 &&
                     g.smallest.key <= f.largest.key && f.smallest.key <= h.largest.key
      ensures f in more0
    {
      assert Overlaps(f, start.key, limit.key);
    }
  }

  /** What the inputs could grow to, if there are parents: nothing more, too much, or more parents. */
  ghost predicate CannotGrow(v: Version, level: nat, base0: seq<File>, base1: seq<File>, expandedLimit: nat)
    requires level + 1 < NUM_LEVELS
  {
    base1 == [] ||
    exists more0, more1 :: Grown(v, level, base0, base1, more0, more1) &&
      (|more0| <= |base0| || TotalSize(base1) + TotalSize(more0) >= expandedLimit || |more1| != |base1|)
  }

  /** Complete the chosen files, take the next-level files they meet, and grow the former if
      that costs no further next-level file.  The result is what a compaction may run on. */
  method SetupOtherInputs(v: Version, level: nat, inputs: seq<File>, expandedLimit: nat)
    returns (in0: seq<File>, in1: seq<File>, smallest: Entry, largest: Entry, ghost base0: seq<File>, ghost base1: seq<File>)
    requires Valid(v) && level + 1 < NUM_LEVELS && Startable(v.levels[level], level, inputs)
    ensures Selected(v, level, Files(in0), Files(in1), smallest.key, largest.key)
    ensures inputs <= base0 && Expanded(base0, base1, in0, in1, expandedLimit)
    ensures in0 == base0 ==> CannotGrow(v, level, base0, base1, expandedLimit)
    ensures forall f :: f in inputs ==> f in in0
  {
    in0, smallest, largest := CompleteInputs(v.levels[level], level, inputs);
    ghost var r;
    in1, r := GetOverlappingInputs(v.levels[level + 1], level + 1, KeyRange(Some(smallest.key), Some(largest.key)));
    CompleteSelected(v, level, in0, in1, smallest.key, largest.key);
    base0, base1 := in0, in1;
    if |in1| > 0 {
      in0, in1, smallest, largest := TryExpand(v, level, in0, in1, smallest, largest, expandedLimit);
    }
    forall f | f in inputs ensures f in in0 {
      assert f in base0;
    }
  }

  /** Grow the inputs of the level if that is possible without more files of the next level. */
  method TryExpand(v: Version, level: nat, base0: seq<File>, base1: seq<File>, lo: Entry, hi: Entry, expandedLimit: nat)
    returns (in0: seq<File>, in1: seq<File>, smallest: Entry, largest: Entry)
    requires Valid(v) && level + 1 < NUM_LEVELS
    requires Complete(v.levels[level], level, Files(base0), lo.key, hi.key)
    requires Selected(v, level, Files(base0), Files(base1), lo.key, hi.key)
    ensures Selected(v, level, Files(in0), Files(in1), smallest.key, largest.key)
    ensures Expanded(base0, base1, in0, in1, expandedLimit)
    ensures in0 == base0 ==> CannotGrow(v, level, base0, base1, expandedLimit)
  {
    CompleteWithin(v.levels[level], level, base0, lo.key, hi.key);
    in0, in1, smallest, largest := base0, base1, lo, hi;
    var allStart, allLimit := GetRange(in0 + in1);
    WithinAll(in0, in1, allStart, allLimit);
    var found := Expand(v, level, in0, allStart.key, allLimit.key);
    var expanded0, newStart, newLimit := CompleteInputs(v.levels[level], level, found);
    ghost var range := KeyRange(Some(newStart.key), Some(newLimit.key));
    ghost var parents := Filter(v.levels[level + 1], |v.levels[level + 1]|, range);
    GrownIs(v, level, base0, base1, allStart, allLimit, found, expanded0, newStart.key, newLimit.key);
    if |expanded0| > |in0| && TotalSize(in1) + TotalSize(expanded0) < expandedLimit {
      var expanded1, _ := GetOverlappingInputs(v.levels[level + 1], level + 1, KeyRange(Some(newStart.key), Some(newLimit.key)));
      if |expanded1| == |in1| {
        CompleteSelected(v, level, expanded0, expanded1, newStart.key, newLimit.key);
        forall f | f in base0 ensures f in expanded0 {
          assert f in found;
        }
        smallest, largest := newStart, newLimit;
        in0, in1 := expanded0, expanded1;
      }
    }
  }

  lemma {:induction false} WithinAll(in0: seq<File>, in1: seq<File>, start: Entry, limit: Entry)
    requires forall f :: f in in0 + in1 ==> !Before(f.smallest, start) && !Before(limit, f.largest)
    ensures forall f :: f in in0 ==> start.key <= f.smallest.key <= f.largest.key <= limit.key
  {
    forall f | f in in0 ensures start.key <= f.smallest.key <= f.largest.key <= limit.key {
      assert f in in0 + in1;
      EntryBounds(f, f.largest);
    }
  }

  // ----- The two ways to start a compaction -----

  lemma {:induction false} CutSlice(files: seq<File>, a: nat, b: nat, n: nat)
    requires a < b <= |files| && 0 < n <= b - a
    ensures IsSlice(files, a, a + n, files[a..b][..n])
  {
    assert files[a..b][..n] == files[a..a + n];
  }

  /** A nonempty front part of the inputs: all of them, or the shortest one that reaches the size limit. */
  ghost predicate CutAt(inputs: seq<File>, r: seq<File>, sizeLimit: nat) {
    && 0 < |r| && r <= inputs
    && (|r| > 1 ==> TotalSize(r[..|r| - 1]) < sizeLimit)
    && (|r| < |inputs| ==> TotalSize(r) >= sizeLimit)
  }

  lemma {:induction false} TotalSizeNext(files: seq<File>, n: nat)
    requires n < |files|
    ensures TotalSize(files[..n + 1]) == TotalSize(files[..n]) + files[n].size
  {
    if n == 0 {
      assert files[..1][1..] == [];
    } else {
      TotalSizeNext(files[1..], n - 1);
      assert files[..n + 1][1..] == files[1..][..n] && files[..n][1..] == files[1..][..n - 1];
    }
  }

  /** Keep the shortest nonempty prefix of the inputs that reaches the size limit. */
  method CutAtSize(files: seq<File>, range: KeyRange, inputs: seq<File>, sizeLimit: nat) returns (r: seq<File>)
    requires Disjoint(files) && |inputs| > 0 && inputs == Filter(files, |files|, range)
    requires Collected(files, range, inputs)
    ensures exists a: nat, b: nat :: IsSlice(files, a, b, r)
    ensures CutAt(inputs, r, sizeLimit)
  {
    assert inputs[0] in inputs;
    ghost var w: nat :| w < |files| && files[w] == inputs[0];
    ghost var a, b := MeetingInterval(files, range, w);
    FilterInterval(files, range, a, b, |files|);
    var n := CountTo(inputs, sizeLimit);
    r := inputs[..n];
    CutSlice(files, a, b, n);
  }

  method CountTo(inputs: seq<File>, sizeLimit: nat) returns (n: nat)
    requires |inputs| > 0
    ensures 0 < n <= |inputs| && CutAt(inputs, inputs[..n], sizeLimit)
  {
    hide TotalSize;
    NoFiles();
    var total := 0;
    n := 0;
    assert inputs[..0] == [];
    while n < |inputs|
      invariant n <= |inputs| && (n == |inputs| ==> n > 0)
      invariant total == TotalSize(inputs[..n]) && (n > 0 ==> total < sizeLimit)
    {
      TotalSizeNext(inputs, n);
      total := total + inputs[n].size;
      n := n + 1;
      if total >= sizeLimit {
        break;
      }
    }
    TotalSizeNext(inputs, n - 1);
    assert inputs[..n][..n - 1] == inputs[..n - 1];
  }

  lemma {:induction false} NoFiles()
    ensures TotalSize([]) == 0
  {
  }

  /** Why a compaction starts: a level is too large, and goes on past its compact pointer, or too many seeks went
      to a file. */
  datatype Trigger =
    | BySize(level: nat, compactPointer: Option<Entry>)
    | BySeeks(level: nat, file: File)

  predicate Comes(compactPointer: Option<Entry>, f: File) {
    compactPointer.None? || Before(compactPointer.value, f.largest)
  }

  /** The first file that comes after the compact pointer, or the first one of all. */
  method FirstAfter(files: seq<File>, compactPointer: Option<Entry>) returns (f: File)
    requires |files| > 0
    ensures f in files
    ensures Comes(compactPointer, f) ==>
      exists i :: 0 <= i < |files| && files[i] == f && forall j :: 0 <= j < i ==> !Comes(compactPointer, files[j])
    ensures !Comes(compactPointer, f) ==> f == files[0] && forall g :: g in files ==> !Comes(compactPointer, g)
  {
    for i := 0 to |files|
      invariant forall j :: 0 <= j < i ==> !Comes(compactPointer, files[j])
    {
      if Comes(compactPointer, files[i]) {
        return files[i];
      }
    }
    f := files[0];
  }

  /** The file that a compaction starts from, and its inputs; `largest` is the level's next compact pointer. */
  method PickCompaction(v: Version, trigger: Trigger, expandedLimit: nat)
    returns (picked: File, in0: seq<File>, in1: seq<File>, smallest: Entry, largest: Entry)
    requires Valid(v) && trigger.level + 1 < NUM_LEVELS && |v.levels[trigger.level]| > 0
    requires trigger.BySeeks? ==> trigger.file in v.levels[trigger.level]
    ensures Selected(v, trigger.level, Files(in0), Files(in1), smallest.key, largest.key)
    ensures picked in v.levels[trigger.level] && picked in in0
    ensures trigger.BySeeks? ==> picked == trigger.file
    ensures trigger.BySize? && Comes(trigger.compactPointer, picked) ==>
      exists i :: 0 <= i < |v.levels[trigger.level]| && v.levels[trigger.level][i] == picked &&
                  forall j :: 0 <= j < i ==> !Comes(trigger.compactPointer, v.levels[trigger.level][j])
    ensures trigger.BySize? && !Comes(trigger.compactPointer, picked) ==>
      picked == v.levels[trigger.level][0] && forall g :: g in v.levels[trigger.level] ==> !Comes(trigger.compactPointer, g)
  {
    var level := trigger.level;
    if trigger.BySize? {
      picked := FirstAfter(v.levels[level], trigger.compactPointer);
    } else {
      picked := trigger.file;
    }
    var inputs := [picked];
    assert picked in inputs;
    if level == 0 {
      var lo, hi := GetRange(inputs);
      WithinAll(inputs, [], lo, hi);
      inputs := Expand(v, 0, inputs, lo.key, hi.key);
    } else {
      ghost var i: nat :| i < |v.levels[level]| && v.levels[level][i] == picked;
      assert v.levels[level][i..i + 1] == inputs;
      assert IsSlice(v.levels[level], i, i + 1, inputs);
    }
    ghost var base0, base1;
    in0, in1, smallest, largest, base0, base1 := SetupOtherInputs(v, level, inputs, expandedLimit);
  }

  /** CompactRange: nothing to do when no file meets the range; past level 0, cut the files that meet it once they
      reach the size limit.  Those that are kept are among the inputs. */
  method CompactRange(v: Version, level: nat, range: KeyRange, sizeLimit: nat, expandedLimit: nat)
    returns (r: Option<(seq<File>, seq<File>, Entry, Entry)>, ghost kept: seq<File>)
    requires Valid(v) && level + 1 < NUM_LEVELS
    ensures r.None? <==> forall f :: f in v.levels[level] ==> !range.Meets(f)
    ensures r.Some? ==>
      Selected(v, level, Files(r.value.0), Files(r.value.1), r.value.2.key, r.value.3.key)
    ensures r.Some? ==> forall f :: f in kept ==> f in r.value.0
    ensures r.Some? && level == 0 ==> forall f :: f in v.levels[0] && range.Meets(f) ==> f in kept
    ensures r.Some? && level > 0 ==> CutAt(Filter(v.levels[level], |v.levels[level]|, range), kept, sizeLimit)
  {
    var inputs, met := GetOverlappingInputs(v.levels[level], level, range);
    forall f | f in v.levels[level] && range.Meets(f) ensures f in inputs {
      assert met.Meets(f);
    }
    if |inputs| == 0 {
      return None, [];
    }
    SomeMeets(v.levels[level], level, range, met, inputs);
    if level > 0 {
      inputs := CutAtSize(v.levels[level], range, inputs, sizeLimit);
    }
    kept := inputs;
    var in0, in1, smallest, largest, _, _ := SetupOtherInputs(v, level, inputs, expandedLimit);
    r := Some((in0, in1, smallest, largest));
  }

  /** If no file meets the range, the range is closed as it is, and nothing is collected. */
  lemma {:induction false} SomeMeets(files: seq<File>, level: nat, range: KeyRange, met: KeyRange, inputs: seq<File>)
    requires Collected(files, met, inputs) && |inputs| > 0
    requires level > 0 ==> met == range
    requires level == 0 ==> Necessary(files, range, met)
    ensures exists f :: f in files && range.Meets(f)
  {
    var f := inputs[0];
    assert f in inputs && met.Meets(f);
    if level == 0 && (forall g :: g in files ==> !range.Meets(g)) {
      AlreadyClosed(files, range, met);
    }
  }

  lemma {:induction false} AlreadyClosed(files: seq<File>, range: KeyRange, met: KeyRange)
    requires Necessary(files, range, met) && range.Closed(files)
    ensures range.Extends(met)
  {
    assert range.Extends(range);
  }
}
