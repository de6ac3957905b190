/** A version of the file map, and the read path through its levels. */
module Versions {
  import opened Common
  import opened InternalKey

  /** The metadata of a table together with its contents. */
  datatype RawFile = RawFile(number: nat, size: nat, smallest: Entry, largest: Entry, entries: seq<Entry>)

  predicate Parsed(es: seq<Entry>) {
    forall e :: e in es ==> e.kind != Corrupt
  }

  /** A table is never empty, is sorted, and its metadata holds its first and last key. */
  predicate IsTable(f: RawFile) {
    && |f.entries| > 0 && Sorted(f.entries) && Parsed(f.entries)
    && f.smallest == f.entries[0] && f.largest == f.entries[|f.entries| - 1]
  }

  const SOME_ENTRY := Entry(0, 0, Value, "")

  type File = f: RawFile | IsTable(f) witness RawFile(0, 0, SOME_ENTRY, SOME_ENTRY, [SOME_ENTRY])

  datatype RawVersion = RawVersion(levels: seq<seq<File>>)

  type Version = v: RawVersion | |v.levels| == NUM_LEVELS
    witness RawVersion([[], [], [], [], [], [], []])

  ghost function Files(files: seq<File>): set<File> {
    set f | f in files
  }

  /** Everything stored in a set of files. */
  ghost function Stored(files: set<File>): set<Entry> {
    set f, e | f in files && e in f.entries :: e
  }

  ghost function AllStored(v: Version): set<Entry> {
    set l, e | 0 <= l < NUM_LEVELS && e in Stored(Files(v.levels[l])) :: e
  }

  /** The files lie one after another in the internal order. */
  ghost predicate Disjoint(files: seq<File>) {
    forall i, j {:trigger Before(files[i].largest, files[j].smallest)} ::
      0 <= i < j < |files| ==> Before(files[i].largest, files[j].smallest)
  }

  /** On every shared user key, what `f` holds is newer than what `g` holds. */
  ghost predicate Newer(f: File, g: File) {
    forall a, b :: a in f.entries && b in g.entries && a.key == b.key ==> a.sequence > b.sequence
  }

  ghost predicate AllNewer(fs: set<File>, gs: set<File>) {
    forall f, g :: f in fs && g in gs ==> Newer(f, g)
  }

  /** Level-0 files may overlap; the higher-numbered one is then the newer one. */
  ghost predicate NumberedByAge(files: set<File>) {
    && (forall f, g :: f in files && g in files && f.number == g.number ==> f == g)
    && (forall f, g :: f in files && g in files && f.number > g.number ==> Newer(f, g))
  }

  /** Newer entries of a user key are above, or in a higher-numbered level-0 file than, older
      ones; levels past 0 are sorted and disjoint. */
  ghost predicate Valid(v: Version) {
    && (forall l :: 1 <= l < NUM_LEVELS ==> Disjoint(v.levels[l]))
    && NumberedByAge(Files(v.levels[0]))
    && (forall l, m :: 0 <= l < m < NUM_LEVELS ==> AllNewer(Files(v.levels[l]), Files(v.levels[m])))
  }

  /** `key` lies in the user-key range of `f`. */
  predicate Covers(f: File, key: UserKey) {
    f.smallest.key <= key <= f.largest.key
  }

  lemma {:induction false} EntryBounds(f: File, e: Entry)
    requires e in f.entries
    ensures e == f.smallest || Before(f.smallest, e)
    ensures e == f.largest || Before(e, f.largest)
    ensures Covers(f, e.key) && e.kind != Corrupt
  {
    var i :| 0 <= i < |f.entries| && f.entries[i] == e;
    Around(f.entries, i);
  }

  lemma {:induction false} BeforeTransitive(a: Entry, b: Entry, c: Entry)
    requires Before(a, b) && Before(b, c)
    ensures Before(a, c)
  {
  }

  /** Entries of a file that lies before another come before the other's. */
  lemma {:induction false} EntriesBefore(f: File, g: File, a: Entry, b: Entry)
    requires Before(f.largest, g.smallest) && a in f.entries && b in g.entries
    ensures Before(a, b)
  {
    EntryBounds(f, a);
    EntryBounds(g, b);
  }

  lemma {:induction false} LargestAscends(files: seq<File>, i: nat, j: nat)
    requires Disjoint(files) && i <= j < |files|
    ensures i == j || Before(files[i].largest, files[j].largest)
  {
    if i < j {
      assert Before(files[i].largest, files[j].smallest);
    }
    EntryBounds(files[j], files[j].largest);
  }

  lemma {:induction false} StoredAt(v: Version, e: Entry) returns (l: nat, f: File)
    requires e in AllStored(v)
    ensures l < NUM_LEVELS && f in v.levels[l] && e in f.entries
  {
    l :| 0 <= l < NUM_LEVELS && e in Stored(Files(v.levels[l]));
    f :| f in Files(v.levels[l]) && e in f.entries;
  }

  lemma {:induction false} StoredIn(v: Version, l: nat, f: File, e: Entry)
    requires l < NUM_LEVELS && f in v.levels[l] && e in f.entries
    ensures e in AllStored(v)
  {
    assert f in Files(v.levels[l]);
    assert e in Stored(Files(v.levels[l]));
  }

  lemma {:induction false} OneSlot(f: File, a: Entry, b: Entry)
    requires a in f.entries && b in f.entries && a.key == b.key && a.sequence == b.sequence
    ensures a == b
  {
    var i :| 0 <= i < |f.entries| && f.entries[i] == a;
    Around(f.entries, i);
  }

  /** In a valid version no two entries of a user key have the same sequence number. */
  lemma {:induction false} ValidUnique(v: Version)
    requires Valid(v)
    ensures Unique(AllStored(v))
  {
    forall a, b | a in AllStored(v) && b in AllStored(v) && a.key == b.key && a.sequence == b.sequence
      ensures a == b
    {
      var l, f := StoredAt(v, a);
      var m, g := StoredAt(v, b);
      SameSlot(v, l, f, m, g, a, b);
      OneSlot(f, a, b);
    }
  }

  /** Entries of equal key and sequence number are in the same file. */
  lemma {:induction false} SameSlot(v: Version, l: nat, f: File, m: nat, g: File, a: Entry, b: Entry)
    requires Valid(v) && l < NUM_LEVELS && m < NUM_LEVELS
    requires f in v.levels[l] && g in v.levels[m] && a in f.entries && b in g.entries
    requires a.key == b.key && a.sequence == b.sequence
    ensures f == g
  {
    assert f in Files(v.levels[l]) && g in Files(v.levels[m]);
    assert l == m;
    if l == 0 {
      assert NumberedByAge(Files(v.levels[0]));
    } else {
      var i :| 0 <= i < |v.levels[l]| && v.levels[l][i] == f;
      var j :| 0 <= j < |v.levels[l]| && v.levels[l][j] == g;
      if i < j {
        EntriesBefore(f, g, a, b);
      } else if j < i {
        EntriesBefore(g, f, b, a);
      }
    }
  }

  // ----- The read path -----

  /** What the Saver callback of a table lookup reports. */
  datatype SaverState = Missing | Hit(value: string) | Deleted

  /** The first position at or after the lookup key. */
  function SeekIndex(es: seq<Entry>, key: UserKey, s: nat): (i: nat)
    ensures i <= |es|
    ensures forall j :: 0 <= j < i ==> !AtOrAfter(es[j], key, s)
    ensures i < |es| ==> AtOrAfter(es[i], key, s)
  {
    if |es| == 0 || AtOrAfter(es[0], key, s) then 0
    else
      var r := SeekIndex(es[1..], key, s);
      assert forall j :: 0 < j < |es| ==> es[j] == es[1..][j - 1];
      r + 1
  }

  /** Seek in sorted entries and hand the entry found to SaveValue. */
  function Probe(es: seq<Entry>, key: UserKey, s: nat): SaverState {
    var i := SeekIndex(es, key, s);
    if i < |es| && es[i].key == key then
      if es[i].kind == Value then Hit(es[i].value) else Deleted
    else Missing
  }

  predicate Agrees(state: SaverState, e: Entry) {
    state == if e.kind == Value then Hit(e.value) else Deleted
  }

  /** A probe hits the newest visible entry of the key, or there is none. */
  lemma {:induction false} ProbeNewest(es: seq<Entry>, key: UserKey, s: nat)
    requires Sorted(es) && Parsed(es)
    ensures Probe(es, key, s) == Missing ==> forall e :: e in es && e.key == key ==> !Visible(e, s)
    ensures Probe(es, key, s) != Missing ==>
      exists e :: IsNewest(Elements(es), key, s, e) && Agrees(Probe(es, key, s), e)
  {
    var i := SeekIndex(es, key, s);
    forall j | 0 <= j < i && es[j].key == key ensures !Visible(es[j], s) {
      assert Tag(es[j]) > s * 256 + 1;
    }
    if i < |es| {
      Around(es, i);
      if es[i].key == key {
        assert Tag(es[i]) <= s * 256 + 1;
        assert IsNewest(Elements(es), key, s, es[i]);
      }
    }
  }

  /** Binary search for the first file whose largest key is at or after the lookup key. */
  method FindFile(files: seq<File>, key: UserKey, s: nat) returns (index: nat)
    requires Disjoint(files)
    ensures index <= |files|
    ensures forall i :: 0 <= i < index ==> !AtOrAfter(files[i].largest, key, s)
    ensures forall i :: index <= i < |files| ==> AtOrAfter(files[i].largest, key, s)
  {
    var left, right := 0, |files|;
    while left < right
      invariant 0 <= left <= right <= |files|
      invariant forall i :: 0 <= i < left ==> !AtOrAfter(files[i].largest, key, s)
      invariant forall i :: right <= i < |files| ==> AtOrAfter(files[i].largest, key, s)
    {
      var mid := (left + right) / 2;
      forall i | 0 <= i < |files| && i != mid
        ensures i < mid ==> Before(files[i].largest, files[mid].largest)
        ensures mid < i ==> Before(files[mid].largest, files[i].largest)
      {
        LargestAscends(files, if i < mid then i else mid, if i < mid then mid else i);
      }
      if !AtOrAfter(files[mid].largest, key, s) {
        left := mid + 1;
      } else {
        right := mid;
      }
    }
    index := right;
  }

  predicate NewestFirst(files: seq<File>) {
    forall i, j :: 0 <= i < j < |files| ==> files[i].number >= files[j].number
  }

  lemma {:induction false} InsertedMembers(r: seq<File>, i: nat, f: File)
    requires i <= |r|
    ensures Files(r[..i] + [f] + r[i..]) == Files(r) + {f}
  {
    assert r == r[..i] + r[i..];
  }

  lemma {:induction false} InsertedOrder(r: seq<File>, i: nat, f: File)
    requires NewestFirst(r) && i <= |r|
    requires forall j :: 0 <= j < i ==> r[j].number >= f.number
    requires i < |r| ==> r[i].number < f.number
    ensures NewestFirst(r[..i] + [f] + r[i..])
  {
  }

  /** The sort of the overlapping level-0 files by descending file number. */
  method SortNewestFirst(files: seq<File>) returns (r: seq<File>)
    ensures NewestFirst(r) && Files(r) == Files(files)
  {
    r := [];
    for n := 0 to |files|
      invariant NewestFirst(r) && Files(r) == Files(files[..n])
    {
      var f := files[n];
      var i := 0;
      while i < |r| && r[i].number >= f.number
        invariant 0 <= i <= |r|
        invariant forall j :: 0 <= j < i ==> r[j].number >= f.number
      {
        i := i + 1;
      }
      InsertedMembers(r, i, f);
      InsertedOrder(r, i, f);
      assert files[..n + 1] == files[..n] + [f];
      assert Files(files[..n + 1]) == Files(files[..n]) + {f};
      r := r[..i] + [f] + r[i..];
    }
    assert files[..|files|] == files;
  }

  /** Nothing visible of `key` in the file. */
  ghost predicate Blank(f: File, key: UserKey, s: nat) {
    forall e :: e in f.entries && e.key == key ==> !Visible(e, s)
  }

  ghost predicate NothingIn(files: seq<File>, key: UserKey, s: nat) {
    forall f :: f in files ==> Blank(f, key, s)
  }

  /** Nothing visible of `key` in the first `l` levels. */
  ghost predicate NothingAbove(v: Version, l: nat, key: UserKey, s: nat)
    requires l <= NUM_LEVELS
  {
    forall m :: 0 <= m < l ==> NothingIn(v.levels[m], key, s)
  }

  predicate Misses(f: File, key: UserKey, s: nat) {
    Probe(f.entries, key, s) == Missing
  }

  lemma {:induction false} MissIsBlank(f: File, key: UserKey, s: nat)
    requires Misses(f, key, s)
    ensures Blank(f, key, s)
  {
    ProbeNewest(f.entries, key, s);
  }

  lemma {:induction false} HitIsNewest(f: File, key: UserKey, s: nat) returns (e: Entry)
    requires !Misses(f, key, s)
    ensures IsNewest(Elements(f.entries), key, s, e) && Agrees(Probe(f.entries, key, s), e)
    ensures e in f.entries
  {
    ProbeNewest(f.entries, key, s);
    e :| IsNewest(Elements(f.entries), key, s, e) && Agrees(Probe(f.entries, key, s), e);
  }

  /** Nothing visible of `key` in `g` is newer than the visible entry `e`. */
  ghost predicate NoNewer(g: File, e: Entry, s: nat) {
    forall x :: x in g.entries && x.key == e.key && Visible(x, s) ==> x.sequence <= e.sequence
  }

  /** What `f` hits is at least as new as anything visible of `key` in the level. */
  ghost predicate Dominates(files: seq<File>, f: File, key: UserKey, s: nat) {
    forall e, g :: IsNewest(Elements(f.entries), key, s, e) && g in files ==> NoNewer(g, e, s)
  }

  /** Probing `files` in order until the first hit settles the whole level. */
  ghost predicate Settles(level: seq<File>, files: seq<File>, key: UserKey, s: nat) {
    && (forall f :: f in files ==> f in level)
    && (forall i :: 0 <= i < |files| && !Misses(files[i], key, s) && AllMiss(files[..i], key, s) ==>
          Dominates(level, files[i], key, s))
    && (AllMiss(files, key, s) ==> NothingIn(level, key, s))
  }

  predicate AllMiss(files: seq<File>, key: UserKey, s: nat) {
    forall i :: 0 <= i < |files| ==> Misses(files[i], key, s)
  }

  lemma {:induction false} UncoveredIsBlank(f: File, key: UserKey, s: nat)
    requires !Covers(f, key)
    ensures Blank(f, key, s)
  {
    forall e | e in f.entries && e.key == key ensures false {
      EntryBounds(f, e);
    }
  }

  lemma {:induction false} NewestFirstDominates(v: Version, files: seq<File>, i: nat, key: UserKey, s: nat)
    requires Valid(v) && NewestFirst(files)
    requires forall f :: f in files <==> f in v.levels[0] && Covers(f, key)
    requires i < |files| && AllMiss(files[..i], key, s)
    ensures Dominates(v.levels[0], files[i], key, s)
  {
    forall e, g | IsNewest(Elements(files[i].entries), key, s, e) && g in v.levels[0]
      ensures NoNewer(g, e, s)
    {
      if !Covers(g, key) {
        UncoveredIsBlank(g, key, s);
      } else {
        assert g in files;
        var j :| 0 <= j < |files| && files[j] == g;
        if j < i {
          assert files[..i][j] == g;
          MissIsBlank(g, key, s);
        } else {
          assert files[i] in files;
          assert g in Files(v.levels[0]) && files[i] in Files(v.levels[0]);
          assert NumberedByAge(Files(v.levels[0]));
          if g.number < files[i].number {
            assert Newer(files[i], g);
          } else {
            assert g == files[i];
          }
        }
      }
    }
  }

  lemma {:induction false} NewestFirstSettles(v: Version, files: seq<File>, key: UserKey, s: nat)
    requires Valid(v) && NewestFirst(files)
    requires forall f :: f in files <==> f in v.levels[0] && Covers(f, key)
    ensures Settles(v.levels[0], files, key, s)
  {
    forall i | 0 <= i < |files| && AllMiss(files[..i], key, s)
      ensures Dominates(v.levels[0], files[i], key, s)
    {
      NewestFirstDominates(v, files, i, key, s);
    }
    if AllMiss(files, key, s) {
      forall f | f in v.levels[0] ensures Blank(f, key, s) {
        if Covers(f, key) {
          assert f in files;
          MissIsBlank(f, key, s);
        } else {
          UncoveredIsBlank(f, key, s);
        }
      }
    }
  }

  /** Files that end before the lookup key hold nothing visible of it. */
  lemma {:induction false} EarlierIsBlank(f: File, key: UserKey, s: nat)
    requires !AtOrAfter(f.largest, key, s)
    ensures Blank(f, key, s)
  {
    forall e | e in f.entries && e.key == key ensures !Visible(e, s) {
      EntryBounds(f, e);
    }
  }

  /** Past a file that reaches the lookup key there is only what is older than its hit. */
  lemma {:induction false} LaterIsOlder(f: File, g: File, key: UserKey, s: nat)
    requires Before(f.largest, g.smallest) && AtOrAfter(f.largest, key, s)
    ensures Misses(f, key, s) ==> Blank(g, key, s)
    ensures forall e :: IsNewest(Elements(f.entries), key, s, e) ==> NoNewer(g, e, s)
  {
    var p := SeekIndex(f.entries, key, s);
    assert p < |f.entries|;
    forall x | x in g.entries && x.key == key ensures f.entries[p].key == key && f.entries[p].sequence > x.sequence {
      EntriesBefore(f, g, f.entries[p], x);
    }
    forall e | IsNewest(Elements(f.entries), key, s, e) ensures NoNewer(g, e, s) {
      forall x | x in g.entries && x.key == key ensures x.sequence <= e.sequence {
        EntriesBefore(f, g, e, x);
      }
    }
  }

  /** In sorted disjoint files only the file found by FindFile matters. */
  lemma {:induction false} FoundFileSettles(files: seq<File>, index: nat, key: UserKey, s: nat)
    requires Disjoint(files) && index <= |files|
    requires forall i :: 0 <= i < index ==> !AtOrAfter(files[i].largest, key, s)
    requires index < |files| ==> AtOrAfter(files[index].largest, key, s)
    ensures Settles(files, if index < |files| && files[index].smallest.key <= key then [files[index]] else [], key, s)
  {
    forall i | 0 <= i < index ensures Blank(files[i], key, s) {
      EarlierIsBlank(files[i], key, s);
    }
    if index < |files| {
      var f := files[index];
      if f.smallest.key > key {
        UncoveredIsBlank(f, key, s);
        MissOfBlank(f, key, s);
      }
      forall i | index < i < |files|
        ensures Misses(f, key, s) ==> Blank(files[i], key, s)
        ensures forall e :: IsNewest(Elements(f.entries), key, s, e) ==> NoNewer(files[i], e, s)
      {
        LaterIsOlder(f, files[i], key, s);
      }
      if Misses(f, key, s) {
        MissIsBlank(f, key, s);
      }
      forall e, g | IsNewest(Elements(f.entries), key, s, e) && g in files ensures NoNewer(g, e, s) {
        var i :| 0 <= i < |files| && files[i] == g;
        if i < index {
          assert Blank(g, key, s);
        }
      }
    }
  }

  lemma {:induction false} MissOfBlank(f: File, key: UserKey, s: nat)
    requires Blank(f, key, s)
    ensures Misses(f, key, s)
  {
    if !Misses(f, key, s) {
      var e := HitIsNewest(f, key, s);
    }
  }

  /** A hit is the answer when everything else visible of the key is no newer. */
  lemma {:induction false} HitIsRead(v: Version, l: nat, f: File, key: UserKey, s: nat)
    requires Valid(v) && l < NUM_LEVELS && f in v.levels[l]
    requires !Misses(f, key, s)
    requires NothingAbove(v, l, key, s) && Dominates(v.levels[l], f, key, s)
    ensures Read(AllStored(v), key, s)
         == match Probe(f.entries, key, s) case Hit(value) => Found(value) case _ => NotFound
  {
    var e := HitIsNewest(f, key, s);
    StoredIn(v, l, f, e);
    forall x | x in AllStored(v) && x.key == key && Visible(x, s) ensures x.sequence <= e.sequence {
      NoneNewerAnywhere(v, l, f, e, s, x);
    }
    ValidUnique(v);
    ReadNewest(AllStored(v), key, s, e);
  }

  lemma {:induction false} NoneNewerAnywhere(v: Version, l: nat, f: File, e: Entry, s: nat, x: Entry)
    requires Valid(v) && l < NUM_LEVELS && f in v.levels[l] && e in f.entries
    requires IsNewest(Elements(f.entries), e.key, s, e)
    requires NothingAbove(v, l, e.key, s) && Dominates(v.levels[l], f, e.key, s)
    requires x in AllStored(v) && x.key == e.key && Visible(x, s)
    ensures x.sequence <= e.sequence
  {
    var m, g := StoredAt(v, x);
    if l == m {
      assert NoNewer(g, e, s);
    } else if l < m {
      assert f in Files(v.levels[l]) && g in Files(v.levels[m]);
      assert AllNewer(Files(v.levels[l]), Files(v.levels[m]));
    }
  }

  /** Probe the files of one level in order until one of them hits. */
  method FirstHit(files: seq<File>, key: UserKey, s: nat) returns (i: nat)
    ensures i <= |files| && AllMiss(files[..i], key, s)
    ensures i < |files| ==> !Misses(files[i], key, s)
  {
    i := 0;
    while i < |files| && Misses(files[i], key, s)
      invariant i <= |files| && AllMiss(files[..i], key, s)
    {
      i := i + 1;
    }
  }

  /** Version::Get searches level by level and stops at the first hit; it finds the newest
      entry at or below the sequence number over all files. */
  method Get(v: Version, key: UserKey, s: nat) returns (r: Lookup)
    requires Valid(v)
    ensures r == Read(AllStored(v), key, s)
  {
    for level := 0 to NUM_LEVELS
      invariant NothingAbove(v, level, key, s)
    {
      var files: seq<File> := [];
      if level == 0 {
        files := OverlappingNewestFirst(v.levels[0], key);
        NewestFirstSettles(v, files, key, s);
      } else {
        var index := FindFile(v.levels[level], key, s);
        if index < |v.levels[level]| && v.levels[level][index].smallest.key <= key {
          files := [v.levels[level][index]];
        }
        FoundFileSettles(v.levels[level], index, key, s);
      }
      var i := FirstHit(files, key, s);
      if i < |files| {
        HitIsRead(v, level, files[i], key, s);
        return match Probe(files[i].entries, key, s) case Hit(value) => Found(value) case _ => NotFound;
      }
      assert files[..i] == files;
    }
    forall x | x in AllStored(v) && x.key == key ensures !Visible(x, s) {
      var m, g := StoredAt(v, x);
    }
    r := NotFound;
  }

  method OverlappingNewestFirst(files: seq<File>, key: UserKey) returns (r: seq<File>)
    ensures NewestFirst(r) && forall f :: f in r <==> f in files && Covers(f, key)
  {
    var tmp := [];
    for i := 0 to |files|
      invariant forall f :: f in tmp <==> f in files[..i] && Covers(f, key)
    {
      if Covers(files[i], key) {
        tmp := tmp + [files[i]];
      }
    }
    assert files[..|files|] == files;
    r := SortNewestFirst(tmp);
    assert forall f :: f in r <==> f in Files(r);
    assert forall f :: f in tmp <==> f in Files(tmp);
  }
}
