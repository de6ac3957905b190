/** DBIter: the bidirectional view of one snapshot over the internal iterator. */
module DbIter {
  import opened Common
  import opened InternalKey

  // ----- The abstract cursor -----

  /** `i` is the newest entry of its user key that a reader at `s` sees. */
  ghost predicate Top(es: seq<Entry>, s: nat, i: int) {
    && 0 <= i < |es| && Visible(es[i], s)
    && forall j :: 0 <= j < i && es[j].key == es[i].key ==> !Visible(es[j], s)
  }

  ghost predicate Yields(es: seq<Entry>, s: nat, i: int) {
    Top(es, s, i) && es[i].kind == Value
  }

  /** The sorted map that the snapshot `s` of `es` denotes. */
  ghost function View(es: seq<Entry>, s: nat): map<UserKey, string> {
    map i | 0 <= i < |es| && Yields(es, s, i) :: es[i].key := es[i].value
  }

  type Cursor = Option<UserKey>

  datatype Op = SeekToFirst | SeekToLast | Seek(target: UserKey) | Next | Prev

  /** The keys a move may land on. */
  datatype Range = All | AtLeast(bound: UserKey) | Above(bound: UserKey) | Below(bound: UserKey) {
    predicate Has(k: UserKey) {
      match this
      case All => true
      case AtLeast(b) => b <= k
      case Above(b) => b < k
      case Below(b) => k < b
    }
  }

  /** `c` is the least key of the view in the range, or the view has none there. */
  ghost predicate IsLeast(view: map<UserKey, string>, r: Range, c: Cursor) {
    match c
    case None => forall k :: k in view ==> !r.Has(k)
    case Some(x) => x in view && r.Has(x) && forall k :: k in view && r.Has(k) ==> x <= k
  }

  ghost predicate IsGreatest(view: map<UserKey, string>, r: Range, c: Cursor) {
    match c
    case None => forall k :: k in view ==> !r.Has(k)
    case Some(x) => x in view && r.Has(x) && forall k :: k in view && r.Has(k) ==> k <= x
  }

  /** One move of a cursor in a sorted map. */
  ghost predicate Moves(view: map<UserKey, string>, op: Op, c: Cursor, c': Cursor) {
    match op
    case SeekToFirst => IsLeast(view, All, c')
    case SeekToLast => IsGreatest(view, All, c')
    case Seek(t) => IsLeast(view, AtLeast(t), c')
    case Next => c.Some? && IsLeast(view, Above(c.value), c')
    case Prev => c.Some? && IsGreatest(view, Below(c.value), c')
  }

  /** The moves leave no freedom, so tracking them determines the cursor. */
  lemma {:induction false} MovesDeterministic(view: map<UserKey, string>, op: Op, c: Cursor, c1: Cursor, c2: Cursor)
    requires Moves(view, op, c, c1) && Moves(view, op, c, c2)
    ensures c1 == c2
  {
    if c1.Some? && c2.Some? {
      assert c1.value <= c2.value && c2.value <= c1.value;
    }
  }

  /** The moves in the order of the keys: a seek leaves out exactly what is before its target, and one step down undoes
      one step up. */
  lemma {:induction false} MovesInOrder(view: map<UserKey, string>, k: UserKey, c: Cursor)
    ensures Moves(view, Seek(k), None, c) ==>
      (c.Some? ==> k <= c.value) && forall x :: x in view && (c.Some? ==> x < c.value) ==> x < k
    ensures k in view && Moves(view, Next, Some(k), c) ==>
      && (c.Some? ==> k < c.value && Moves(view, Prev, c, Some(k)))
      && (c.None? ==> Moves(view, SeekToLast, None, Some(k)))
    ensures k in view && Moves(view, Prev, Some(k), c) ==>
      && (c.Some? ==> c.value < k && Moves(view, Next, c, Some(k)))
      && (c.None? ==> Moves(view, SeekToFirst, None, Some(k)))
  {
  }

  // ----- The view is the read specification -----

  lemma {:induction false} TopIsNewest(es: seq<Entry>, s: nat, i: int)
    requires Sorted(es) && Top(es, s, i)
    ensures IsNewest(Elements(es), es[i].key, s, es[i])
  {
    forall x | x in es && x.key == es[i].key && Visible(x, s) ensures x.sequence <= es[i].sequence {
      var j :| 0 <= j < |es| && es[j] == x;
      assert !(j < i);
      assert j == i || Before(es[i], es[j]);
    }
  }

  lemma {:induction false} SortedUnique(es: seq<Entry>)
    requires Sorted(es)
    ensures Unique(Elements(es))
  {
    forall i, j | 0 <= i < j < |es| ensures es[i].key != es[j].key || es[i].sequence != es[j].sequence {
      assert Before(es[i], es[j]);
    }
  }

  lemma {:induction false} TopExists(es: seq<Entry>, s: nat, i: nat) returns (t: nat)
    requires i < |es| && Visible(es[i], s)
    ensures t <= i && Top(es, s, t) && es[t].key == es[i].key
    decreases i
  {
    if j: nat :| j < i && es[j].key == es[i].key && Visible(es[j], s) {
      t := TopExists(es, s, j);
    } else {
      t := i;
    }
  }

  lemma {:induction false} ViewAt(es: seq<Entry>, s: nat, i: int)
    requires Sorted(es) && Yields(es, s, i)
    ensures es[i].key in View(es, s) && View(es, s)[es[i].key] == es[i].value
  {
  }

  lemma {:induction false} ViewHas(es: seq<Entry>, s: nat, key: UserKey) returns (i: nat)
    requires key in View(es, s)
    ensures Yields(es, s, i) && es[i].key == key
  {
    i :| 0 <= i < |es| && Yields(es, s, i) && es[i].key == key;
  }

  /** The yielding positions are in key order, so the first in a range is the least. */
  lemma {:induction false} FirstIsLeast(es: seq<Entry>, s: nat, r: Range, c: Option<nat>)
    requires Sorted(es)
    requires c.Some? ==> Yields(es, s, c.value) && r.Has(es[c.value].key)
    requires forall j :: 0 <= j < |es| && (c.Some? ==> j < c.value) && Yields(es, s, j) ==> !r.Has(es[j].key)
    ensures IsLeast(View(es, s), r, if c.Some? then Some(es[c.value].key) else None)
  {
    if c.Some? {
      ViewAt(es, s, c.value);
    }
    forall k | k in View(es, s) && r.Has(k) ensures c.Some? && es[c.value].key <= k {
      var i := ViewHas(es, s, k);
      assert c.Some? && (c.value == i || Before(es[c.value], es[i]));
    }
  }

  lemma {:induction false} LastIsGreatest(es: seq<Entry>, s: nat, r: Range, c: Option<nat>)
    requires Sorted(es)
    requires c.Some? ==> Yields(es, s, c.value) && r.Has(es[c.value].key)
    requires forall j :: 0 <= j < |es| && (c.Some? ==> c.value < j) && Yields(es, s, j) ==> !r.Has(es[j].key)
    ensures IsGreatest(View(es, s), r, if c.Some? then Some(es[c.value].key) else None)
  {
    if c.Some? {
      ViewAt(es, s, c.value);
    }
    forall k | k in View(es, s) && r.Has(k) ensures c.Some? && k <= es[c.value].key {
      var i := ViewHas(es, s, k);
      assert c.Some? && (c.value == i || Before(es[i], es[c.value]));
    }
  }

  /** The view holds a key exactly when a read of the key at the snapshot finds a value. */
  lemma {:induction false} ViewIsRead(es: seq<Entry>, s: nat, key: UserKey)
    requires Sorted(es)
    ensures Read(Elements(es), key, s)
         == if key in View(es, s) then Found(View(es, s)[key]) else NotFound
  {
    var all := Elements(es);
    SortedUnique(es);
    if i: nat :| i < |es| && es[i].key == key && Visible(es[i], s) {
      var t := TopExists(es, s, i);
      TopIsNewest(es, s, t);
      ReadNewest(all, key, s, es[t]);
      if es[t].kind == Value {
        ViewAt(es, s, t);
      }
    } else {
      ReadNothing(all, key, s);
    }
  }

  // ----- The internal iterator -----

  /** An iterator over the merged, sorted entries.  It does not distinguish running off
      the front from running off the back: both leave it invalid. */
  class InternalIterator {
    const entries: seq<Entry>
    var pos: nat

    predicate Wf()
      reads this
    {
      pos <= |entries|
    }

    predicate Valid()
      reads this
    {
      pos < |entries|
    }

    constructor (entries: seq<Entry>)
      ensures this.entries == entries && Wf() && !Valid()
    {
      this.entries := entries;
      pos := |entries|;
    }

    method SeekToFirst()
      modifies this
      ensures Wf() && pos == 0
    {
      pos := 0;
    }

    method SeekToLast()
      modifies this
      ensures Wf() && pos == if |entries| == 0 then 0 else |entries| - 1
    {
      pos := if |entries| == 0 then 0 else |entries| - 1;
    }

    method Next()
      requires Valid()
      modifies this
      ensures Wf() && pos == old(pos) + 1
    {
      pos := pos + 1;
    }

    method Prev()
      requires Valid()
      modifies this
      ensures Wf() && pos == if old(pos) == 0 then |entries| else old(pos) - 1
    {
      pos := if pos == 0 then |entries| else pos - 1;
    }

    /** Position at the first entry at or after `target`. */
    method SeekTo(target: Entry)
      modifies this
      ensures Wf()
      ensures forall i :: 0 <= i < pos ==> Before(entries[i], target)
      ensures Valid() ==> !Before(entries[pos], target)
    {
      pos := 0;
      while pos < |entries| && Before(entries[pos], target)
        invariant Wf()
        invariant forall i :: 0 <= i < pos ==> Before(entries[i], target)
      {
        pos := pos + 1;
      }
    }

    /** Position at the first entry at or after (key, s, kValueTypeForSeek). */
    method Seek(key: UserKey, s: nat)
      modifies this
      ensures Wf()
      ensures forall i :: 0 <= i < pos ==> !AtOrAfter(entries[i], key, s)
      ensures Valid() ==> AtOrAfter(entries[pos], key, s)
    {
      pos := 0;
      while pos < |entries| && !AtOrAfter(entries[pos], key, s)
        invariant Wf()
        invariant forall i :: 0 <= i < pos ==> !AtOrAfter(entries[i], key, s)
      {
        pos := pos + 1;
      }
    }
  }

  // ----- DBIter -----

  /** Moving forward from position `ahead`, the first visible entries met are those of `key`. */
  ghost predicate StandsBefore(es: seq<Entry>, s: nat, ahead: nat, key: UserKey) {
    && (forall i :: 0 <= i < ahead && i < |es| ==> es[i].key < key)
    && (forall i :: ahead <= i < |es| && Visible(es[i], s) ==> key <= es[i].key)
  }

  /** What a backward scan from `start` knows when it has handled every entry after `below`:
      the last visible entry it met, and that it met nothing the view shows beyond that. */
  ghost predicate Scanned(es: seq<Entry>, s: nat, below: int, start: nat, found: bool, top: nat,
                          kind: Kind, savedKey: Option<UserKey>, savedValue: string) {
    && -1 <= below <= start < |es|
    && (!found ==> kind == Deletion)
    && (found ==> below < top <= start && Visible(es[top], s) && kind == es[top].kind)
    && (found && kind == Value ==> savedKey == Some(es[top].key) && savedValue == es[top].value)
    && (forall j :: below < j <= start && (found ==> j < top) ==> !Visible(es[j], s))
    && (forall i :: below < i <= start && !(kind == Value && i == top) ==> !Yields(es, s, i))
  }

  lemma {:induction false} ScanStep(es: seq<Entry>, s: nat, below: nat, start: nat, found: bool, top: nat,
                                    kind: Kind, savedKey: Option<UserKey>, savedValue: string)
    requires Sorted(es) && Scanned(es, s, below, start, found, top, kind, savedKey, savedValue)
    ensures !Visible(es[below], s) ==> Scanned(es, s, below - 1, start, found, top, kind, savedKey, savedValue)
    ensures Visible(es[below], s) && (kind == Deletion || savedKey.value <= es[below].key) ==>
      Scanned(es, s, below - 1, start, true, below, es[below].kind, Some(es[below].key), es[below].value)
    ensures Visible(es[below], s) && (kind == Deletion || savedKey.value <= es[below].key) && es[below].kind == Deletion ==>
      Scanned(es, s, below - 1, start, true, below, Deletion, None, "")
  {
    Around(es, below);
    if Visible(es[below], s) && kind == Value {
      assert es[below].key <= es[top].key;
    }
  }

  /** Where the scan stops, its last find is what the view shows next. */
  lemma {:induction false} ScanEnd(es: seq<Entry>, s: nat, below: int, start: nat, found: bool, top: nat,
                                   kind: Kind, savedKey: Option<UserKey>, savedValue: string)
    requires Sorted(es) && Scanned(es, s, below, start, found, top, kind, savedKey, savedValue)
    requires below >= 0 ==> kind != Deletion && es[below].key < savedKey.value
    ensures kind != Deletion ==> Yields(es, s, top) && StandsBefore(es, s, below + 1, es[top].key)
    ensures forall i :: 0 <= i <= start && Yields(es, s, i) ==> kind != Deletion && i <= top
  {
    if kind != Deletion {
      Around(es, top);
      if below >= 0 {
        Around(es, below);
      }
      forall i | 0 <= i <= start && Yields(es, s, i) ensures i <= top {
        assert i > below ==> i == top;
      }
    }
  }

  datatype Direction = Forward | Reverse

  datatype Status = Ok | Corruption

  /** The corrupt entries from `from` to before `to` were reported. */
  ghost predicate Reported(es: seq<Entry>, status: Status, from: int, to: int) {
    forall i :: 0 <= from <= i < to && i < |es| && es[i].kind == Corrupt ==> status == Corruption
  }

  lemma {:induction false} NoneReported(es: seq<Entry>, status: Status, p: int)
    ensures Reported(es, status, p, p)
  {
  }

  class DBIter {
    const iter: InternalIterator
    const sequence: nat
    var status: Status
    /** None when the source's saved_key_ is cleared or lent to Seek as a scratch buffer. */
    var savedKey: Option<UserKey>
    var savedValue: string
    var direction: Direction
    var valid: bool

    ghost function Entries(): seq<Entry> { iter.entries }

    ghost function TheView(): map<UserKey, string> { View(Entries(), sequence) }

    /** First position the iterator would visit when moving forward. */
    ghost function Ahead(): nat
      reads this, iter
    {
      if iter.Valid() then iter.pos + 1 else 0
    }

    ghost predicate Wf()
      reads this, iter
    {
      && iter.Wf() && Sorted(Entries())
      && (status == Corruption ==> exists e :: e in Entries() && e.kind == Corrupt)
      && (valid && direction == Forward ==>
            iter.Valid() && Yields(Entries(), sequence, iter.pos))
      && (valid && direction == Reverse ==>
            && savedKey.Some?
            && StandsBefore(Entries(), sequence, Ahead(), savedKey.value)
            && savedKey.value in TheView() && TheView()[savedKey.value] == savedValue)
    }

    /** The cursor that the fields stand for. */
    ghost function TheCursor(): Cursor
      reads this, iter
    {
      if !valid then None
      else if direction == Forward then
        if iter.Valid() then Some(Entries()[iter.pos].key) else None
      else savedKey
    }

    constructor (iter: InternalIterator, s: nat)
      requires iter.Wf() && Sorted(iter.entries)
      ensures Wf() && TheCursor() == None && this.iter == iter && sequence == s
    {
      this.iter := iter;
      sequence := s;
      status := Ok;
      savedKey := None;
      savedValue := "";
      direction := Forward;
      valid := false;
    }

    /** While valid, the iterator shows a key and value of the view. */
    method Current() returns (key: UserKey, value: string)
      requires Wf() && valid
      ensures TheCursor() == Some(key)
      ensures key in TheView() && value == TheView()[key]
    {
      if direction == Forward {
        ViewAt(Entries(), sequence, iter.pos);
        key, value := iter.entries[iter.pos].key, iter.entries[iter.pos].value;
      } else {
        key, value := savedKey.value, savedValue;
      }
    }

    /** One more entry before `to`, or from `from` on, is parsed, or reported. */
    method ParseKey(ghost from: nat, ghost to: nat) returns (ok: bool)
      requires Wf0() && iter.Valid()
      modifies this`status
      ensures Wf0()
      ensures ok == (Entries()[iter.pos].kind != Corrupt)
      ensures status == if ok then old(status) else Corruption
      ensures old(Reported(Entries(), status, from, iter.pos)) ==> Reported(Entries(), status, from, iter.pos + 1)
      ensures old(Reported(Entries(), status, iter.pos + 1, to)) ==> Reported(Entries(), status, iter.pos, to)
    {
      ok := iter.entries[iter.pos].kind != Corrupt;
      if !ok {
        status := Corruption;
      }
    }

    /** The part of the invariant that holds in the middle of a move. */
    ghost predicate Wf0()
      reads this, iter
    {
      && iter.Wf() && Sorted(Entries())
      && (status == Corruption ==> exists e :: e in Entries() && e.kind == Corrupt)
    }

    /** Entry `j` is visible and of the same user key as `i`. */
    ghost predicate Overshadows(j: nat, i: nat)
      requires j < |Entries()| && i < |Entries()|
    {
      Visible(Entries()[j], sequence) && Entries()[j].key == Entries()[i].key
    }

    /** Entry `i` is past the key `bound`, if there is one. */
    ghost predicate PastBound(bound: Option<UserKey>, i: int)
      requires 0 <= i < |Entries()|
    {
      bound.Some? ==> bound.value < Entries()[i].key
    }

    lemma {:induction false} NotOvershadowed(i: nat)
      requires i < |Entries()| && Visible(Entries()[i], sequence) && Entries()[i].kind == Value
      requires forall j :: 0 <= j < i ==> !Overshadows(j, i)
      ensures Yields(Entries(), sequence, i)
    {
      forall j | 0 <= j < i && Entries()[j].key == Entries()[i].key ensures !Visible(Entries()[j], sequence) {
        assert !Overshadows(j, i);
      }
    }

    method FindNextUserEntry(skipping0: bool)
      requires Wf0() && iter.Valid() && direction == Forward
      requires skipping0 ==> savedKey.Some?
      requires skipping0 ==>
        forall i :: iter.pos <= i < |Entries()| && Visible(Entries()[i], sequence) ==>
          savedKey.value <= Entries()[i].key
      requires forall j, i :: 0 <= j < iter.pos <= i < |Entries()| && Overshadows(j, i) ==>
        skipping0 && Entries()[i].key <= savedKey.value
      modifies this, iter
      ensures Wf() && direction == Forward
      ensures valid ==>
        && old(iter.pos) <= iter.pos
        && Yields(Entries(), sequence, iter.pos) && PastBound(if skipping0 then old(savedKey) else None, iter.pos)
      ensures var bound := if skipping0 then old(savedKey) else None;
        forall i :: old(iter.pos) <= i < |Entries()| && Yields(Entries(), sequence, i) && PastBound(bound, i) ==>
          valid && iter.pos <= i
      // no corrupt entry is passed in silence
      ensures Reported(Entries(), status, old(iter.pos), if valid then iter.pos else |Entries()|)
      ensures old(status) == Corruption ==> status == Corruption
    {
      hide Reported;
      ghost var bound := if skipping0 then savedKey else None;
      ghost var start := iter.pos;
      NoneReported(Entries(), status, start);
      var skipping := skipping0;
      while true
        invariant Wf0() && direction == Forward && start <= iter.pos < |Entries()|
        invariant skipping ==> savedKey.Some?
        invariant skipping0 ==> skipping && bound.value <= savedKey.value
        invariant skipping ==>
          forall i :: iter.pos <= i < |Entries()| && Visible(Entries()[i], sequence) ==>
            savedKey.value <= Entries()[i].key
        invariant forall j, i :: 0 <= j < iter.pos <= i < |Entries()| && Overshadows(j, i) ==>
          skipping && Entries()[i].key <= savedKey.value
        invariant skipping ==>
          forall i :: iter.pos <= i < |Entries()| && Yields(Entries(), sequence, i) && PastBound(bound, i) ==>
            savedKey.value < Entries()[i].key
        invariant forall i :: start <= i < iter.pos && Yields(Entries(), sequence, i) ==> !PastBound(bound, i)
        invariant Reported(Entries(), status, start, iter.pos) && (old(status) == Corruption ==> status == Corruption)
        decreases |Entries()| - iter.pos
      {
        var e := iter.entries[iter.pos];
        Around(Entries(), iter.pos);
        var ok := ParseKey(start, 0);
        if ok && e.sequence <= sequence {
          match e.kind {
            case Deletion =>
              savedKey := Some(e.key);
              skipping := true;
            case Value =>
              if skipping && e.key <= savedKey.value {
              } else {
                NotOvershadowed(iter.pos);
                valid := true;
                savedKey := None;
                return;
              }
            case Corrupt =>
              assert false;
          }
        }
        assert Yields(Entries(), sequence, iter.pos) ==> !PastBound(bound, iter.pos);
        iter.Next();
        if !iter.Valid() {
          break;
        }
      }
      savedKey := None;
      valid := false;
    }

    /** The backward scan: what the fields hold when it stops, with the kind of its last find. */
    method ScanBack() returns (valueKind: Kind, ghost top: nat)
      requires Wf0() && direction == Reverse && iter.Valid()
      modifies this, iter
      ensures Wf0() && direction == Reverse
      ensures valueKind != Deletion ==>
        && top <= old(iter.pos) && Yields(Entries(), sequence, top)
        && StandsBefore(Entries(), sequence, Ahead(), Entries()[top].key)
        && savedKey == Some(Entries()[top].key) && savedValue == Entries()[top].value
      ensures forall i :: 0 <= i <= old(iter.pos) && Yields(Entries(), sequence, i) ==>
        valueKind != Deletion && i <= top
      ensures Reported(Entries(), status, if iter.Valid() then iter.pos + 1 else 0, old(iter.pos) + 1)
      ensures old(status) == Corruption ==> status == Corruption
    {
      ghost var es, s, start := Entries(), sequence, iter.pos;
      ghost var found := false;  // a visible entry has been met, the last of them at `top`
      top := 0;
      valueKind := Deletion;
      ghost var below: int := start;  // everything after `below` has been scanned
      while true
        invariant Wf0() && direction == Reverse && 0 <= iter.pos == below <= start < |es|
        invariant Scanned(es, s, below, start, found, top, valueKind, savedKey, savedValue)
        invariant Reported(Entries(), status, below + 1, start + 1) && (old(status) == Corruption ==> status == Corruption)
        decreases below
      {
        var e := iter.entries[iter.pos];
        ScanStep(es, s, below, start, found, top, valueKind, savedKey, savedValue);
        var ok := ParseKey(0, start + 1);
        if ok && e.sequence <= sequence {
          if valueKind != Deletion && e.key < savedKey.value {
            break;
          }
          valueKind := e.kind;
          if valueKind == Deletion {
            savedKey := None;
            savedValue := "";
          } else {
            savedKey := Some(e.key);
            savedValue := e.value;
          }
          found, top := true, below;
        }
        below := below - 1;
        iter.Prev();
        if !iter.Valid() {
          break;
        }
      }
      ScanEnd(es, s, below, start, found, top, valueKind, savedKey, savedValue);
    }

    /** Scan back for the greatest key of the view with an entry at or before the iterator;
        `top` is the entry that the view shows for it. */
    method FindPrevUserEntry() returns (ghost top: nat)
      requires Wf0() && direction == Reverse
      modifies this, iter
      ensures Wf()
      ensures valid ==>
        && old(iter.Valid()) && top <= old(iter.pos) && Yields(Entries(), sequence, top)
        && TheCursor() == Some(Entries()[top].key)
      ensures old(iter.Valid()) ==>
        forall i :: 0 <= i <= old(iter.pos) && Yields(Entries(), sequence, i) ==> valid && i <= top
      ensures old(iter.Valid()) ==> Reported(Entries(), status, if iter.Valid() then iter.pos + 1 else 0, old(iter.pos) + 1)
      ensures old(status) == Corruption ==> status == Corruption
    {
      top := 0;
      var valueKind := Deletion;
      if iter.Valid() {
        valueKind, top := ScanBack();
      }
      if valueKind == Deletion {
        valid := false;
        savedKey := None;
        savedValue := "";
        direction := Forward;
      } else {
        valid := true;
        ViewAt(Entries(), sequence, top);
      }
    }

    /** Turn forward if need be, and note the current key as the one to skip past. */
    method PrepareNext()
      requires Wf() && valid
      modifies this, iter
      ensures Wf0() && iter.Valid() && direction == Forward && savedKey.Some? && Some(savedKey.value) == old(TheCursor())
      ensures status == old(status)
      ensures forall i :: 0 <= i < iter.pos ==> Entries()[i].key <= savedKey.value
      ensures forall i :: iter.pos <= i < |Entries()| && Visible(Entries()[i], sequence) ==>
        savedKey.value <= Entries()[i].key
    {
      if direction == Reverse {
        direction := Forward;
        // The iterator is just before the entries of the key, so step onto them.  They
        // exist, so the source's branch for an exhausted iterator is never taken.
        ghost var i := ViewHas(Entries(), sequence, savedKey.value);
        if !iter.Valid() {
          iter.SeekToFirst();
        } else {
          iter.Next();
        }
        assert iter.Valid();
      } else {
        savedKey := Some(iter.entries[iter.pos].key);
        Around(Entries(), iter.pos);
      }
    }

    method Next()
      requires Wf() && valid
      modifies this, iter
      ensures Wf() && Moves(TheView(), Op.Next, old(TheCursor()), TheCursor())
      ensures old(status) == Corruption ==> status == Corruption
    {
      PrepareNext();
      ghost var key := savedKey.value;
      FindNextUserEntry(true);
      FirstIsLeast(Entries(), sequence, Above(key), if valid then Some(iter.pos) else None);
    }

    /** Turn back: onto the last entry with a smaller key, if there is one. */
    method PreparePrev() returns (more: bool)
      requires Wf() && valid && direction == Forward
      modifies this, iter
      ensures Wf0() && status == old(status) && direction == (if more then Reverse else Forward)
      ensures more == iter.Valid() && valid == more
      ensures var key := old(TheCursor()).value;
              && (more ==> Entries()[iter.pos].key < key)
              && forall i :: (if more then iter.pos + 1 else 0) <= i < |Entries()| ==> key <= Entries()[i].key
    {
      ghost var key, start := TheCursor().value, iter.pos;
      savedKey := Some(iter.entries[iter.pos].key);
      Around(Entries(), start);
      while true
        invariant Wf0() && iter.Valid() && iter.pos <= start && savedKey == Some(key) && status == old(status)
        invariant valid && direction == Forward
        invariant forall i :: iter.pos <= i < |Entries()| ==> key <= Entries()[i].key
        decreases iter.pos
      {
        iter.Prev();
        if !iter.Valid() {
          valid := false;
          savedKey := None;
          savedValue := "";
          return false;
        }
        if iter.entries[iter.pos].key < savedKey.value {
          break;
        }
      }
      direction := Reverse;
      more := true;
    }

    method Prev()
      requires Wf() && valid
      modifies this, iter
      ensures Wf() && Moves(TheView(), Op.Prev, old(TheCursor()), TheCursor())
      ensures old(status) == Corruption ==> status == Corruption
    {
      ghost var key := TheCursor().value;
      if direction == Forward {
        var more := PreparePrev();
        if !more {
          LastIsGreatest(Entries(), sequence, Below(key), None);
          return;
        }
      }
      FindBelow(key);
    }

    method FindBelow(ghost key: UserKey)
      requires Wf0() && direction == Reverse
      requires iter.Valid() ==> Entries()[iter.pos].key < key
      requires forall i :: (if iter.Valid() then iter.pos + 1 else 0) <= i < |Entries()| && Visible(Entries()[i], sequence) ==>
        key <= Entries()[i].key
      modifies this, iter
      ensures Wf() && IsGreatest(TheView(), Below(key), TheCursor())
      ensures old(status) == Corruption ==> status == Corruption
    {
      if iter.Valid() {
        Around(Entries(), iter.pos);
      }
      ghost var top := FindPrevUserEntry();
      hide StandsBefore, Reported;
      LastIsGreatest(Entries(), sequence, Below(key), if valid then Some(top) else None);
    }

    method Seek(target: UserKey)
      requires Wf()
      modifies this, iter
      ensures Wf() && Moves(TheView(), Op.Seek(target), old(TheCursor()), TheCursor())
      ensures old(status) == Corruption ==> status == Corruption
    {
      direction := Forward;
      savedValue := "";
      savedKey := None;
      iter.Seek(target, sequence);
      if iter.Valid() {
        Around(Entries(), iter.pos);
        FindNextUserEntry(false);
      } else {
        valid := false;
      }
      FirstIsLeast(Entries(), sequence, AtLeast(target), if valid then Some(iter.pos) else None);
    }

    method SeekToFirst()
      requires Wf()
      modifies this, iter
      ensures Wf() && Moves(TheView(), Op.SeekToFirst, old(TheCursor()), TheCursor())
      ensures old(status) == Corruption ==> status == Corruption
    {
      direction := Forward;
      savedValue := "";
      iter.SeekToFirst();
      if iter.Valid() {
        FindNextUserEntry(false);
      } else {
        valid := false;
      }
      FirstIsLeast(Entries(), sequence, All, if valid then Some(iter.pos) else None);
    }

    method SeekToLast()
      requires Wf()
      modifies this, iter
      ensures Wf() && Moves(TheView(), Op.SeekToLast, old(TheCursor()), TheCursor())
      ensures old(status) == Corruption ==> status == Corruption
    {
      direction := Reverse;
      savedValue := "";
      iter.SeekToLast();
      ghost var top := FindPrevUserEntry();
      LastIsGreatest(Entries(), sequence, All, if valid then Some(top) else None);
    }
  }
}
