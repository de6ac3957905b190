/** Entries of the store, the order in which every layer keeps them, and the
    specification of a read.

    A user key enters the store only through the user comparator, so a key is
    represented by its rank in that comparator's total order. */
module InternalKey {

  type UserKey = int

  /** `Corrupt` stands for a type byte that ParseInternalKey rejects. */
  datatype Kind = Deletion | Value | Corrupt

  datatype Entry = Entry(key: UserKey, sequence: nat, kind: Kind, value: string)

  function TypeByte(kind: Kind): nat {
    match kind
    case Deletion => 0
    case Value => 1
    case Corrupt => 2
  }

  /** The 64-bit tag of an internal key: sequence number, then type byte. */
  function Tag(e: Entry): nat {
    e.sequence * 256 + TypeByte(e.kind)
  }

  /** Sequence numbers have 56 bits, so that tags have 64. */
  lemma {:induction false} TagsHave64Bits(e: Entry)
    ensures Tag(e) < 0x1_0000_0000_0000_0000 <==> e.sequence < 0x100_0000_0000_0000
    ensures e.kind == Deletion ==> Tag(e) == 256 * e.sequence
    ensures e.kind == Value ==> Tag(e) == 256 * e.sequence + 1
  {
  }

  /** The strict order of the internal comparator on entries: user keys ascend and,
      within a user key, sequence numbers descend.  Two entries of one user key never
      have the same sequence number, so the type byte decides nothing. */
  predicate Before(a: Entry, b: Entry) {
    a.key < b.key || (a.key == b.key && a.sequence > b.sequence)
  }

  predicate Sorted(es: seq<Entry>) {
    forall i, j {:trigger Before(es[i], es[j])} :: 0 <= i < j < |es| ==> Before(es[i], es[j])
  }

  /** The order seen from one position. */
  lemma {:induction false} Around(es: seq<Entry>, p: nat)
    requires Sorted(es) && p < |es|
    ensures forall i :: 0 <= i < p ==> Before(es[i], es[p])
    ensures forall i :: p < i < |es| ==> Before(es[p], es[i])
  {
  }

  /** At or after the lookup key (key, s, kValueTypeForSeek) in the internal order. */
  predicate AtOrAfter(e: Entry, key: UserKey, s: nat) {
    e.key > key || (e.key == key && Tag(e) <= s * 256 + TypeByte(Value))
  }

  /** A reader at sequence `s` takes this entry into account. */
  predicate Visible(e: Entry, s: nat) {
    e.kind != Corrupt && e.sequence <= s
  }

  function Elements(es: seq<Entry>): set<Entry> {
    set e | e in es
  }

  // ----- The specification of a read -----

  datatype Lookup = Found(value: string) | NotFound

  /** `e` is the newest entry of `key` that a reader at `s` sees in `es`. */
  ghost predicate IsNewest(es: set<Entry>, key: UserKey, s: nat, e: Entry) {
    && e in es && e.key == key && Visible(e, s)
    && forall x :: x in es && x.key == key && Visible(x, s) ==> x.sequence <= e.sequence
  }

  /** No two entries of a user key have the same sequence number. */
  ghost predicate Unique(es: set<Entry>) {
    forall a, b :: a in es && b in es && a.key == b.key && a.sequence == b.sequence ==> a == b
  }

  function Outcome(e: Entry): Lookup {
    if e.kind == Value then Found(e.value) else NotFound
  }

  /** What a reader at `s` must get for `key`. */
  ghost function Read(es: set<Entry>, key: UserKey, s: nat): Lookup {
    if exists e :: IsNewest(es, key, s, e) then
      var e :| IsNewest(es, key, s, e);
      Outcome(e)
    else
      NotFound
  }

  lemma {:induction false} ReadNewest(es: set<Entry>, key: UserKey, s: nat, e: Entry)
    requires Unique(es) && IsNewest(es, key, s, e)
    ensures Read(es, key, s) == Outcome(e)
  {
    forall x | IsNewest(es, key, s, x) ensures x == e {
      assert x.sequence <= e.sequence <= x.sequence;
    }
  }

  lemma {:induction false} ReadNothing(es: set<Entry>, key: UserKey, s: nat)
    requires forall x :: x in es && x.key == key ==> !Visible(x, s)
    ensures Read(es, key, s) == NotFound
  {
  }

  /** If anything is visible then something is newest. */
  lemma {:induction false} NewestExists(es: set<Entry>, key: UserKey, s: nat, w: Entry)
    requires w in es && w.key == key && Visible(w, s)
    ensures exists e :: IsNewest(es, key, s, e)
    decreases es
  {
    if x :| x in es && x.key == key && Visible(x, s) && x.sequence > w.sequence {
      var smaller := es - {w};
      NewestExists(smaller, key, s, x);
      var e :| IsNewest(smaller, key, s, e);
      assert IsNewest(es, key, s, e);
    } else {
      assert IsNewest(es, key, s, w);
    }
  }
}
