/** The iterator over the fields of a message type. */
module PbFields {
  import opened PbWire

  /** How many fields before the `n`-th one are required. */
  function RequiredBefore(fields: seq<Field>, n: nat): (k: nat)
    requires n <= |fields|
    ensures k <= n
  {
    if n == 0 then 0 else RequiredBefore(fields, n - 1) + if fields[n - 1].rule.Required? then 1 else 0
  }

  predicate HasTag(fields: seq<Field>, i: nat, tag: nat)
    requires i < |fields|
  {
    fields[i].tag == tag
  }

  class FieldIter {
    const fields: seq<Field>
    var pos: nat
    /** The number of required fields before the position. */
    var requiredFieldIndex: nat

    ghost predicate Valid()
      reads this
    {
      && (pos < |fields| || (fields == [] && pos == 0))
      && requiredFieldIndex == RequiredBefore(fields, pos)
    }

    /** pb_field_iter_begin. */
    constructor (fields: seq<Field>)
      ensures Valid() && this.fields == fields && pos == 0
    {
      this.fields, pos, requiredFieldIndex := fields, 0, 0;
    }

    /** pb_field_iter_next: past the last field it is back at the first one. */
    method Next() returns (more: bool)
      requires Valid()
      modifies this
      ensures Valid() && more == (old(pos) + 1 < |fields|) && pos == if more then old(pos) + 1 else 0
    {
      if |fields| == 0 {
        return false;
      }
      var previous := fields[pos];
      pos := pos + 1;
      if pos == |fields| {
        pos, requiredFieldIndex := 0, 0;
        return false;
      }
      if previous.rule.Required? {
        requiredFieldIndex := requiredFieldIndex + 1;
      }
      more := true;
    }

    /** pb_field_iter_find: once around from the position.  A message type without fields ends in a field with tag 0. */
    method Find(tag: nat) returns (found: bool)
      requires Valid()
      modifies this
      ensures Valid()
      ensures fields == [] ==> found == (tag == 0)
      ensures fields != [] ==> (found <==> exists i :: 0 <= i < |fields| && HasTag(fields, i, tag))
      ensures fields != [] && found ==> HasTag(fields, pos, tag)
    {
      if |fields| == 0 {
        return tag == 0;
      }
      var start, around := pos, false;
      while true
        invariant Valid() && (if around then pos < start else start <= pos)
        invariant forall i :: start <= i < (if around then |fields| else pos) ==> !HasTag(fields, i, tag)
        invariant around ==> forall i :: 0 <= i < pos ==> !HasTag(fields, i, tag)
        decreases if around then start - pos else |fields| - pos + start
      {
        if HasTag(fields, pos, tag) {
          return true;
        }
        var more := Next();
        if pos == start {
          break;
        }
        around := around || !more;
      }
      found := false;
    }
  }
}
