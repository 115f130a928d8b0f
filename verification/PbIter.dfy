/** The field iterator of pb_common.c. */
module PbIter {
  import opened Bytes
  import opened PbTypes

  /** pb_field_iter_t over a table; offsets stand for the pointers into the struct. */
  class FieldIter {
    const fields: seq<Field>
    var pos: nat
    var requiredFieldIndex: nat
    var dataOffset: nat
    var sizeOffset: int

    /** Everything but the position is a function of the position, whatever moves led there. The
        terminator is the position only of an empty table. */
    ghost predicate Valid()
      reads this
    {
      && (pos < |fields| || (fields == [] && pos == 0))
      && requiredFieldIndex == RequiredBefore(fields, pos)
      && (pos < |fields| ==> dataOffset == DataOffset(fields, pos) && sizeOffset == SizeOffset(fields, pos))
    }

    constructor (fields: seq<Field>)
      ensures Valid() && this.fields == fields && pos == 0
    {
      this.fields := fields;
      pos, requiredFieldIndex := 0, 0;
      dataOffset := if fields == [] then 0 else fields[0].dataOffset;
      sizeOffset := if fields == [] then 0 else fields[0].dataOffset + fields[0].sizeOffset;
    }

    /** pb_field_iter_begin */
    method Begin() returns (nonempty: bool)
      modifies this
      ensures Valid() && pos == 0
      ensures nonempty <==> fields != []
    {
      pos, requiredFieldIndex := 0, 0;
      if fields == [] {
        dataOffset, sizeOffset := 0, 0;
        return false;
      }
      dataOffset := fields[0].dataOffset;
      sizeOffset := dataOffset + fields[0].sizeOffset;
      return true;
    }

    /** pb_field_iter_next: one entry on, wrapping to the first after the last. */
    method Next() returns (more: bool)
      requires Valid()
      modifies this
      ensures Valid()
      ensures more <==> old(pos) + 1 < |fields|
      ensures pos == if old(pos) + 1 < |fields| then old(pos) + 1 else 0
    {
      if fields == [] {
        return false;
      }
      var prev := fields[pos];
      pos := pos + 1;
      if pos == |fields| {
        var _ := Begin();
        return false;
      }
      var f := fields[pos];
      var prevSize := prev.dataSize;
      if prev.htype.OneOf? && f.htype.OneOf? && f.dataOffset == PB_SIZE_MAX {
        return true;
      } else if prev.htype.Repeated? {
        prevSize := prevSize * prev.arraySize;
      }
      if prev.htype.Required? {
        requiredFieldIndex := requiredFieldIndex + 1;
      }
      dataOffset := dataOffset + prevSize + f.dataOffset;
      sizeOffset := dataOffset + f.sizeOffset;
      return true;
    }

    /** pb_field_iter_find: finds a tag from any starting position exactly when a lookup of the table
        from its start does, and where tags are distinct it finds the same entry. A failed search comes
        back to where it began. On an empty table the terminator answers to tag 0. */
    method Find(tag: nat) returns (found: bool)
      requires Valid()
      modifies this
      ensures Valid()
      ensures fields != [] ==> (found <==> IndexOf(fields, 0, tag).Some?)
      ensures fields != [] && found ==> Matches(fields[pos], tag)
      ensures fields != [] && found && DistinctTags(fields) ==> pos == IndexOf(fields, 0, tag).value
      ensures fields == [] ==> (found <==> tag == 0)
      ensures !found ==> pos == old(pos)
    {
      if fields == [] {
        return tag == 0;
      }
      var start := pos;
      while true
        invariant Valid()
        invariant pos < |fields| && start < |fields| && start == old(pos)
        invariant start <= pos ==> forall i :: start <= i < pos ==> !Matches(fields[i], tag)
        invariant pos < start ==> forall i :: 0 <= i < pos || start <= i < |fields| ==> !Matches(fields[i], tag)
        decreases if start <= pos then start + |fields| - pos else start - pos
      {
        if Matches(fields[pos], tag) {
          return true;
        }
        var _ := Next();
        if pos == start {
          return false;
        }
      }
    }
  }
}
