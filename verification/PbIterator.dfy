/**
The descriptor iterator of `pb_common.c`: a position in the field array together with byte
offsets into the struct, kept in step by adding sizes field by field.

`Valid` says that everything the iterator holds is a function of its position alone, namely what
a fresh walk from the first field would hold there; every operation keeps it.
*/
module PbIterator {
  import opened PbDescriptor

  /** Bytes of the struct that field `f` takes up. */
  function EntrySize(f: Field): nat
  {
    if f.htype.Repeated? then f.dataSize * f.arraySize else f.dataSize
  }

  /** Offset of the data of field `i`, as a walk from the first field computes it. */
  function DataAt(fields: seq<Field>, i: nat): int
    requires i < |fields|
  {
    if i == 0 then fields[0].dataOffset
    else if InUnion(fields, i) then DataAt(fields, i - 1)
    else DataAt(fields, i - 1) + EntrySize(fields[i - 1]) + fields[i].dataOffset
  }

  /** Offset of the `has_`, `_count` or `which_` member of field `i`. */
  function SizeAt(fields: seq<Field>, i: nat): int
    requires i < |fields|
  {
    if InUnion(fields, i) then SizeAt(fields, i - 1) else DataAt(fields, i) + fields[i].sizeOffset
  }

  class FieldIter {
    const fields: seq<Field>
    var pos: nat
    // byte offsets of pData and pSize from the start of the struct
    var pData: int
    var pSize: int
    var requiredFieldIndex: nat
    // the slot that the memory at pData belongs to
    var slot: nat

    /** All state agrees with a fresh walk to `pos`; position 0 of an empty descriptor is its terminator. */
    ghost predicate Valid()
      reads this
    {
      if fields == [] then pos == 0 && pData == 0 && pSize == 0 && requiredFieldIndex == 0 && slot == 0
      else
        && pos < |fields|
        && pData == DataAt(fields, pos)
        && pSize == SizeAt(fields, pos)
        && requiredFieldIndex == RequiredBefore(fields, pos)
        && slot == Leader(fields, pos)
    }

    /** The tag at the current position; 0 is the terminator's. */
    function CurrentTag(): nat
      reads this
    {
      if pos < |fields| then fields[pos].tag else 0
    }

    constructor (fields: seq<Field>)
      ensures Valid() && this.fields == fields && pos == 0
    {
      this.fields := fields;
      new;
      Begin();
    }

    /** `pb_field_iter_begin` on the same struct. */
    method Begin()
      modifies this
      ensures Valid() && pos == 0
    {
      pos := 0;
      requiredFieldIndex := 0;
      slot := 0;
      pData := if fields == [] then 0 else fields[0].dataOffset;
      pSize := pData + if fields == [] then 0 else fields[0].sizeOffset;
    }

    /** `pb_field_iter_next`: one step, or back to the start and false. */
    method Next() returns (more: bool)
      requires Valid()
      modifies this
      ensures Valid()
      ensures more == (old(pos) + 1 < |fields|)
      ensures pos == if more then old(pos) + 1 else 0
    {
      if fields == [] {
        return false;
      }
      var prev := fields[pos];
      pos := pos + 1;
      if pos == |fields| {
        Begin();
        return false;
      }
      var field := fields[pos];
      var prevSize := prev.dataSize;
      if prev.htype.OneOf? && field.htype.OneOf? && field.dataOffset == SIZE_MAX {
        return true;
      } else if prev.htype.Repeated? {
        prevSize := prevSize * prev.arraySize;
      }
      if prev.htype.Required? {
        requiredFieldIndex := requiredFieldIndex + 1;
      }
      slot := pos;
      pData := pData + prevSize + field.dataOffset;
      pSize := pData + field.sizeOffset;
      return true;
    }

    /**
    `pb_field_iter_find`: searches forward from the current field, wrapping round once. It stops
    at a field with this tag if there is one, and otherwise where it started, in the same state.
    (In an empty descriptor tag 0 is that of the terminator.)
    */
    method Find(tag: nat) returns (found: bool)
      requires Valid()
      modifies this
      ensures Valid()
      ensures found <==> (fields == [] && tag == 0) || exists i :: 0 <= i < |fields| && fields[i].tag == tag
      ensures found ==> CurrentTag() == tag
      ensures !found ==> (pos == old(pos) && pData == old(pData) && pSize == old(pSize) &&
                          requiredFieldIndex == old(requiredFieldIndex) && slot == old(slot))
    {
      var start := pos;
      if CurrentTag() == tag {
        return true;
      }
      var more := Next();
      while pos != start
        invariant Valid() && start == old(pos) && (fields == [] ==> pos == start)
        invariant pos > start ==> forall i :: start <= i < pos ==> fields[i].tag != tag
        invariant pos <= start ==> forall i :: 0 <= i < pos || start <= i < |fields| ==> fields[i].tag != tag
        decreases if pos > start then |fields| - pos + start + 1 else start - pos
      {
        if CurrentTag() == tag {
          return true;
        }
        more := Next();
      }
      return false;
    }
  }

  /** With distinct tags a successful search stops at the one field with the tag, from wherever it began. */
  lemma FoundIsIndexOf(fields: seq<Field>, tag: nat, pos: nat)
    requires forall i, j :: 0 <= i < j < |fields| ==> fields[i].tag != fields[j].tag
    requires pos < |fields| && fields[pos].tag == tag
    ensures IndexOf(fields, tag) == pos
  {
    var k := IndexOf(fields, tag);
    if k > pos { assert false; }
  }

  // ---- the offsets are those of the C struct ----

  /** Where a struct lays out its fields: `data[i]` and `size[i]` are member offsets. */
  datatype Layout = Layout(data: seq<nat>, size: seq<nat>)

  /**
  How the descriptor macros derive offsets from a struct: the first from its start, the others from
  the end of the field before, except that later union members carry `SIZE_MAX`; sizes from the data.
  */
  predicate DescribesLayout(fields: seq<Field>, l: Layout)
  {
    && |l.data| == |l.size| == |fields|
    && (forall i :: 0 <= i < |fields| ==> l.size[i] == l.data[i] + fields[i].sizeOffset)
    && (|fields| > 0 ==> fields[0].dataOffset == l.data[0])
    && forall i :: 0 < i < |fields| ==>
         if InUnion(fields, i) then l.data[i] == l.data[i - 1] && l.size[i] == l.size[i - 1]
         else fields[i].dataOffset == l.data[i] - (l.data[i - 1] + EntrySize(fields[i - 1]))
  }

  /** The walk reaches every member of the struct where the compiler put it. */
  lemma {:induction false} WalkFollowsLayout(fields: seq<Field>, l: Layout, i: nat)
    requires DescribesLayout(fields, l) && i < |fields|
    ensures DataAt(fields, i) == l.data[i] && SizeAt(fields, i) == l.size[i]
    decreases i
  {
    if i > 0 { WalkFollowsLayout(fields, l, i - 1); }
  }
}
