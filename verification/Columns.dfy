/**
  Column values: fixed-width leaf columns and array columns nested to any depth, as flat data with offsets
  (clickhouse/columns/array.cpp, numeric.cpp, bool.cpp). The meaning of a column is its sequence of rows.
 */
module Columns {
  import opened Optional
  import opened Sequences
  import opened WireFormat

  /** Leaf types have a cell width and an optional prefix that precedes the body on the wire. */
  datatype Type = Bool | UInt8 | Leaf(code: nat, width: nat, prefix: seq<byte>) | Array(item: Type)

  function Width(t: Type): nat {
    if t.Leaf? then t.width else 1
  }

  type Cell = seq<byte>

  datatype Column = Vector(leaf: Type, cells: seq<Cell>) | Nested(data: Column, offsets: seq<nat>)

  function TypeOf(c: Column): Type {
    match c case Vector(t, _) => t case Nested(d, _) => Array(TypeOf(d))
  }

  function Size(c: Column): nat {
    match c case Vector(_, cells) => |cells| case Nested(_, offsets) => |offsets|
  }

  function Empty(t: Type): (c: Column)
    ensures Size(c) == 0 && Valid(c) && TypeOf(c) == t
  {
    match t case Array(item) => Nested(Empty(item), []) case _ => Vector(t, [])
  }

  predicate Monotone(offsets: seq<nat>) {
    forall i, j :: 0 <= i <= j < |offsets| ==> offsets[i] <= offsets[j]
  }

  /** Where row n starts in the flat data. */
  function Offset(offsets: seq<nat>, n: nat): nat
    requires n <= |offsets|
  {
    if n == 0 then 0 else offsets[n - 1]
  }

  predicate Valid(c: Column) {
    match c
    case Vector(t, cells) => !t.Array? && forall i :: 0 <= i < |cells| ==> |cells[i]| == Width(t)
    case Nested(d, offsets) => Valid(d) && Monotone(offsets) && Offset(offsets, |offsets|) == Size(d)
  }

  // ----- what a column means -----

  datatype Item = Scalar(cell: Cell) | List(items: seq<Item>)

  function Meaning(c: Column): (items: seq<Item>)
    requires Valid(c)
    ensures |items| == Size(c)
  {
    match c
    case Vector(_, cells) => seq(|cells|, i requires 0 <= i < |cells| => Scalar(cells[i]))
    case Nested(d, offsets) => Cut(Meaning(d), offsets)
  }

  /** The flat items cut into lists at the offsets. */
  function Cut(flat: seq<Item>, offsets: seq<nat>): (lists: seq<Item>)
    requires Monotone(offsets) && Offset(offsets, |offsets|) <= |flat|
    ensures |lists| == |offsets|
    ensures forall i :: 0 <= i < |offsets| ==> lists[i] == List(flat[Offset(offsets, i)..Offset(offsets, i + 1)])
  {
    seq(|offsets|, i requires 0 <= i < |offsets| => List(flat[Offset(offsets, i)..Offset(offsets, i + 1)]))
  }

  // ----- slicing -----

  /** Offsets of the rows begin..begin + size, rebased to zero. */
  function Rebased(offsets: seq<nat>, begin: nat, size: nat): (r: seq<nat>)
    requires begin + size <= |offsets| && Monotone(offsets)
    ensures |r| == size && Monotone(r)
    ensures forall i :: 0 <= i < size ==> r[i] == offsets[begin + i] - Offset(offsets, begin)
    ensures Offset(r, size) == Offset(offsets, begin + size) - Offset(offsets, begin)
  {
    if size == 0 then [] else Rebased(offsets, begin, size - 1) + [offsets[begin + size - 1] - Offset(offsets, begin)]
  }

  /** A slice, or None where the original throws. Leaf columns clip the range, array columns refuse a bad one. */
  function Slice(c: Column, begin: nat, size: nat): (r: Option<Column>)
    requires Valid(c)
  {
    match c
    case Vector(t, cells) =>
      if begin < |cells| then Some(Vector(t, cells[begin..if begin + size < |cells| then begin + size else |cells|]))
      else Some(Vector(t, []))
    case Nested(d, offsets) =>
      if begin + size > |offsets| then None
      else
        match Slice(d, Offset(offsets, begin), Offset(offsets, begin + size) - Offset(offsets, begin))
        case Some(part) => Some(Nested(part, Rebased(offsets, begin, size)))
        case None => None
  }

  lemma OffsetsOrdered(offsets: seq<nat>, i: nat, j: nat)
    requires Monotone(offsets) && i <= j <= |offsets|
    ensures Offset(offsets, i) <= Offset(offsets, j)
  {
  }

  /** Row i of a range, in the flat range and in the whole. */
  lemma RangeRow(flat: seq<Item>, offsets: seq<nat>, begin: nat, r: seq<nat>, i: nat)
    requires Monotone(offsets) && Offset(offsets, |offsets|) <= |flat| && i < |r| && begin + |r| <= |offsets|
    requires forall k :: 0 <= k < |r| ==> r[k] == offsets[begin + k] - Offset(offsets, begin)
    ensures var from, to := Offset(offsets, begin), Offset(offsets, begin + |r|);
            && from <= to <= |flat| && Offset(r, i) <= Offset(r, i + 1) <= to - from
            && Offset(offsets, begin + i) <= Offset(offsets, begin + i + 1) <= |flat|
            && flat[from..to][Offset(r, i)..Offset(r, i + 1)] ==
                flat[Offset(offsets, begin + i)..Offset(offsets, begin + i + 1)]
  {
    OffsetsOrdered(offsets, begin, begin + i);
    OffsetsOrdered(offsets, begin + i, begin + i + 1);
    OffsetsOrdered(offsets, begin + i + 1, begin + |r|);
    OffsetsOrdered(offsets, begin + |r|, |offsets|);
    var from, to := Offset(offsets, begin), Offset(offsets, begin + |r|);
    assert Offset(offsets, begin + i) == from + Offset(r, i);
    assert Offset(offsets, begin + i + 1) == from + Offset(r, i + 1);
    SliceOfSlice(flat, from, to, Offset(r, i), Offset(r, i + 1));
  }

  /** Cutting a range of the flat items at rebased offsets gives the range of lists. */
  lemma CutSlice(flat: seq<Item>, offsets: seq<nat>, begin: nat, size: nat)
    requires Monotone(offsets) && Offset(offsets, |offsets|) <= |flat| && begin + size <= |offsets|
    ensures var from, to := Offset(offsets, begin), Offset(offsets, begin + size);
            && from <= to <= |flat|
            && Cut(flat[from..to], Rebased(offsets, begin, size)) == Cut(flat, offsets)[begin..begin + size]
  {
    hide Offset, Monotone, Rebased;
    var from, to, r := Offset(offsets, begin), Offset(offsets, begin + size), Rebased(offsets, begin, size);
    OffsetsOrdered(offsets, begin, begin + size);
    OffsetsOrdered(offsets, begin + size, |offsets|);
    forall i | 0 <= i < size
      ensures Cut(flat[from..to], r)[i] == Cut(flat, offsets)[begin + i]
    {
      RangeRow(flat, offsets, begin, r, i);
    }
  }

  /** s holds exactly the rows begin..begin + size of c, and its offsets fit its data. */
  ghost predicate IsSlice(c: Column, begin: nat, size: nat, s: Column)
    requires Valid(c) && begin + size <= Size(c)
  {
    Valid(s) && TypeOf(s) == TypeOf(c) && Meaning(s) == Meaning(c)[begin..begin + size]
  }

  lemma VectorSlice(t: Type, cells: seq<Cell>, begin: nat, size: nat)
    requires Valid(Vector(t, cells)) && begin + size <= |cells|
    ensures Slice(Vector(t, cells), begin, size) == Some(Vector(t, cells[begin..begin + size]))
    ensures IsSlice(Vector(t, cells), begin, size, Vector(t, cells[begin..begin + size]))
  {
    if begin == |cells| {
      assert cells[begin..begin + size] == [];
    }
  }

  /** A leaf column cuts a range that reaches past its end down to what there is. */
  lemma VectorSliceClips(t: Type, cells: seq<Cell>, begin: nat, size: nat)
    requires Valid(Vector(t, cells)) && begin + size > |cells|
    ensures Slice(Vector(t, cells), begin, size) == Some(Vector(t, cells[if begin < |cells| then begin else |cells|..]))
  {
    assert cells[|cells|..] == [] && cells[..|cells|] == cells;
  }

  lemma NestedSlice(d: Column, offsets: seq<nat>, begin: nat, size: nat, part: Column)
    requires Valid(Nested(d, offsets)) && begin + size <= |offsets|
    requires var from, to := Offset(offsets, begin), Offset(offsets, begin + size);
             from <= to <= Size(d) && IsSlice(d, from, to - from, part)
    ensures IsSlice(Nested(d, offsets), begin, size, Nested(part, Rebased(offsets, begin, size)))
  {
    CutSlice(Meaning(d), offsets, begin, size);
  }

  lemma {:induction false} SliceMeaning(c: Column, begin: nat, size: nat)
    requires Valid(c) && begin + size <= Size(c)
    ensures Slice(c, begin, size).Some? && IsSlice(c, begin, size, Slice(c, begin, size).value)
    decreases c
  {
    hide Offset, Monotone, Rebased, Meaning, IsSlice;
    match c
    case Vector(t, cells) =>
      VectorSlice(t, cells, begin, size);
    case Nested(d, offsets) =>
      var from, to := Offset(offsets, begin), Offset(offsets, begin + size);
      OffsetsOrdered(offsets, begin, begin + size);
      OffsetsOrdered(offsets, begin + size, |offsets|);
      SliceMeaning(d, from, to - from);
      var part := Slice(d, from, to - from).value;
      NestedSlice(d, offsets, begin, size, part);
      assert Slice(c, begin, size) == Some(Nested(part, Rebased(offsets, begin, size)));
  }

  // ----- row n as a column -----

  function RowColumn(c: Column, n: nat): (r: Column)
    requires Valid(c) && c.Nested? && n < Size(c)
    ensures Valid(r) && TypeOf(r) == TypeOf(c.data) && List(Meaning(r)) == Meaning(c)[n]
  {
    RowFacts(c, n);
    var from, to := Offset(c.offsets, n), Offset(c.offsets, n + 1);
    Slice(c.data, from, to - from).value
  }

  /** Row n is the slice of the data between its two offsets. */
  lemma RowFacts(c: Column, n: nat)
    requires Valid(c) && c.Nested? && n < Size(c)
    ensures var from, to := Offset(c.offsets, n), Offset(c.offsets, n + 1);
            && from <= to <= Size(c.data)
            && var r := Slice(c.data, from, to - from);
            r.Some? && Valid(r.value) && TypeOf(r.value) == TypeOf(c.data) && List(Meaning(r.value)) == Meaning(c)[n]
  {
    hide Slice, Monotone;
    var from, to := Offset(c.offsets, n), Offset(c.offsets, n + 1);
    OffsetsOrdered(c.offsets, n, n + 1);
    OffsetsOrdered(c.offsets, n + 1, |c.offsets|);
    SliceMeaning(c.data, from, to - from);
  }

  // ----- appending -----

  /** The type below all array levels. */
  function LeafOf(t: Type): Type {
    if t.Array? then LeafOf(t.item) else t
  }

  function ArrayOf(t: Type, depth: nat): Type {
    if depth == 0 then t else Array(ArrayOf(t, depth - 1))
  }

  predicate CanAppendType(destination: Type, source: Type) {
    destination == source ||
    match destination
    case Array(item) => source.Array? && CanAppendType(item, source.item)
    case Bool => source == UInt8
    case _ => false
  }

  /** One type takes another exactly if they have the same array depth and equal leaves, or Bool over UInt8. */
  lemma {:induction false} CanAppendExactly(destination: Type, source: Type)
    ensures CanAppendType(destination, source) <==>
              && Depth(destination) == Depth(source)
              && (LeafOf(destination) == LeafOf(source) || (LeafOf(destination) == Bool && LeafOf(source) == UInt8))
    decreases destination
  {
    if destination.Array? && source.Array? {
      CanAppendExactly(destination.item, source.item);
      SameShape(destination.item, source.item);
    } else {
      SameShape(destination, source);
    }
  }

  /** Depth and leaf make the type. */
  lemma {:induction false} SameShape(a: Type, b: Type)
    ensures a == b <==> Depth(a) == Depth(b) && LeafOf(a) == LeafOf(b)
    decreases a
  {
    if a.Array? && b.Array? { SameShape(a.item, b.item); }
  }

  /** At every depth an array of Bool takes one of UInt8, and not the other way round. */
  lemma {:induction false} BoolFromUInt8(depth: nat)
    ensures CanAppendType(ArrayOf(Bool, depth), ArrayOf(UInt8, depth))
    ensures !CanAppendType(ArrayOf(UInt8, depth), ArrayOf(Bool, depth))
  {
    if depth != 0 { BoolFromUInt8(depth - 1); }
  }

  /** A mutation that ran to its end, or that threw and left the column as it was at that moment. */
  datatype Step = Done(column: Column) | Threw(column: Column)

  ghost function Depth(t: Type): nat {
    if t.Array? then 1 + Depth(t.item) else 0
  }

  /** Appends the content of a column; a leaf column ignores a column it cannot cast. */
  function Append(dst: Column, src: Column): (r: Step)
    requires Valid(dst) && Valid(src)
    ensures Valid(r.column) && TypeOf(r.column) == TypeOf(dst)
    ensures r.Threw? ==> r.column == dst
    ensures CanAppendType(TypeOf(dst), TypeOf(src)) ==> r.Done? && Meaning(r.column) == Meaning(dst) + Meaning(src)
    ensures !CanAppendType(TypeOf(dst), TypeOf(src)) && (dst.Vector? || src.Vector?) ==> r == Done(dst)
    decreases Depth(TypeOf(dst)), 1, 0
  {
    match dst
    case Vector(t, cells) =>
      if src.Vector? && (src.leaf == t || (t == Bool && src.leaf == UInt8)) then Done(Vector(t, cells + src.cells))
      else Done(dst)
    case Nested(_, _) =>
      if src.Nested? then AppendRows(dst, src, 0) else Done(dst)
  }

  lemma RowsFrom(rows: seq<Item>, i: nat)
    requires i < |rows|
    ensures forall s: seq<Item> :: (s + [rows[i]]) + rows[i + 1..] == s + rows[i..]
  {
    assert [rows[i]] + rows[i + 1..] == rows[i..];
  }

  /** The loop of ColumnArray::Append from row i on. */
  function AppendRows(dst: Column, src: Column, i: nat): (r: Step)
    requires Valid(dst) && Valid(src) && dst.Nested? && src.Nested? && i <= Size(src)
    ensures Valid(r.column) && TypeOf(r.column) == TypeOf(dst)
    ensures r.Threw? ==> r.column == dst
    ensures r.Threw? <==> i < Size(src) && !CanAppendType(TypeOf(dst.data), TypeOf(src.data))
    ensures r.Done? ==> Meaning(r.column) == Meaning(dst) + Meaning(src)[i..]
    decreases Depth(TypeOf(dst)), 0, Size(src) - i
  {
    if i == Size(src) then Done(dst)
    else
      hide Meaning;
      RowsFrom(Meaning(src), i);
      match AppendAsColumn(dst, RowColumn(src, i))
      case Threw(c) => Threw(c)
      case Done(c) => AppendRows(c, src, i + 1)
  }

  /** Appends a column as one row. */
  function AppendAsColumn(dst: Column, row: Column): (r: Step)
    requires Valid(dst) && Valid(row) && dst.Nested?
    ensures Valid(r.column) && TypeOf(r.column) == TypeOf(dst)
    ensures r.Threw? <==> !CanAppendType(TypeOf(dst.data), TypeOf(row))
    ensures r.Threw? ==> r.column == dst
    ensures r.Done? ==> Meaning(r.column) == Meaning(dst) + [List(Meaning(row))]
    decreases Depth(TypeOf(dst)), 0, 0
  {
    if !CanAppendType(TypeOf(dst.data), TypeOf(row)) then Threw(dst)
    else
      match Append(dst.data, row)
      case Threw(_) => assert false; Threw(dst)
      case Done(d) => Done(WithRow(dst, d, row))
  }

  /** Adds the offset of a row that has been appended to the flat data. */
  function WithRow(dst: Column, now: Column, row: Column): (r: Column)
    requires Valid(dst) && dst.Nested? && Valid(now) && Valid(row)
    requires Meaning(now) == Meaning(dst.data) + Meaning(row)
    ensures Valid(r) && r.Nested? && r.data == now
    ensures Meaning(r) == Meaning(dst) + [List(Meaning(row))]
  {
    var more := dst.offsets + [Offset(dst.offsets, |dst.offsets|) + Size(row)];
    RowAdded(dst, now, row);
    Nested(now, more)
  }

  lemma RowAdded(dst: Column, now: Column, row: Column)
    requires Valid(dst) && dst.Nested? && Valid(now) && Valid(row)
    requires Meaning(now) == Meaning(dst.data) + Meaning(row)
    ensures var c := Nested(now, dst.offsets + [Offset(dst.offsets, |dst.offsets|) + Size(row)]);
            Valid(c) && Meaning(c) == Meaning(dst) + [List(Meaning(row))]
  {
    hide Monotone;
    CutOneMore(Meaning(dst.data), Meaning(row), dst.offsets);
  }

  lemma CutOneMore(flat: seq<Item>, row: seq<Item>, offsets: seq<nat>)
    requires Monotone(offsets) && Offset(offsets, |offsets|) == |flat|
    ensures var more := offsets + [|flat| + |row|];
            Monotone(more) && Cut(flat + row, more) == Cut(flat, offsets) + [List(row)]
  {
    var more, flat' := offsets + [|flat| + |row|], flat + row;
    assert Monotone(more);
    forall i | 0 <= i < |offsets|
      ensures Cut(flat', more)[i] == Cut(flat, offsets)[i]
    {
      assert flat'[Offset(more, i)..Offset(more, i + 1)] == flat[Offset(offsets, i)..Offset(offsets, i + 1)];
    }
    assert flat'[|flat|..|flat'|] == row;
  }
}
