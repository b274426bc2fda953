/**
  The array column object of clickhouse/columns/array.cpp: flat data and offsets changed in place, refining a
  sequence of rows. Its nested column is a value that it owns; sharing it with another owner is not modelled.
 */
module ColumnArrays {
  import opened Optional
  import opened Columns

  class ColumnArray {
    var data: Column
    var offsets: seq<nat>

    function View(): Column
      reads this
    {
      Nested(data, offsets)
    }

    ghost predicate Consistent()
      reads this
    {
      Valid(View())
    }

    /** The rows this column stands for. */
    ghost function Rows(): seq<Item>
      requires Consistent()
      reads this
    {
      Meaning(View())
    }

    constructor (data: Column, offsets: seq<nat>)
      ensures this.data == data && this.offsets == offsets
    {
      this.data, this.offsets := data, offsets;
    }

    /** The validating constructor: it throws exactly when the offsets decrease or do not end at the data size. */
    static method Create(data: Column, offsets: seq<nat>) returns (r: Option<ColumnArray>)
      requires Valid(data)
      ensures r.Some? <==> Valid(Nested(data, offsets))
      ensures r.Some? ==> fresh(r.value) && r.value.View() == Nested(data, offsets)
    {
      var expected := if |offsets| > 0 then offsets[|offsets| - 1] else 0;
      var prev := 0;
      for i := 0 to |offsets|
        invariant Monotone(offsets[..i]) && prev == Offset(offsets, i)
      {
        if offsets[i] < prev {
          assert i > 0 && offsets[i] < offsets[i - 1];
          return None;
        }
        assert forall j :: 0 <= j < i ==> offsets[..i][j] <= offsets[..i][i - 1];
        assert offsets[..i + 1] == offsets[..i] + [offsets[i]];
        prev := offsets[i];
      }
      assert offsets[..|offsets|] == offsets;
      if Size(data) != expected {
        return None;
      }
      var c := new ColumnArray(data, offsets);
      return Some(c);
    }

    function GetOffset(n: nat): nat
      requires n <= |offsets|
      reads this
    {
      Offset(offsets, n)
    }

    function GetSize(n: nat): (size: nat)
      requires n < |offsets| && Monotone(offsets)
      reads this
      ensures size == Offset(offsets, n + 1) - Offset(offsets, n)
    {
      if n == 0 then offsets[n] else offsets[n] - offsets[n - 1]
    }

    method AddOffset(n: nat)
      modifies this`offsets
      ensures offsets == old(offsets) + [old(GetOffset(|offsets|)) + n]
    {
      if |offsets| == 0 {
        offsets := offsets + [n];
      } else {
        offsets := offsets + [offsets[|offsets| - 1] + n];
      }
    }

    /** Adds one row of exactly the source's elements, or throws on a type mismatch and changes nothing. */
    method AppendAsColumn(row: Column) returns (ok: bool)
      requires Consistent() && Valid(row)
      modifies this
      ensures Consistent() && TypeOf(View()) == old(TypeOf(View()))
      ensures ok <==> CanAppendType(old(TypeOf(data)), TypeOf(row))
      ensures View() == Columns.AppendAsColumn(old(View()), row).column
      ensures ok ==> Rows() == old(Rows()) + [List(Meaning(row))]
      ensures !ok ==> View() == old(View())
    {
      if !CanAppendType(TypeOf(data), TypeOf(row)) {
        return false;
      }
      ghost var was := View();
      data := Columns.Append(data, row).column;
      AddOffset(Size(row));
      assert View() == Columns.AppendAsColumn(was, row).column;
      return true;
    }

    /** Row n as a column, or a thrown ValidationError past the end. */
    method GetAsColumn(n: nat) returns (r: Option<Column>)
      requires Consistent()
      ensures r == if n < |offsets| then Some(RowColumn(View(), n)) else None
      ensures r.Some? ==> Valid(r.value) && TypeOf(r.value) == TypeOf(data) && List(Meaning(r.value)) == Rows()[n]
    {
      hide TypeOf, Meaning, Columns.Slice, RowColumn, Monotone, Offset, GetSize;
      if n >= |offsets| {
        return None;
      }
      RowIsSlice(View(), n);
      r := Columns.Slice(data, GetOffset(n), GetSize(n));
    }

    method RebasedOffsets(begin: nat, size: nat) returns (rebased: seq<nat>)
      requires begin + size <= |offsets| && Consistent()
      ensures rebased == Rebased(offsets, begin, size)
    {
      rebased := [];
      var offset: nat := 0;
      for i := 0 to size
        invariant rebased == Rebased(offsets, begin, i) && offset == Offset(rebased, i)
      {
        offset := offset + GetSize(begin + i);
        rebased := rebased + [offset];
      }
    }

    /** The rows begin..begin + size as a new array column, whose validating constructor accepts it. */
    method Slice(begin: nat, size: nat) returns (r: Option<ColumnArray>)
      requires Consistent()
      ensures r.Some? <==> begin + size <= |offsets|
      ensures r.Some? ==>
                && fresh(r.value) && r.value.Consistent()
                && TypeOf(r.value.View()) == TypeOf(View())
                && r.value.Rows() == Rows()[begin..begin + size]
                && Some(r.value.View()) == Columns.Slice(View(), begin, size)
    {
      if begin + size > |offsets| {
        return None;
      }
      hide Meaning, Columns.Slice, Offset, Monotone, Rebased, Valid, TypeOf;
      SliceMeaning(View(), begin, size);
      SliceParts(View(), begin, size);
      var sliced := Columns.Slice(data, GetOffset(begin), GetOffset(begin + size) - GetOffset(begin));
      var rebased := RebasedOffsets(begin, size);
      r := Create(sliced.value, rebased);
    }

    /** Appends every row of another array column; a column that is no array is ignored. */
    method Append(column: Column) returns (ok: bool)
      requires Consistent() && Valid(column)
      modifies this
      ensures Consistent() && TypeOf(View()) == old(TypeOf(View()))
      ensures ok <==> column.Vector? || Size(column) == 0 || CanAppendType(old(TypeOf(data)), TypeOf(column.data))
      ensures !ok ==> View() == old(View())
      ensures ok ==> Rows() == old(Rows()) + if column.Nested? then Meaning(column) else []
      ensures View() == Columns.Append(old(View()), column).column
    {
      ok := true;
      if column.Nested? {
        ghost var all := AppendRows(View(), column, 0);
        assert Meaning(column)[0..] == Meaning(column);
        var i := 0;
        while i < Size(column)
          invariant i <= Size(column) && Consistent()
          invariant AppendRows(View(), column, i) == all
        {
          ok := AppendAsColumn(RowColumn(column, i));
          if !ok {
            return;
          }
          i := i + 1;
        }
      }
    }

    method Clear()
      requires Consistent()
      modifies this
      ensures Consistent() && Rows() == [] && TypeOf(View()) == old(TypeOf(View()))
      ensures View() == Empty(old(TypeOf(View())))
    {
      offsets := [];
      data := Empty(TypeOf(data));
    }

    /** Any operation; keeping a slice replaces the content by that of the sliced column. */
    method Perform(op: Op)
      requires Consistent() && WellFormedOp(op)
      modifies this
      ensures Consistent() && TypeOf(View()) == old(TypeOf(View()))
      ensures View() == Apply(old(View()), op)
    {
      hide Meaning, Columns.Slice, Columns.Append, Columns.AppendAsColumn;
      match op
      case AppendRow(row) => var _ := AppendAsColumn(row);
      case AppendColumn(column) => var _ := Append(column);
      case ClearAll => Clear();
      case KeepSlice(begin, size) =>
        var slice := Slice(begin, size);
        if slice.Some? {
          data, offsets := slice.value.data, slice.value.offsets;
        }
    }

    /** Any sequence of operations on the object is the same sequence on its rows. */
    method Replay(ops: seq<Op>)
      requires Consistent() && WellFormedOps(ops)
      modifies this
      ensures Consistent() && View() == Run(old(View()), ops)
      ensures Rows() == RunRows(old(Rows()), old(TypeOf(data)), ops)
    {
      hide Apply, Meaning, Valid;
      ghost var start := View();
      var i := 0;
      assert ops[0..] == ops;
      while i < |ops|
        invariant 0 <= i <= |ops| && Consistent() && Run(View(), ops[i..]) == Run(start, ops)
      {
        assert ops[i..][1..] == ops[i + 1..] && WellFormedOp(ops[i]);
        Perform(ops[i]);
        i := i + 1;
      }
      RunRefines(start, ops);
    }
  }

  // ----- row facts -----

  lemma RowIsSlice(c: Column, n: nat)
    requires Valid(c) && c.Nested? && n < Size(c)
    ensures Valid(c.data) && Monotone(c.offsets) && Offset(c.offsets, n) <= Offset(c.offsets, n + 1)
    ensures Columns.Slice(c.data, Offset(c.offsets, n), Offset(c.offsets, n + 1) - Offset(c.offsets, n)) ==
              Some(RowColumn(c, n))
  {
    hide Meaning, Columns.Slice, Offset, Monotone;
    RowFacts(c, n);
  }

  /** A slice of an array is a slice of its data with rebased offsets. */
  lemma SliceParts(c: Column, begin: nat, size: nat)
    requires Valid(c) && c.Nested? && begin + size <= Size(c)
    ensures var from, to := Offset(c.offsets, begin), Offset(c.offsets, begin + size);
            && from <= to && Columns.Slice(c.data, from, to - from).Some?
            && Valid(Columns.Slice(c.data, from, to - from).value)
            && Columns.Slice(c, begin, size) ==
                Some(Nested(Columns.Slice(c.data, from, to - from).value, Rebased(c.offsets, begin, size)))
  {
    hide Meaning, Offset, Monotone, Rebased;
    var from, to := Offset(c.offsets, begin), Offset(c.offsets, begin + size);
    OffsetsOrdered(c.offsets, begin, begin + size);
    OffsetsOrdered(c.offsets, begin + size, |c.offsets|);
    SliceMeaning(c.data, from, to - from);
  }

  // ----- whole runs -----

  datatype Op = AppendRow(row: Column) | AppendColumn(column: Column) | ClearAll | KeepSlice(begin: nat, size: nat)

  /** The columns given to an operation are themselves consistent. */
  predicate WellFormedOp(op: Op) {
    (op.AppendRow? ==> Valid(op.row)) && (op.AppendColumn? ==> Valid(op.column))
  }

  /** One operation on the column; a throwing one leaves it as the model says. */
  function Apply(c: Column, op: Op): (r: Column)
    requires Valid(c) && c.Nested? && WellFormedOp(op)
    ensures Valid(r) && TypeOf(r) == TypeOf(c)
  {
    match op
    case AppendRow(row) => Columns.AppendAsColumn(c, row).column
    case AppendColumn(column) => Columns.Append(c, column).column
    case ClearAll => Empty(TypeOf(c))
    case KeepSlice(begin, size) =>
      if begin + size <= Size(c) then SliceMeaning(c, begin, size); Columns.Slice(c, begin, size).value else c
  }

  /** The same operation on a plain sequence of rows of type item. */
  ghost function ApplyRows(rows: seq<Item>, item: Type, op: Op): seq<Item>
    requires WellFormedOp(op)
  {
    match op
    case AppendRow(row) => if CanAppendType(item, TypeOf(row)) then rows + [List(Meaning(row))] else rows
    case AppendColumn(column) =>
      if column.Nested? && CanAppendType(item, TypeOf(column.data)) then rows + Meaning(column) else rows
    case ClearAll => []
    case KeepSlice(begin, size) => if begin + size <= |rows| then rows[begin..begin + size] else rows
  }

  predicate WellFormedOps(ops: seq<Op>) {
    forall i :: 0 <= i < |ops| ==> WellFormedOp(ops[i])
  }

  function Run(c: Column, ops: seq<Op>): (r: Column)
    requires Valid(c) && c.Nested? && WellFormedOps(ops)
    ensures Valid(r) && TypeOf(r) == TypeOf(c)
    decreases |ops|
  {
    if ops == [] then c else
      var next := Apply(c, ops[0]);
      Run(next, ops[1..])
  }

  ghost function RunRows(rows: seq<Item>, item: Type, ops: seq<Op>): seq<Item>
    requires WellFormedOps(ops)
    decreases |ops|
  {
    if ops == [] then rows else RunRows(ApplyRows(rows, item, ops[0]), item, ops[1..])
  }

  lemma ApplyRefines(c: Column, op: Op)
    requires Valid(c) && c.Nested? && WellFormedOp(op)
    ensures Meaning(Apply(c, op)) == ApplyRows(Meaning(c), TypeOf(c.data), op)
  {
    hide Meaning, AppendRows, Columns.AppendAsColumn, Columns.Slice;
    match op
    case AppendRow(row) =>
    case AppendColumn(column) =>
      if column.Nested? {
        assert Meaning(column)[0..] == Meaning(column);
        if Size(column) == 0 {
          assert Meaning(c) + Meaning(column) == Meaning(c);
        }
      }
    case ClearAll =>
      assert |Meaning(Empty(TypeOf(c)))| == 0;
    case KeepSlice(begin, size) =>
      if begin + size <= Size(c) {
        SliceMeaning(c, begin, size);
      }
  }

  /**
    Every run of operations on offsets and flat data is the same run on a sequence of rows, with the invariant kept.
   */
  lemma {:induction false} RunRefines(c: Column, ops: seq<Op>)
    requires Valid(c) && c.Nested? && WellFormedOps(ops)
    ensures Valid(Run(c, ops)) && Meaning(Run(c, ops)) == RunRows(Meaning(c), TypeOf(c.data), ops)
    decreases |ops|
  {
    if ops != [] {
      ApplyRefines(c, ops[0]);
      RunRefines(Apply(c, ops[0]), ops[1..]);
    }
  }
}
