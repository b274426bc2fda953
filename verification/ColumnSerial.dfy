/**
  Saving and loading columns (clickhouse/columns/array.cpp, column.cpp, numeric.cpp): the leaf's prefix first, then
  the offsets of every level from the outside in, then the cells.
 */
module ColumnSerial {
  import opened WireFormat
  import opened Columns

  // ----- bytes of a sequence of numbers or cells -----

  function OffsetBytes(offsets: seq<nat>): (s: seq<byte>)
    ensures |s| == 8 * |offsets|
  {
    if offsets == [] then [] else Fixed(offsets[0], 8) + OffsetBytes(offsets[1..])
  }

  function OffsetsFrom(s: seq<byte>, n: nat): (offsets: seq<nat>)
    requires |s| == 8 * n
    ensures |offsets| == n
    decreases n
  {
    if n == 0 then [] else [FromFixed(s[..8])] + OffsetsFrom(s[8..], n - 1)
  }

  function CellBytes(cells: seq<Cell>): seq<byte> {
    if cells == [] then [] else cells[0] + CellBytes(cells[1..])
  }

  function CellsFrom(s: seq<byte>, width: nat, n: nat): (cells: seq<Cell>)
    requires |s| == n * width
    ensures |cells| == n && forall i :: 0 <= i < n ==> |cells[i]| == width
    decreases n
  {
    if n == 0 then []
    else
      OneLess(n, width);
      [s[..width]] + CellsFrom(s[width..], width, n - 1)
  }

  lemma OneLess(n: nat, width: nat)
    requires n > 0
    ensures n * width == width + (n - 1) * width
  {
  }

  lemma {:induction false} OffsetsRoundTrip(offsets: seq<nat>)
    requires forall i :: 0 <= i < |offsets| ==> offsets[i] < TWO_64
    ensures OffsetsFrom(OffsetBytes(offsets), |offsets|) == offsets
  {
    if offsets != [] {
      var s := OffsetBytes(offsets);
      BytePowers();
      FixedValue(offsets[0], 8);
      assert s[..8] == Fixed(offsets[0], 8) && s[8..] == OffsetBytes(offsets[1..]);
      OffsetsRoundTrip(offsets[1..]);
      assert offsets == [offsets[0]] + offsets[1..];
    }
  }

  lemma {:induction false} CellsRoundTrip(cells: seq<Cell>, width: nat)
    requires forall i :: 0 <= i < |cells| ==> |cells[i]| == width
    ensures |CellBytes(cells)| == |cells| * width
    ensures CellsFrom(CellBytes(cells), width, |cells|) == cells
  {
    if cells != [] {
      var s := CellBytes(cells);
      OneLess(|cells|, width);
      CellsRoundTrip(cells[1..], width);
      assert s[..width] == cells[0] && s[width..] == CellBytes(cells[1..]);
      assert cells == [cells[0]] + cells[1..];
    }
  }

  // ----- saving -----

  function PrefixOf(t: Type): seq<byte> {
    match t case Leaf(_, _, prefix) => prefix case Array(item) => PrefixOf(item) case _ => []
  }

  function SavePrefix(c: Column): seq<byte> {
    PrefixOf(TypeOf(c))
  }

  function SaveBody(c: Column): seq<byte> {
    match c
    case Vector(_, cells) => CellBytes(cells)
    case Nested(d, offsets) => OffsetBytes(offsets) + if Size(d) > 0 then SaveBody(d) else []
  }

  function Save(c: Column): seq<byte> {
    SavePrefix(c) + SaveBody(c)
  }

  // ----- loading into an existing column -----

  function LoadPrefix(t: Type, rows: nat, s: seq<byte>): Parse<()> {
    match t
    case Array(item) => if rows == 0 then Got((), s) else LoadPrefix(item, rows, s)
    case Leaf(_, _, prefix) => if prefix <= s then Got((), s[|prefix|..]) else Fail
    case _ => Got((), s)
  }

  function LoadBody(c: Column, rows: nat, s: seq<byte>): Parse<Column> {
    match c
    case Vector(t, _) =>
      if rows * Width(t) > |s| then Fail
      else Got(Vector(t, CellsFrom(s[..rows * Width(t)], Width(t), rows)), s[rows * Width(t)..])
    case Nested(d, _) =>
      if rows == 0 then Got(c, s)
      else if 8 * rows > |s| then Fail
      else
        var offsets, rest := OffsetsFrom(s[..8 * rows], rows), s[8 * rows..];
        if offsets[rows - 1] == 0 then Got(Nested(d, offsets), rest)
        else match LoadBody(d, offsets[rows - 1], rest)
             case Got(d', rest') => Got(Nested(d', offsets), rest')
             case Fail => Fail
  }

  function Load(c: Column, rows: nat, s: seq<byte>): Parse<Column> {
    match LoadPrefix(TypeOf(c), rows, s)
    case Got(_, rest) => LoadBody(c, rows, rest)
    case Fail => Fail
  }

  // ----- round trips -----

  /** Every offset fits the 64 bits it is written in. */
  predicate Narrow(c: Column) {
    match c
    case Vector(_, _) => true
    case Nested(d, offsets) => Narrow(d) && forall i :: 0 <= i < |offsets| ==> offsets[i] < TWO_64
  }

  /** What is left of target after the saved bytes of c are loaded over it: levels without elements stay stale. */
  function Overlay(target: Column, c: Column): Column
    requires Valid(target) && TypeOf(target) == TypeOf(c)
  {
    match c
    case Vector(_, _) => c
    case Nested(d, offsets) =>
      if offsets == [] then target
      else if Size(d) == 0 then Nested(target.data, offsets)
      else Nested(Overlay(target.data, d), offsets)
  }

  lemma LoadCells(t: Type, before: seq<Cell>, cells: seq<Cell>, tail: seq<byte>)
    requires Valid(Vector(t, cells))
    ensures LoadBody(Vector(t, before), |cells|, CellBytes(cells) + tail) == Got(Vector(t, cells), tail)
  {
    CellsRoundTrip(cells, Width(t));
    var n := |cells| * Width(t);
    assert (CellBytes(cells) + tail)[..n] == CellBytes(cells) && (CellBytes(cells) + tail)[n..] == tail;
  }

  /** The offsets of one level come back, and the rest of the bytes goes to the next level if it has elements. */
  lemma LoadOffsets(d: Column, before: seq<nat>, offsets: seq<nat>, more: seq<byte>)
    requires offsets != [] && forall i :: 0 <= i < |offsets| ==> offsets[i] < TWO_64
    ensures var last := offsets[|offsets| - 1];
            LoadBody(Nested(d, before), |offsets|, OffsetBytes(offsets) + more) ==
              if last == 0 then Got(Nested(d, offsets), more)
              else match LoadBody(d, last, more)
                   case Got(d', rest) => Got(Nested(d', offsets), rest)
                   case Fail => Fail
  {
    var s, n := OffsetBytes(offsets) + more, 8 * |offsets|;
    assert s[..n] == OffsetBytes(offsets) && s[n..] == more;
    OffsetsRoundTrip(offsets);
  }

  lemma {:induction false} LoadBodyOverlays(target: Column, c: Column, tail: seq<byte>)
    requires Valid(c) && Narrow(c) && Valid(target) && TypeOf(target) == TypeOf(c)
    ensures LoadBody(target, Size(c), SaveBody(c) + tail) == Got(Overlay(target, c), tail)
    decreases c
  {
    match c
    case Vector(t, cells) =>
      LoadCells(t, target.cells, cells, tail);
    case Nested(d, offsets) =>
      var inner := if Size(d) > 0 then SaveBody(d) else [];
      Concat3(OffsetBytes(offsets), inner, tail);
      if offsets == [] {
        assert SaveBody(c) + tail == tail;
      } else {
        LoadOffsets(target.data, target.offsets, offsets, inner + tail);
        if Size(d) == 0 {
          assert inner + tail == tail;
        } else {
          LoadBodyOverlays(target.data, d, tail);
        }
      }
  }

  /** The target holds nothing at the levels where c has no elements. */
  predicate Absorbs(target: Column, c: Column)
    requires Valid(target) && TypeOf(target) == TypeOf(c)
  {
    match c
    case Vector(_, _) => true
    case Nested(d, offsets) =>
      if offsets == [] then target == c
      else if Size(d) == 0 then target.data == d
      else Absorbs(target.data, d)
  }

  /** Loading restores the saved column exactly when the target held nothing stale. */
  lemma {:induction false} OverlayExact(target: Column, c: Column)
    requires Valid(target) && TypeOf(target) == TypeOf(c)
    ensures Overlay(target, c) == c <==> Absorbs(target, c)
    decreases c
  {
    match c
    case Vector(_, _) =>
    case Nested(d, offsets) =>
      if offsets != [] && Size(d) > 0 {
        OverlayExact(target.data, d);
      }
  }

  lemma {:induction false} EmptyIsUnique(c: Column)
    requires Valid(c) && Size(c) == 0
    ensures c == Empty(TypeOf(c))
    decreases c
  {
    if c.Nested? { EmptyIsUnique(c.data); }
  }

  lemma {:induction false} EmptyAbsorbs(c: Column)
    requires Valid(c)
    ensures Absorbs(Empty(TypeOf(c)), c)
    decreases c
  {
    match c
    case Vector(_, _) =>
    case Nested(d, offsets) =>
      EmptyAbsorbs(d);
      if offsets == [] {
        EmptyIsUnique(c);
      } else if Size(d) == 0 {
        EmptyIsUnique(d);
      }
  }

  lemma {:induction false} PrefixLoads(t: Type, rows: nat, tail: seq<byte>)
    requires rows > 0
    ensures LoadPrefix(t, rows, PrefixOf(t) + tail) == Got((), tail)
    decreases t
  {
    match t
    case Array(item) => PrefixLoads(item, rows, tail);
    case Leaf(_, _, prefix) => assert (prefix + tail)[|prefix|..] == tail;
    case _ => assert [] + tail == tail;
  }

  /** Other bytes in the place of the leaf's prefix are refused, below any number of array levels. */
  lemma {:induction false} WrongPrefixRefused(t: Type, rows: nat, s: seq<byte>)
    requires rows > 0 && !(PrefixOf(t) <= s)
    ensures LoadPrefix(t, rows, s) == Fail
    decreases t
  {
    if t.Array? { WrongPrefixRefused(t.item, rows, s); }
  }

  /** Loading over a column of the same type restores the saved one exactly when nothing stale survives. */
  lemma SaveLoadOver(target: Column, c: Column, tail: seq<byte>)
    requires Valid(c) && Narrow(c) && Size(c) > 0 && Valid(target) && TypeOf(target) == TypeOf(c)
    ensures Load(target, Size(c), Save(c) + tail) == Got(c, tail) <==> Absorbs(target, c)
  {
    Concat3(PrefixOf(TypeOf(c)), SaveBody(c), tail);
    PrefixLoads(TypeOf(c), Size(c), SaveBody(c) + tail);
    LoadBodyOverlays(target, c, tail);
    OverlayExact(target, c);
  }

  /** A saved column loads into a fresh column of its type, consuming exactly its bytes, given at least one row. */
  lemma SaveLoad(c: Column, tail: seq<byte>)
    requires Valid(c) && Narrow(c) && Size(c) > 0
    ensures Load(Empty(TypeOf(c)), Size(c), Save(c) + tail) == Got(c, tail)
  {
    EmptyAbsorbs(c);
    SaveLoadOver(Empty(TypeOf(c)), c, tail);
  }

  lemma {:induction false} PrefixLonger(t: Type, rows: nat, s: seq<byte>, more: seq<byte>)
    requires LoadPrefix(t, rows, s).Got?
    ensures LoadPrefix(t, rows, s + more) == Longer(LoadPrefix(t, rows, s), more)
    decreases t
  {
    match t
    case Array(item) => if rows > 0 { PrefixLonger(item, rows, s, more); }
    case Leaf(_, _, prefix) => assert (s + more)[|prefix|..] == s[|prefix|..] + more;
    case _ =>
  }

  lemma {:induction false} BodyLonger(c: Column, rows: nat, s: seq<byte>, more: seq<byte>)
    requires LoadBody(c, rows, s).Got?
    ensures LoadBody(c, rows, s + more) == Longer(LoadBody(c, rows, s), more)
    decreases c
  {
    hide CellsFrom, OffsetsFrom;
    match c
    case Vector(t, _) =>
      var n := rows * Width(t);
      assert (s + more)[..n] == s[..n] && (s + more)[n..] == s[n..] + more;
    case Nested(d, _) =>
      if rows > 0 {
        var n := 8 * rows;
        assert (s + more)[..n] == s[..n] && (s + more)[n..] == s[n..] + more;
        var last := OffsetsFrom(s[..n], rows)[rows - 1];
        if last != 0 { BodyLonger(d, last, s[n..], more); }
      }
  }

  lemma LoadLonger(c: Column, rows: nat, s: seq<byte>, more: seq<byte>)
    requires Load(c, rows, s).Got?
    ensures Load(c, rows, s + more) == Longer(Load(c, rows, s), more)
  {
    PrefixLonger(TypeOf(c), rows, s, more);
    BodyLonger(c, rows, LoadPrefix(TypeOf(c), rows, s).rest, more);
  }

  /** Saved bytes cut short anywhere are refused. */
  lemma CutColumnRefused(c: Column, cut: nat)
    requires Valid(c) && Narrow(c) && Size(c) > 0 && cut < |Save(c)|
    ensures Load(Empty(TypeOf(c)), Size(c), Save(c)[..cut]) == Fail
  {
    hide Load, Save;
    var s, more := Save(c)[..cut], Save(c)[cut..];
    assert s + more == Save(c) == Save(c) + [];
    SaveLoad(c, []);
    if Load(Empty(TypeOf(c)), Size(c), s).Got? {
      LoadLonger(Empty(TypeOf(c)), Size(c), s, more);
    }
  }

  /** With no rows an array writes its leaf's prefix but does not read it back. */
  lemma EmptyArrayPrefix(c: Column, tail: seq<byte>)
    requires Valid(c) && c.Nested? && Size(c) == 0
    ensures Load(Empty(TypeOf(c)), 0, Save(c) + tail) == Got(c, tail) <==> SavePrefix(c) == []
  {
    EmptyIsUnique(c);
    assert SaveBody(c) == [];
    assert Save(c) + tail == SavePrefix(c) + tail;
    assert |SavePrefix(c) + tail| == |SavePrefix(c)| + |tail|;
    if SavePrefix(c) == [] {
      assert [] + tail == tail;
    }
  }

  /** An empty array over a leaf with a prefix: the prefix stays unread. */
  lemma EmptyArrayExample()
    ensures var c := Nested(Vector(Leaf(0, 1, [7]), []), []);
            Valid(c) && Load(Empty(TypeOf(c)), 0, Save(c)) == Got(c, [7])
  {
    var c := Nested(Vector(Leaf(0, 1, [7]), []), []);
    EmptyIsUnique(c);
    assert SaveBody(c) == [];
    assert Save(c) == SavePrefix(c) + [] == [7];
  }

  /** A column already holding an inner row keeps it under a saved column whose rows are all empty. */
  lemma StaleExample()
    ensures var saved := Nested(Vector(UInt8, []), [0]);
            var used := Nested(Vector(UInt8, [[7]]), [1]);
            Valid(saved) && Valid(used) && Load(used, 1, Save(saved)) == Got(Nested(Vector(UInt8, [[7]]), [0]), [])
  {
    var inner: seq<Cell>, held: seq<Cell> := [], [[7]];
    var saved, used := Nested(Vector(UInt8, inner), [0]), Nested(Vector(UInt8, held), [1]);
    assert Valid(used) by { assert Valid(Vector(UInt8, held)); }
    assert Save(saved) == SaveBody(saved) + [];
    LoadBodyOverlays(used, saved, []);
  }
}
