/**
  Blocks (clickhouse/block.cpp) and their encoding for every server revision (clickhouse/client.cpp, WriteBlock and
  ReadBlock), as functions on byte sequences.
 */
module BlockFormat {
  import opened Optional
  import opened WireFormat
  import opened Columns
  import opened ColumnSerial

  const DBMS_MIN_REVISION_WITH_BLOCK_INFO: nat := 51903
  const DBMS_MIN_REVISION_WITH_CUSTOM_SERIALIZATION: nat := 54454

  /** Type names and the factory that reads them; only that the factory undoes naming is assumed. */
  datatype Catalog = Catalog(name: Type -> seq<byte>, create: seq<byte> -> Option<Type>)

  ghost predicate Faithful(k: Catalog) {
    forall t :: k.create(k.name(t)) == Some(t)
  }

  datatype BlockInfo = BlockInfo(isOverflows: byte, bucketNum: int)

  const DEFAULT_INFO: BlockInfo := BlockInfo(0, -1)

  datatype ColumnItem = ColumnItem(name: seq<byte>, column: Column)

  datatype Block = Block(info: BlockInfo, columns: seq<ColumnItem>, rows: nat)

  const NO_BLOCK: Block := Block(DEFAULT_INFO, [], 0)

  /** The first column fixes the row count, every further one must have it. */
  function AppendColumn(b: Block, item: ColumnItem): Option<Block> {
    if b.columns != [] && Size(item.column) != b.rows then None
    else Some(b.(columns := b.columns + [item], rows := Size(item.column)))
  }

  /** Appends columns in turn, as long as they are accepted. */
  function AppendAll(b: Block, items: seq<ColumnItem>): Option<Block>
    decreases |items|
  {
    if items == [] then Some(b)
    else match AppendColumn(b, items[0])
      case None => None
      case Some(b') => AppendAll(b', items[1..])
  }

  /** A block takes a sequence of columns exactly if all have one size, and then holds them with that row count. */
  lemma {:induction false} AppendAllExactly(b: Block, items: seq<ColumnItem>, rows: nat)
    requires b.columns != [] ==> b.rows == rows
    requires items != [] && b.columns == [] ==> Size(items[0].column) == rows
    ensures AppendAll(b, items).Some? <==> forall i :: 0 <= i < |items| ==> Size(items[i].column) == rows
    ensures AppendAll(b, items).Some? && items != [] ==>
              AppendAll(b, items).value == Block(b.info, b.columns + items, rows)
    decreases |items|
  {
    if items != [] && Size(items[0].column) == rows {
      var b' := b.(columns := b.columns + [items[0]], rows := rows);
      assert AppendColumn(b, items[0]) == Some(b');
      AppendAllExactly(b', items[1..], rows);
      assert b.columns + [items[0]] + items[1..] == b.columns + items;
      assert forall i :: 1 <= i < |items| ==> items[i] == items[1..][i - 1];
      if |items| == 1 {
        assert items[1..] == [];
      }
    }
  }

  // ----- two's complement -----

  function ToUInt32(v: int): (r: nat)
    requires -0x8000_0000 <= v < 0x8000_0000
    ensures r < 0x1_0000_0000
  {
    if v < 0 then v + 0x1_0000_0000 else v
  }

  function ToInt32(r: nat): int {
    if r >= 0x8000_0000 then r - 0x1_0000_0000 else r
  }

  // ----- writing -----

  function EncodeInfo(revision: nat, info: BlockInfo): seq<byte>
    requires -0x8000_0000 <= info.bucketNum < 0x8000_0000
  {
    if revision >= DBMS_MIN_REVISION_WITH_BLOCK_INFO
    then Varint(1) + (Fixed(info.isOverflows, 1) + (Varint(2) + (Fixed(ToUInt32(info.bucketNum), 4) + Varint(0))))
    else []
  }

  function CustomFlag(revision: nat): seq<byte> {
    if revision >= DBMS_MIN_REVISION_WITH_CUSTOM_SERIALIZATION then Fixed(0, 1) else []
  }

  function EncodeItem(revision: nat, k: Catalog, item: ColumnItem, rows: nat): seq<byte> {
    EncodeString(item.name) + (EncodeString(k.name(TypeOf(item.column))) + (CustomFlag(revision) +
      if rows > 0 then Save(item.column) else []))
  }

  function EncodeColumns(write: ColumnItem -> seq<byte>, items: seq<ColumnItem>): seq<byte> {
    if items == [] then [] else write(items[0]) + EncodeColumns(write, items[1..])
  }

  function ItemWriter(revision: nat, k: Catalog, rows: nat): ColumnItem -> seq<byte> {
    item => EncodeItem(revision, k, item, rows)
  }

  function EncodeItems(revision: nat, k: Catalog, items: seq<ColumnItem>, rows: nat): seq<byte> {
    EncodeColumns(ItemWriter(revision, k, rows), items)
  }

  function EncodeBlock(revision: nat, k: Catalog, b: Block): seq<byte>
    requires -0x8000_0000 <= b.info.bucketNum < 0x8000_0000
  {
    EncodeInfo(revision, b.info) +
      (Varint(|b.columns|) + (Varint(b.rows) + EncodeItems(revision, k, b.columns, b.rows)))
  }

  // ----- reading -----

  function DecodeInfo(revision: nat, s: seq<byte>): Parse<BlockInfo> {
    if revision < DBMS_MIN_REVISION_WITH_BLOCK_INFO then Got(DEFAULT_INFO, s)
    else match DecodeVarint(s)
      case Fail => Fail
      case Got(_, s1) => match DecodeFixed(s1, 1)
        case Fail => Fail
        case Got(overflows, s2) => match DecodeVarint(s2)
          case Fail => Fail
          case Got(_, s3) => match DecodeFixed(s3, 4)
            case Fail => Fail
            case Got(bucket, s4) => match DecodeVarint(s4)
              case Fail => Fail
              case Got(_, s5) => Got(BlockInfo(overflows % 256, ToInt32(bucket)), s5)
  }

  /** The serialization byte of a column: only zero is supported. */
  function DecodeFlag(revision: nat, s: seq<byte>): Parse<()> {
    if revision < DBMS_MIN_REVISION_WITH_CUSTOM_SERIALIZATION then Got((), s)
    else match DecodeFixed(s, 1)
      case Got(0, rest) => Got((), rest)
      case _ => Fail
  }

  function DecodeItem(revision: nat, k: Catalog, rows: nat, s: seq<byte>): Parse<ColumnItem> {
    match DecodeString(s)
    case Fail => Fail
    case Got(name, s1) => match DecodeString(s1)
      case Fail => Fail
      case Got(typeName, s2) => match DecodeFlag(revision, s2)
        case Fail => Fail
        case Got(_, s3) => match k.create(typeName)
          case None => Fail
          case Some(t) =>
            if rows == 0 then Got(ColumnItem(name, Empty(t)), s3)
            else match Load(Empty(t), rows, s3)
              case Fail => Fail
              case Got(c, s4) => Got(ColumnItem(name, c), s4)
  }

  /** Reads n columns with a given reader and appends each to the block. */
  function DecodeColumns(read: seq<byte> -> Parse<ColumnItem>, n: nat, b: Block, s: seq<byte>): Parse<Block> {
    if n == 0 then Got(b, s)
    else match read(s)
      case Fail => Fail
      case Got(item, rest) => match AppendColumn(b, item)
        case None => Fail
        case Some(b') => DecodeColumns(read, n - 1, b', rest)
  }

  function ItemReader(revision: nat, k: Catalog, rows: nat): seq<byte> -> Parse<ColumnItem> {
    s => DecodeItem(revision, k, rows, s)
  }

  function DecodeItems(revision: nat, k: Catalog, n: nat, rows: nat, b: Block, s: seq<byte>): Parse<Block> {
    DecodeColumns(ItemReader(revision, k, rows), n, b, s)
  }

  function DecodeBlock(revision: nat, k: Catalog, s: seq<byte>): Parse<Block> {
    match DecodeInfo(revision, s)
    case Fail => Fail
    case Got(info, s1) => match DecodeVarint(s1)
      case Fail => Fail
      case Got(n, s2) => match DecodeVarint(s2)
        case Fail => Fail
        case Got(rows, s3) => DecodeItems(revision, k, n, rows, NO_BLOCK.(info := info), s3)
  }

  // ----- round trip -----

  ghost predicate Sendable(k: Catalog, item: ColumnItem, rows: nat) {
    && |item.name| <= MAX_STRING && |k.name(TypeOf(item.column))| <= MAX_STRING
    && Valid(item.column) && Narrow(item.column) && Size(item.column) == rows
  }

  /** A block whose counts and strings fit their encodings and whose columns all have its row count. */
  ghost predicate WellFormed(k: Catalog, b: Block) {
    && -0x8000_0000 <= b.info.bucketNum < 0x8000_0000
    && |b.columns| < TWO_64 && b.rows < TWO_64
    && forall i :: 0 <= i < |b.columns| ==> Sendable(k, b.columns[i], b.rows)
  }

  lemma InfoBytes(revision: nat, info: BlockInfo, tail: seq<byte>)
    requires -0x8000_0000 <= info.bucketNum < 0x8000_0000 && revision >= DBMS_MIN_REVISION_WITH_BLOCK_INFO
    ensures EncodeInfo(revision, info) + tail ==
              Varint(1) + (Fixed(info.isOverflows, 1) +
                (Varint(2) + (Fixed(ToUInt32(info.bucketNum), 4) + (Varint(0) + tail))))
  {
    var a, b, c := Varint(1), Fixed(info.isOverflows, 1), Varint(2);
    var d, e := Fixed(ToUInt32(info.bucketNum), 4), Varint(0);
    Concat3(d, e, tail);
    Concat3(c, d + e, tail);
    Concat3(b, c + (d + e), tail);
    Concat3(a, b + (c + (d + e)), tail);
  }

  lemma InfoRoundTrip(revision: nat, info: BlockInfo, tail: seq<byte>)
    requires -0x8000_0000 <= info.bucketNum < 0x8000_0000
    ensures DecodeInfo(revision, EncodeInfo(revision, info) + tail) ==
              Got(if revision >= DBMS_MIN_REVISION_WITH_BLOCK_INFO then info else DEFAULT_INFO, tail)
  {
    if revision >= DBMS_MIN_REVISION_WITH_BLOCK_INFO {
      var e := Varint(0) + tail;
      var d := Fixed(ToUInt32(info.bucketNum), 4) + e;
      var c := Varint(2) + d;
      var b := Fixed(info.isOverflows, 1) + c;
      InfoBytes(revision, info, tail);
      BytePowers();
      VarintRoundTrip(1, b);
      FixedRoundTrip(info.isOverflows, 1, c);
      VarintRoundTrip(2, d);
      FixedRoundTrip(ToUInt32(info.bucketNum), 4, e);
      VarintRoundTrip(0, tail);
    } else {
      assert EncodeInfo(revision, info) + tail == tail;
    }
  }

  /**
    Reads an info by its field numbers: 1 is followed by the overflow flag in one byte, 2 by the bucket number in
    four, and 0 ends it.
   */
  function ReadFields(s: seq<byte>, info: BlockInfo): Parse<BlockInfo>
    decreases |s|
  {
    match DecodeVarint(s)
    case Fail => Fail
    case Got(field, rest) =>
      VarintLonger(s, 0, []);
      if field == 0 then Got(info, rest)
      else if field == 1 then
        match DecodeFixed(rest, 1)
        case Fail => Fail
        case Got(v, rest') => ReadFields(rest', info.(isOverflows := v % 256))
      else if field == 2 then
        match DecodeFixed(rest, 4)
        case Fail => Fail
        case Got(v, rest') => ReadFields(rest', info.(bucketNum := ToInt32(v)))
      else Fail
  }

  /** A reader that goes by the field numbers finds exactly the info. */
  lemma InfoFields(revision: nat, info: BlockInfo, start: BlockInfo, tail: seq<byte>)
    requires -0x8000_0000 <= info.bucketNum < 0x8000_0000 && revision >= 51903
    ensures ReadFields(EncodeInfo(revision, info) + tail, start) == Got(info, tail)
  {
    hide ReadFields, Varint, Fixed, FromFixed, DecodeFixed, EncodeInfo;
    var e := Varint(0) + tail;
    var d := Fixed(ToUInt32(info.bucketNum), 4) + e;
    var c := Varint(2) + d;
    var b := Fixed(info.isOverflows, 1) + c;
    InfoBytes(revision, info, tail);
    BytePowers();
    FixedRoundTrip(info.isOverflows, 1, c);
    FixedRoundTrip(ToUInt32(info.bucketNum), 4, e);
    FieldStep(1, b, start);
    FieldStep(2, d, start.(isOverflows := info.isOverflows));
    FieldStep(0, tail, info);
  }

  /** Older revisions are sent no info, and theirs is taken to be the default. */
  lemma OldInfo(revision: nat, info: BlockInfo, s: seq<byte>)
    requires -0x8000_0000 <= info.bucketNum < 0x8000_0000 && revision < 51903
    ensures EncodeInfo(revision, info) == [] && DecodeInfo(revision, s) == Got(BlockInfo(0, -1), s)
  {
  }

  lemma FieldStep(field: nat, rest: seq<byte>, info: BlockInfo)
    requires field <= 2
    ensures ReadFields(Varint(field) + rest, info) ==
              if field == 0 then Got(info, rest)
              else match DecodeFixed(rest, if field == 1 then 1 else 4)
                case Fail => Fail
                case Got(v, rest') =>
                  var info' := if field == 1 then info.(isOverflows := v % 256) else info.(bucketNum := ToInt32(v));
                  ReadFields(rest', info')
  {
    VarintRoundTrip(field, rest);
  }

  lemma FlagRoundTrip(revision: nat, tail: seq<byte>)
    ensures DecodeFlag(revision, CustomFlag(revision) + tail) == Got((), tail)
  {
    if revision >= DBMS_MIN_REVISION_WITH_CUSTOM_SERIALIZATION {
      BytePowers();
      FixedRoundTrip(0, 1, tail);
    } else {
      assert [] + tail == tail;
    }
  }

  /** From revision 54454 on every column carries one zero byte for its serialization, and none before. */
  lemma FlagBytes(revision: nat)
    ensures CustomFlag(revision) == if revision >= 54454 then [0] else []
  {
    assert Fixed(0, 1) == [0] + Fixed(0, 0);
  }

  lemma ItemRoundTrip(revision: nat, k: Catalog, item: ColumnItem, rows: nat, tail: seq<byte>)
    requires Faithful(k) && Sendable(k, item, rows)
    ensures DecodeItem(revision, k, rows, EncodeItem(revision, k, item, rows) + tail) == Got(item, tail)
  {
    hide EncodeString, DecodeString, Save, Load, CustomFlag, DecodeFlag;
    var body := if rows > 0 then Save(item.column) else [];
    var s3 := body + tail;
    var s2 := CustomFlag(revision) + s3;
    var s1 := EncodeString(k.name(TypeOf(item.column))) + s2;
    assert EncodeItem(revision, k, item, rows) + tail == EncodeString(item.name) + s1;
    StringRoundTrip(item.name, s1);
    StringRoundTrip(k.name(TypeOf(item.column)), s2);
    FlagRoundTrip(revision, s3);
    if rows > 0 {
      SaveLoad(item.column, tail);
    } else {
      EmptyIsUnique(item.column);
      assert s3 == tail;
    }
  }

  /** If single columns of the block's row count round trip, so do sequences of them. */
  lemma {:induction false} ColumnsRoundTrip(
    read: seq<byte> -> Parse<ColumnItem>, write: ColumnItem -> seq<byte>,
    b: Block, items: seq<ColumnItem>, tail: seq<byte>)
    requires forall i :: 0 <= i < |items| ==> Size(items[i].column) == b.rows
    requires forall i, more :: 0 <= i < |items| ==> read(write(items[i]) + more) == Got(items[i], more)
    ensures DecodeColumns(read, |items|, b, EncodeColumns(write, items) + tail) ==
              Got(b.(columns := b.columns + items), tail)
    decreases |items|
  {
    if items == [] {
      assert [] + tail == tail && b.columns + [] == b.columns;
    } else {
      var others := EncodeColumns(write, items[1..]);
      Concat3(write(items[0]), others, tail);
      var b' := b.(columns := b.columns + [items[0]]);
      ColumnsRoundTrip(read, write, b', items[1..], tail);
      assert b.columns + [items[0]] + items[1..] == b.columns + items;
    }
  }

  lemma ItemsRoundTrip(revision: nat, k: Catalog, b: Block, items: seq<ColumnItem>, tail: seq<byte>)
    requires Faithful(k) && forall i :: 0 <= i < |items| ==> Sendable(k, items[i], b.rows)
    ensures DecodeItems(revision, k, |items|, b.rows, b, EncodeItems(revision, k, items, b.rows) + tail) ==
              Got(b.(columns := b.columns + items), tail)
  {
    var read, write := ItemReader(revision, k, b.rows), ItemWriter(revision, k, b.rows);
    forall i, more | 0 <= i < |items|
      ensures read(write(items[i]) + more) == Got(items[i], more)
    {
      assert Sendable(k, items[i], b.rows);
      ItemRoundTrip(revision, k, items[i], b.rows, more);
    }
    ColumnsRoundTrip(read, write, b, items, tail);
  }

  /** The reader starts from an empty block, whose row count the first column sets. */
  lemma FirstColumnSetsRows(revision: nat, k: Catalog, n: nat, rows: nat, info: BlockInfo, s: seq<byte>)
    requires n > 0
    ensures DecodeItems(revision, k, n, rows, Block(info, [], 0), s) ==
              DecodeItems(revision, k, n, rows, Block(info, [], rows), s)
  {
  }

  /**
    Reading what was written gives the block back and consumes exactly its bytes. Two things are not carried: the
    info below revision 51903, and the row count of a block without columns.
   */
  lemma BlockRoundTrip(revision: nat, k: Catalog, b: Block, tail: seq<byte>)
    requires Faithful(k) && WellFormed(k, b)
    ensures DecodeBlock(revision, k, EncodeBlock(revision, k, b) + tail) == Got(Carried(revision, b), tail)
  {
    var s3 := EncodeItems(revision, k, b.columns, b.rows) + tail;
    var s2 := Varint(b.rows) + s3;
    var s1 := Varint(|b.columns|) + s2;
    assert EncodeBlock(revision, k, b) + tail == EncodeInfo(revision, b.info) + s1;
    InfoRoundTrip(revision, b.info, s1);
    VarintRoundTrip(|b.columns|, s2);
    VarintRoundTrip(b.rows, s3);
    var info := Carried(revision, b).info;
    if b.columns == [] {
      assert s3 == tail;
    } else {
      FirstColumnSetsRows(revision, k, |b.columns|, b.rows, info, s3);
      ItemsRoundTrip(revision, k, Block(info, [], b.rows), b.columns, tail);
      assert [] + b.columns == b.columns;
    }
  }

  /** What the encoding of a block carries. */
  function Carried(revision: nat, b: Block): Block {
    Block(if revision >= DBMS_MIN_REVISION_WITH_BLOCK_INFO then b.info else DEFAULT_INFO, b.columns,
          if b.columns == [] then 0 else b.rows)
  }

  /** A block survives exactly when its info and row count are of the kind that is carried. */
  lemma SurvivesExactly(revision: nat, k: Catalog, b: Block, tail: seq<byte>)
    requires Faithful(k) && WellFormed(k, b)
    ensures DecodeBlock(revision, k, EncodeBlock(revision, k, b) + tail) == Got(b, tail) <==>
              && (revision >= DBMS_MIN_REVISION_WITH_BLOCK_INFO || b.info == DEFAULT_INFO)
              && (b.columns != [] || b.rows == 0)
  {
    BlockRoundTrip(revision, k, b, tail);
  }

  /** A column in a serialization other than the default, or of a type that is not known, is refused. */
  lemma ItemRefused(
    revision: nat, k: Catalog, name: seq<byte>, typeName: seq<byte>, rows: nat, flag: byte, tail: seq<byte>)
    requires |name| <= MAX_STRING && |typeName| <= MAX_STRING
    ensures revision >= 54454 && flag != 0 ==>
              DecodeItem(revision, k, rows, EncodeString(name) + (EncodeString(typeName) + ([flag] + tail))) == Fail
    ensures k.create(typeName).None? ==>
              DecodeItem(revision, k, rows, EncodeString(name) + (EncodeString(typeName) + tail)) == Fail
  {
    hide EncodeString, DecodeString, Load;
    StringRoundTrip(name, EncodeString(typeName) + ([flag] + tail));
    StringRoundTrip(typeName, [flag] + tail);
    StringRoundTrip(name, EncodeString(typeName) + tail);
    StringRoundTrip(typeName, tail);
    assert ([flag] + tail)[..1] == [flag];
    assert FromFixed([flag]) == flag + 256 * FromFixed([]);
  }

  lemma InfoLonger(revision: nat, s: seq<byte>, more: seq<byte>)
    requires DecodeInfo(revision, s).Got?
    ensures DecodeInfo(revision, s + more) == Longer(DecodeInfo(revision, s), more)
  {
    hide DecodeVarintFrom, FromFixed;
    if revision >= DBMS_MIN_REVISION_WITH_BLOCK_INFO {
      VarintLonger(s, 0, more);
      var s1 := DecodeVarint(s).rest;
      FixedLonger(s1, 1, more);
      var s2 := DecodeFixed(s1, 1).rest;
      VarintLonger(s2, 0, more);
      var s3 := DecodeVarint(s2).rest;
      FixedLonger(s3, 4, more);
      var s4 := DecodeFixed(s3, 4).rest;
      VarintLonger(s4, 0, more);
    }
  }

  lemma ItemLonger(revision: nat, k: Catalog, rows: nat, s: seq<byte>, more: seq<byte>)
    requires DecodeItem(revision, k, rows, s).Got?
    ensures DecodeItem(revision, k, rows, s + more) == Longer(DecodeItem(revision, k, rows, s), more)
  {
    hide DecodeString, FromFixed, Load;
    StringLonger(s, more);
    var s1 := DecodeString(s).rest;
    StringLonger(s1, more);
    var s2 := DecodeString(s1).rest;
    if revision >= DBMS_MIN_REVISION_WITH_CUSTOM_SERIALIZATION {
      FixedLonger(s2, 1, more);
    }
    var s3 := DecodeFlag(revision, s2).rest;
    if rows > 0 {
      LoadLonger(Empty(k.create(DecodeString(s1).value).value), rows, s3, more);
    }
  }

  lemma {:induction false} ItemsLonger(
    revision: nat, k: Catalog, n: nat, rows: nat, b: Block, s: seq<byte>, more: seq<byte>)
    requires DecodeItems(revision, k, n, rows, b, s).Got?
    ensures DecodeItems(revision, k, n, rows, b, s + more) == Longer(DecodeItems(revision, k, n, rows, b, s), more)
    decreases n
  {
    hide DecodeItem, AppendColumn;
    if n != 0 {
      ItemLonger(revision, k, rows, s, more);
      var item := DecodeItem(revision, k, rows, s);
      ItemsLonger(revision, k, n - 1, rows, AppendColumn(b, item.value).value, item.rest, more);
    }
  }

  lemma BlockLonger(revision: nat, k: Catalog, s: seq<byte>, more: seq<byte>)
    requires DecodeBlock(revision, k, s).Got?
    ensures DecodeBlock(revision, k, s + more) == Longer(DecodeBlock(revision, k, s), more)
  {
    hide DecodeInfo, DecodeVarintFrom, DecodeItems;
    InfoLonger(revision, s, more);
    var p := DecodeInfo(revision, s);
    VarintLonger(p.rest, 0, more);
    var s2 := DecodeVarint(p.rest);
    VarintLonger(s2.rest, 0, more);
    var s3 := DecodeVarint(s2.rest);
    ItemsLonger(revision, k, s2.value, s3.value, NO_BLOCK.(info := p.value), s3.rest, more);
  }

  /** A block cut short anywhere is refused, in every revision. */
  lemma CutBlockRefused(revision: nat, k: Catalog, b: Block, cut: nat)
    requires Faithful(k) && WellFormed(k, b) && cut < |EncodeBlock(revision, k, b)|
    ensures DecodeBlock(revision, k, EncodeBlock(revision, k, b)[..cut]) == Fail
  {
    hide DecodeBlock, EncodeBlock;
    var all := EncodeBlock(revision, k, b);
    var s, more := all[..cut], all[cut..];
    assert s + more == all == all + [];
    BlockRoundTrip(revision, k, b, []);
    if DecodeBlock(revision, k, s).Got? {
      BlockLonger(revision, k, s, more);
    }
  }

  /** A block without columns loses its row count, and an old server is not sent the info. */
  lemma LossExamples(k: Catalog, tail: seq<byte>)
    requires Faithful(k)
    ensures var b := Block(DEFAULT_INFO, [], 1);
            WellFormed(k, b) && forall revision ::
              DecodeBlock(revision, k, EncodeBlock(revision, k, b) + tail) == Got(NO_BLOCK, tail) != Got(b, tail)
    ensures var b := Block(BlockInfo(1, 0), [], 0);
            && WellFormed(k, b)
            && DecodeBlock(51902, k, EncodeBlock(51902, k, b) + tail) == Got(NO_BLOCK, tail) != Got(b, tail)
  {
    hide DecodeBlock, EncodeBlock;
    var rows, info := Block(DEFAULT_INFO, [], 1), Block(BlockInfo(1, 0), [], 0);
    forall revision: nat
      ensures DecodeBlock(revision, k, EncodeBlock(revision, k, rows) + tail) == Got(NO_BLOCK, tail)
    {
      BlockRoundTrip(revision, k, rows, tail);
    }
    BlockRoundTrip(51902, k, info, tail);
  }

  // ----- a catalog -----

  function Unary(n: nat): seq<byte> {
    if n == 0 then [0] else [1] + Unary(n - 1)
  }

  function FromUnary(s: seq<byte>): Parse<nat> {
    if s == [] then Fail
    else if s[0] == 0 then Got(0, s[1..])
    else match FromUnary(s[1..])
      case Got(n, rest) => Got(n + 1, rest)
      case Fail => Fail
  }

  lemma {:induction false} UnaryRoundTrip(n: nat, tail: seq<byte>)
    ensures FromUnary(Unary(n) + tail) == Got(n, tail)
  {
    if n != 0 {
      assert (Unary(n) + tail)[1..] == Unary(n - 1) + tail;
      UnaryRoundTrip(n - 1, tail);
    }
  }

  function PlainName(t: Type): seq<byte> {
    match t
    case Bool => [0]
    case UInt8 => [1]
    case Array(item) => [2] + PlainName(item)
    case Leaf(code, width, prefix) => [3] + (Unary(code) + (Unary(width) + prefix))
  }

  function PlainType(s: seq<byte>): Option<Type> {
    if s == [] then None
    else if s[0] == 0 then Some(Bool)
    else if s[0] == 1 then Some(UInt8)
    else if s[0] == 2 then
      match PlainType(s[1..])
      case Some(item) => Some(Array(item))
      case None => None
    else
      match FromUnary(s[1..])
      case Fail => None
      case Got(code, rest) => match FromUnary(rest)
        case Fail => None
        case Got(width, prefix) => Some(Leaf(code, width, prefix))
  }

  lemma {:induction false} PlainRoundTrip(t: Type)
    ensures PlainType(PlainName(t)) == Some(t)
  {
    match t
    case Array(item) =>
      assert PlainName(t)[1..] == PlainName(item);
      PlainRoundTrip(item);
    case Leaf(code, width, prefix) =>
      assert PlainName(t)[1..] == Unary(code) + (Unary(width) + prefix);
      UnaryRoundTrip(code, Unary(width) + prefix);
      UnaryRoundTrip(width, prefix);
    case _ =>
  }

  /** What is assumed of a catalog can be met. */
  lemma FaithfulCatalog()
    ensures Faithful(Catalog(PlainName, PlainType))
  {
    forall t: Type
      ensures PlainType(PlainName(t)) == Some(t)
    {
      PlainRoundTrip(t);
    }
  }
}
