/**
 The result set of a prepared statement. All cells are fetched into one buffer: every column starts at its offset
 in the row, and its pointer moves on by a row's size only after a value that is not null. The rows the server
 delivers are arbitrary; of a value longer than its column only the beginning is stored. Fetching may stop early.
 */
module ResultLoader {
  import opened Arithmetic
  import opened Options

  datatype Column = Column(width: nat, isText: bool)

  /** A fetched cell; a null still reports a length. */
  datatype Cell = Null(reported: nat) | Data(bytes: seq<Byte>)

  /** A field of the result: where its value starts, or no value, and its length. */
  datatype Field = Field(value: Option<int>, length: int)

  // ---- Where the cells go ----

  function Offset(cols: seq<Column>, i: nat): nat
    requires i <= |cols|
  {
    if i == 0 then 0 else Offset(cols, i - 1) + cols[i - 1].width
  }

  function RowSize(cols: seq<Column>): nat {
    Offset(cols, |cols|)
  }

  /** Every row has a cell for every column. */
  predicate Fits(cols: seq<Column>, fetched: seq<seq<Cell>>) {
    forall r :: 0 <= r < |fetched| ==> |fetched[r]| == |cols|
  }

  /** Values that are not null in column c before row r. */
  function NonNull(fetched: seq<seq<Cell>>, r: nat, c: nat): nat
    requires r <= |fetched| && forall k :: 0 <= k < |fetched| ==> c < |fetched[k]|
  {
    if r == 0 then 0 else NonNull(fetched, r - 1, c) + if fetched[r - 1][c].Data? then 1 else 0
  }

  function Slot(cols: seq<Column>, fetched: seq<seq<Cell>>, r: nat, c: nat): nat
    requires Fits(cols, fetched) && r <= |fetched| && c < |cols|
  {
    Offset(cols, c) + RowSize(cols) * NonNull(fetched, r, c)
  }

  lemma {:induction false} OffsetMono(cols: seq<Column>, i: nat, j: nat)
    requires i < j <= |cols|
    ensures Offset(cols, i) + cols[i].width <= Offset(cols, j)
  {
    if i + 1 < j {
      OffsetMono(cols, i, j - 1);
    }
  }

  lemma {:induction false} NonNullGrows(fetched: seq<seq<Cell>>, r: nat, s: nat, c: nat)
    requires r <= s <= |fetched| && forall k :: 0 <= k < |fetched| ==> c < |fetched[k]|
    ensures NonNull(fetched, r, c) <= NonNull(fetched, s, c) <= NonNull(fetched, r, c) + s - r
    ensures r < s && fetched[r][c].Data? ==> NonNull(fetched, r, c) < NonNull(fetched, s, c)
  {
    if r < s {
      NonNullGrows(fetched, r, s - 1, c);
    }
  }

  /** Two places in lines of the same size: different lines, or different parts of one line. */
  lemma LinesApart(size: nat, k: nat, a: nat, v: nat, l: nat, b: nat, w: nat)
    requires a + v <= size && b + w <= size
    requires k != l || a + v <= b || b + w <= a
    ensures a + size * k + v <= b + size * l || b + size * l + w <= a + size * k
  {
    if k < l {
      MulMono(k + 1, l, size);
      assert (k + 1) * size == size * k + size;
    } else if l < k {
      MulMono(l + 1, k, size);
      assert (l + 1) * size == size * l + size;
    }
  }

  lemma LineInBuffer(size: nat, k: nat, lines: nat, a: nat, v: nat)
    requires a + v <= size && k < lines
    ensures a + size * k + v <= size * lines
  {
    MulMono(k + 1, lines, size);
    assert (k + 1) * size == size * k + size;
  }

  /** Every slot lies inside the buffer. */
  lemma SlotInBounds(cols: seq<Column>, fetched: seq<seq<Cell>>, rowCount: nat, r: nat, c: nat)
    requires Fits(cols, fetched) && r < |fetched| && r < rowCount && c < |cols|
    ensures Slot(cols, fetched, r, c) + cols[c].width <= RowSize(cols) * rowCount
  {
    OffsetMono(cols, c, |cols|);
    NonNullGrows(fetched, 0, r, c);
    LineInBuffer(RowSize(cols), NonNull(fetched, r, c), rowCount, Offset(cols, c), cols[c].width);
  }

  /** The slots of two values never overlap. */
  lemma SlotsDisjoint(cols: seq<Column>, fetched: seq<seq<Cell>>, r: nat, c: nat, s: nat, d: nat)
    requires Fits(cols, fetched) && r < |fetched| && s < |fetched| && c < |cols| && d < |cols|
    requires fetched[r][c].Data? && fetched[s][d].Data? && (r != s || c != d)
    ensures var x, y := Slot(cols, fetched, r, c), Slot(cols, fetched, s, d);
            x + cols[c].width <= y || y + cols[d].width <= x
  {
    OffsetMono(cols, c, |cols|);
    OffsetMono(cols, d, |cols|);
    if c < d {
      OffsetMono(cols, c, d);
    } else if d < c {
      OffsetMono(cols, d, c);
    } else if r < s {
      NonNullGrows(fetched, r, s, c);
    } else {
      NonNullGrows(fetched, s, r, c);
    }
    LinesApart(RowSize(cols), NonNull(fetched, r, c), Offset(cols, c), cols[c].width,
               NonNull(fetched, s, d), Offset(cols, d), cols[d].width);
  }

  /** The slot moves on by a row's size after a value, and stays after a null. */
  lemma NextSlot(cols: seq<Column>, fetched: seq<seq<Cell>>, r: nat, c: nat)
    requires Fits(cols, fetched) && r < |fetched| && c < |cols|
    ensures Slot(cols, fetched, r + 1, c)
         == Slot(cols, fetched, r, c) + if fetched[r][c].Data? then RowSize(cols) else 0
  {
    hide RowSize, Offset;
    var n := NonNull(fetched, r, c);
    assert RowSize(cols) * (n + 1) == RowSize(cols) * n + RowSize(cols);
  }

  // ---- What the buffer and the fields hold ----

  predicate InRange(cols: seq<Column>, fetched: seq<seq<Cell>>, r: int, c: int) {
    0 <= r < |fetched| && 0 <= c < |cols|
  }

  /** What the library stores of a value: as much as the column is wide. */
  function Stored(col: Column, bytes: seq<Byte>): (s: seq<Byte>)
    ensures |s| <= col.width && |s| <= |bytes|
    ensures |bytes| <= col.width ==> s == bytes
  {
    bytes[..Min(col.width, |bytes|)]
  }

  /** What is stored of a cell's value is at its slot. */
  predicate Held(buf: seq<Byte>, cols: seq<Column>, fetched: seq<seq<Cell>>, r: int, c: int)
    requires Fits(cols, fetched) && InRange(cols, fetched, r, c)
  {
    fetched[r][c].Data? ==>
      var at, stored := Slot(cols, fetched, r, c), Stored(cols[c], fetched[r][c].bytes);
      at + cols[c].width <= |buf| && buf[at..at + |stored|] == stored
  }

  /** And text that leaves room for it is followed by a zero byte. */
  predicate Terminated(buf: seq<Byte>, cols: seq<Column>, fetched: seq<seq<Cell>>, r: int, c: int)
    requires Fits(cols, fetched) && InRange(cols, fetched, r, c)
  {
    Held(buf, cols, fetched, r, c) &&
    (fetched[r][c].Data? && cols[c].isText && |fetched[r][c].bytes| < cols[c].width ==>
       buf[Slot(cols, fetched, r, c) + |fetched[r][c].bytes|] == 0)
  }

  function FieldOf(cols: seq<Column>, fetched: seq<seq<Cell>>, r: nat, c: nat): Field
    requires Fits(cols, fetched) && InRange(cols, fetched, r, c)
  {
    match fetched[r][c]
    case Null(length) => Field(None, length)
    case Data(bytes) => Field(Some(Slot(cols, fetched, r, c)), |bytes|)
  }

  /** Reading a field gives these bytes. */
  predicate Reads(buf: seq<Byte>, field: Field, bytes: seq<Byte>) {
    && field.length == |bytes| && field.value.Some?
    && 0 <= field.value.value <= field.value.value + |bytes| <= |buf|
    && buf[field.value.value..field.value.value + |bytes|] == bytes
  }

  /**
   A value that fits reads as it was fetched. A longer one keeps its full length: it does so only if the buffer
   reaches that far and the bytes behind its slot happen to be the missing ones.
   */
  lemma ReadsExactly(buf: seq<Byte>, cols: seq<Column>, fetched: seq<seq<Cell>>, r: nat, c: nat)
    requires Fits(cols, fetched) && InRange(cols, fetched, r, c)
    requires fetched[r][c].Data? && Held(buf, cols, fetched, r, c)
    ensures var at, bytes, width := Slot(cols, fetched, r, c), fetched[r][c].bytes, cols[c].width;
            Reads(buf, FieldOf(cols, fetched, r, c), bytes) <==>
            |bytes| <= width || (at + |bytes| <= |buf| && buf[at + width..at + |bytes|] == bytes[width..])
  {
    hide Slot;
    var at, bytes, width := Slot(cols, fetched, r, c), fetched[r][c].bytes, cols[c].width;
    if |bytes| > width && at + |bytes| <= |buf| {
      ReadInTwo(buf, at, width, bytes);
    }
  }

  lemma ReadInTwo(buf: seq<Byte>, at: nat, width: nat, bytes: seq<Byte>)
    requires width <= |bytes| && at + |bytes| <= |buf| && buf[at..at + width] == bytes[..width]
    ensures buf[at..at + |bytes|] == bytes <==> buf[at + width..at + |bytes|] == bytes[width..]
  {
    var read := buf[at..at + |bytes|];
    assert read[..width] == buf[at..at + width] && read[width..] == buf[at + width..at + |bytes|];
    assert read == read[..width] + read[width..] && bytes == bytes[..width] + bytes[width..];
  }

  // ---- Which columns are wide enough ----

  /**
   The column types by the room they get: Short is SHORT and YEAR, Long is LONG, INT24 and FLOAT, LongLong is LONGLONG,
   DOUBLE and BIT, Time is every date and time type, Text every blob and string type. Other types are not listed.
   */
  datatype ColumnType = NullType | Tiny | Short | Long | LongLong | Time | Text | Decimal | Other

  /** Text gets its longest value and the zero byte, counted in 32 bits; timeSize is the size of a time structure. */
  function SizeForType(t: ColumnType, maxLength: nat, timeSize: Uint32): Uint32 {
    match t
    case NullType => 0
    case Tiny => 1
    case Short => 2
    case Long => 4
    case LongLong => 8
    case Time => timeSize
    case Text => Wrap32(maxLength + 1)
    case Decimal => 64
    case Other => 0
  }

  /** Every text up to the longest fits with its zero byte exactly when both can be counted in 32 bits. */
  lemma TextFitsExactly(maxLength: nat, timeSize: Uint32)
    ensures (forall bytes: seq<Byte> | |bytes| <= maxLength :: |bytes| < SizeForType(Text, maxLength, timeSize))
            <==> maxLength + 1 < TWO32
  {
    WrapTotal(maxLength + 1);
    hide Wrap32;
    if maxLength + 1 >= TWO32 {
      var bytes: seq<Byte> := seq(maxLength, _ => 0);
      assert |bytes| == maxLength && |bytes| >= SizeForType(Text, maxLength, timeSize);
    }
  }

  lemma WrapTotal(x: nat)
    ensures x < TWO32 ==> Wrap32(x) == x
    ensures x >= TWO32 ==> Wrap32(x) < x
  {
  }

  /** The fixed sizes have room for every value of their types: 8, 16, 32 and 64 bits. */
  lemma FixedSizesFit(maxLength: nat, timeSize: Uint32)
    ensures Pow(256, SizeForType(Tiny, maxLength, timeSize)) == Pow(2, 8)
    ensures Pow(256, SizeForType(Short, maxLength, timeSize)) == Pow(2, 16)
    ensures Pow(256, SizeForType(Long, maxLength, timeSize)) == Pow(2, 32)
    ensures Pow(256, SizeForType(LongLong, maxLength, timeSize)) == Pow(2, 64)
  {
    assert Pow(2, 8) == 256;
    PowMul(2, 8, 1);
    PowMul(2, 8, 2);
    PowMul(2, 8, 4);
    PowMul(2, 8, 8);
  }

  /** Decimals with a sign and a point fit exactly up to 62 digits. */
  lemma DecimalFitsExactly(digits: nat, maxLength: nat, timeSize: Uint32)
    ensures (forall bytes: seq<Byte> | |bytes| <= digits + 2 :: |bytes| <= SizeForType(Decimal, maxLength, timeSize))
            <==> digits <= 62
  {
    var bytes: seq<Byte> := seq(digits + 2, _ => 0);
    assert |bytes| == digits + 2;
  }

  /** A type that is not listed gets no room at all: no value but the empty one can be read. */
  lemma UnlistedTypeMisread(bytes: seq<Byte>, maxLength: nat, timeSize: Uint32)
    requires bytes != []
    ensures var cols, fetched := [Column(SizeForType(Other, maxLength, timeSize), false)], [[Data(bytes)]];
            && Fits(cols, fetched) && RowSize(cols) * |fetched| == 0 && Held([], cols, fetched, 0, 0)
            && !Reads([], FieldOf(cols, fetched, 0, 0), bytes)
  {
    var cols, fetched := [Column(SizeForType(Other, maxLength, timeSize), false)], [[Data(bytes)]];
    assert |fetched[0]| == |cols| == 1 && cols[0].width == 0;
    assert Offset(cols, 1) == Offset(cols, 0) + cols[0].width;
    assert Slot(cols, fetched, 0, 0) == 0;
    ReadsExactly([], cols, fetched, 0, 0);
  }

  /** Nothing changed outside the slot of a cell. */
  predicate OnlyInSlot(b0: seq<Byte>, b1: seq<Byte>, at: int, width: int) {
    |b0| == |b1| && forall k :: 0 <= k < |b0| && !(at <= k < at + width) ==> b0[k] == b1[k]
  }

  /** Writing to one slot disturbs no other cell. */
  lemma OtherCellsKept(b0: seq<Byte>, b1: seq<Byte>, cols: seq<Column>, fetched: seq<seq<Cell>>,
                       r: nat, c: nat, s: nat, d: nat)
    requires Fits(cols, fetched) && InRange(cols, fetched, r, c) && InRange(cols, fetched, s, d)
    requires fetched[r][c].Data? && OnlyInSlot(b0, b1, Slot(cols, fetched, r, c), cols[c].width)
    requires r != s || c != d
    ensures Held(b0, cols, fetched, s, d) ==> Held(b1, cols, fetched, s, d)
    ensures Terminated(b0, cols, fetched, s, d) ==> Terminated(b1, cols, fetched, s, d)
  {
    hide Slot;
    if fetched[s][d].Data? && Held(b0, cols, fetched, s, d) {
      SlotsDisjoint(cols, fetched, r, c, s, d);
      var at, n := Slot(cols, fetched, s, d), |Stored(cols[d], fetched[s][d].bytes)|;
      assert b1[at..at + n] == b0[at..at + n];
    }
  }

  /** All rows before r are complete, and of row r the first c values have been fetched. */
  ghost predicate Fetching(buf: seq<Byte>, cols: seq<Column>, fetched: seq<seq<Cell>>, r: int, c: int)
    requires Fits(cols, fetched)
  {
    && (forall s, d :: InRange(cols, fetched, s, d) && s < r ==> Terminated(buf, cols, fetched, s, d))
    && (forall d :: InRange(cols, fetched, r, d) && d < c ==> Held(buf, cols, fetched, r, d))
  }

  /** All rows before r and the first c cells of row r are complete, and row r is fetched. */
  ghost predicate Loading(buf: seq<Byte>, cols: seq<Column>, fetched: seq<seq<Cell>>, r: int, c: int)
    requires Fits(cols, fetched)
  {
    && Fetching(buf, cols, fetched, r, |cols|)
    && (forall d :: InRange(cols, fetched, r, d) && d < c ==> Terminated(buf, cols, fetched, r, d))
  }

  /** What a step for a cell may change: its slot when it has a value, otherwise nothing. */
  predicate CellStep(b0: seq<Byte>, b1: seq<Byte>, cols: seq<Column>, fetched: seq<seq<Cell>>, r: int, c: int)
    requires Fits(cols, fetched) && InRange(cols, fetched, r, c)
  {
    if fetched[r][c].Data? then OnlyInSlot(b0, b1, Slot(cols, fetched, r, c), cols[c].width) else b0 == b1
  }

  lemma FetchStep(b0: seq<Byte>, b1: seq<Byte>, cols: seq<Column>, fetched: seq<seq<Cell>>, r: nat, c: nat)
    requires Fits(cols, fetched) && InRange(cols, fetched, r, c) && CellStep(b0, b1, cols, fetched, r, c)
    requires Fetching(b0, cols, fetched, r, c) && Held(b1, cols, fetched, r, c)
    ensures Fetching(b1, cols, fetched, r, c + 1)
  {
    hide Slot, Held, Terminated, OnlyInSlot;
    if fetched[r][c].Data? {
      forall s: nat, d: nat | InRange(cols, fetched, s, d) && (s != r || d != c)
        ensures Held(b0, cols, fetched, s, d) ==> Held(b1, cols, fetched, s, d)
        ensures Terminated(b0, cols, fetched, s, d) ==> Terminated(b1, cols, fetched, s, d)
      {
        OtherCellsKept(b0, b1, cols, fetched, r, c, s, d);
      }
    }
  }

  lemma LoadStep(b0: seq<Byte>, b1: seq<Byte>, cols: seq<Column>, fetched: seq<seq<Cell>>, r: nat, c: nat)
    requires Fits(cols, fetched) && InRange(cols, fetched, r, c) && CellStep(b0, b1, cols, fetched, r, c)
    requires Loading(b0, cols, fetched, r, c) && Terminated(b1, cols, fetched, r, c)
    ensures Loading(b1, cols, fetched, r, c + 1)
  {
    hide Slot, Held, OnlyInSlot;
    assert Held(b1, cols, fetched, r, c);
    hide Terminated;
    if fetched[r][c].Data? {
      forall s: nat, d: nat | InRange(cols, fetched, s, d) && (s != r || d != c)
        ensures Held(b0, cols, fetched, s, d) ==> Held(b1, cols, fetched, s, d)
        ensures Terminated(b0, cols, fetched, s, d) ==> Terminated(b1, cols, fetched, s, d)
      {
        OtherCellsKept(b0, b1, cols, fetched, r, c, s, d);
      }
    }
  }

  // ---- The 32-bit index of a field ----

  function RowMajor(row: nat, fieldCount: nat, column: nat): nat {
    row * fieldCount + column
  }

  function Index(row: nat, fieldCount: nat, column: nat): Uint32 {
    Wrap32(Wrap32(Wrap32(row) * fieldCount) + column)
  }

  lemma WrapSmall(x: nat)
    requires x < TWO32
    ensures Wrap32(x) == x
  {
  }

  /** The wrapping index is the row-major one as long as the fields can be counted in 32 bits. */
  lemma IndexExact(row: nat, rowCount: nat, fieldCount: nat, column: nat)
    requires row < rowCount && column < fieldCount && rowCount * fieldCount < TWO32
    ensures Index(row, fieldCount, column) == RowMajor(row, fieldCount, column) < rowCount * fieldCount
  {
    hide Wrap32;
    MulMono(row + 1, rowCount, fieldCount);
    assert (row + 1) * fieldCount == row * fieldCount + fieldCount;
    MulMono(1, fieldCount, row);
    WrapSmall(row);
    WrapSmall(row * fieldCount);
    WrapSmall(row * fieldCount + column);
  }

  lemma NextRowMajor(row: nat, fieldCount: nat)
    ensures RowMajor(row + 1, fieldCount, 0) == RowMajor(row, fieldCount, fieldCount)
  {
  }

  lemma RowMajorMono(r: nat, s: nat, fieldCount: nat, c: nat)
    requires r <= s
    ensures RowMajor(r, fieldCount, 0) <= RowMajor(s, fieldCount, c)
  {
    MulMono(r, s, fieldCount);
  }

  lemma FieldsCounted(rowCount: nat, fieldCount: nat)
    requires fieldCount > 0 && rowCount * fieldCount < TWO32
    ensures Index(rowCount, fieldCount, 0) == rowCount * fieldCount
  {
    hide Wrap32;
    MulMono(1, fieldCount, rowCount);
    WrapSmall(rowCount);
    WrapSmall(rowCount * fieldCount);
  }

  /** The cell whose row-major number is i. */
  lemma CellAt(i: nat, rowCount: nat, fieldCount: nat) returns (r: nat, c: nat)
    requires i < TWO32 <= rowCount * fieldCount
    ensures r < rowCount && c < fieldCount && Index(r, fieldCount, c) == i
  {
    assert fieldCount != 0;
    r, c := i / fieldCount, i % fieldCount;
    assert i == r * fieldCount + c;
    if r >= rowCount {
      MulMono(rowCount, r, fieldCount);
    }
    MulMono(1, fieldCount, r);
    hide Wrap32;
    WrapSmall(r);
    WrapSmall(r * fieldCount);
    WrapSmall(i);
  }

  ghost predicate IndicesInBounds(rowCount: nat, fieldCount: nat) {
    forall r: nat, c: nat | r < rowCount && c < fieldCount ::
      Index(r, fieldCount, c) < Index(rowCount, fieldCount, 0)
  }

  /** Otherwise some cell has an index behind the last field, whose number wraps as well. */
  lemma IndexInBoundsExactly(rowCount: nat, fieldCount: nat)
    ensures IndicesInBounds(rowCount, fieldCount) <==> rowCount * fieldCount < TWO32
  {
    hide Index;
    var total := rowCount * fieldCount;
    if total < TWO32 {
      forall r: nat, c: nat | r < rowCount && c < fieldCount
        ensures Index(r, fieldCount, c) < Index(rowCount, fieldCount, 0)
      {
        IndexExact(r, rowCount, fieldCount, c);
        FieldsCounted(rowCount, fieldCount);
      }
    } else {
      var r, c := CellAt(Index(rowCount, fieldCount, 0), rowCount, fieldCount);
      assert Index(r, fieldCount, c) == Index(rowCount, fieldCount, 0);
    }
  }

  /** Different cells have different indices. */
  lemma RowMajorInjective(r: nat, s: nat, fieldCount: nat, c: nat, d: nat)
    requires c < fieldCount && d < fieldCount && RowMajor(r, fieldCount, c) == RowMajor(s, fieldCount, d)
    ensures r == s && c == d
  {
    DivModUnique(r * fieldCount + c, fieldCount, r, c);
    DivModUnique(s * fieldCount + d, fieldCount, s, d);
  }

  predicate FieldSet(fields: seq<Field>, cols: seq<Column>, fetched: seq<seq<Cell>>, r: nat, c: nat)
    requires Fits(cols, fetched) && InRange(cols, fetched, r, c)
  {
    var i := RowMajor(r, |cols|, c);
    i < |fields| && fields[i] == FieldOf(cols, fetched, r, c)
  }

  /** The fields of all rows before r and of the first c cells of row r. */
  ghost predicate FieldsSet(fields: seq<Field>, cols: seq<Column>, fetched: seq<seq<Cell>>, r: int, c: int)
    requires Fits(cols, fetched)
  {
    forall s: nat, d: nat | InRange(cols, fetched, s, d) && (s < r || (s == r && d < c)) ::
      FieldSet(fields, cols, fetched, s, d)
  }

  /** The fields from cell c of row r on are as they were constructed. */
  predicate Unset(fields: seq<Field>, cols: seq<Column>, r: nat, c: nat) {
    forall i :: RowMajor(r, |cols|, c) <= i < |fields| ==> fields[i] == Field(None, 0)
  }

  lemma FieldStep(fields: seq<Field>, cols: seq<Column>, fetched: seq<seq<Cell>>, r: nat, c: nat, i: nat)
    requires Fits(cols, fetched) && InRange(cols, fetched, r, c) && FieldsSet(fields, cols, fetched, r, c)
    requires i == RowMajor(r, |cols|, c) < |fields| && Unset(fields, cols, r, c)
    ensures Unset(fields[i := FieldOf(cols, fetched, r, c)], cols, r, c + 1)
    ensures FieldsSet(fields[i := FieldOf(cols, fetched, r, c)], cols, fetched, r, c + 1)
  {
    assert RowMajor(r, |cols|, c + 1) == i + 1;
    hide FieldOf, RowMajor;
    var updated := fields[i := FieldOf(cols, fetched, r, c)];
    forall s: nat, d: nat | InRange(cols, fetched, s, d) && (s < r || (s == r && d < c + 1))
      ensures FieldSet(updated, cols, fetched, s, d)
    {
      if s != r || d != c {
        assert FieldSet(fields, cols, fetched, s, d);
        if RowMajor(s, |cols|, d) == i {
          RowMajorInjective(r, s, |cols|, c, d);
        }
      }
    }
  }

  // ---- The loader ----

  class PreparedResultSet {
    const cols: seq<Column>
    const rowCount: nat
    const dataBuffer: array<Byte>
    const bind: array<int>
    const rows: array<Field>
    var rowPosition: nat

    ghost predicate Valid()
    {
      && RowSize(cols) < TWO32
      && dataBuffer.Length == RowSize(cols) * rowCount
      && bind.Length == |cols|
      && rows.Length == rowCount * |cols| < TWO32
    }

    /** The first n rows are loaded: every field refers to its slot, which holds its value; the rest is unset. */
    ghost predicate Loaded(fetched: seq<seq<Cell>>, n: nat)
      requires Fits(cols, fetched)
      reads dataBuffer, rows
    {
      Fetching(dataBuffer[..], cols, fetched, n, 0) && FieldsSet(rows[..], cols, fetched, n, 0)
      && Unset(rows[..], cols, n, 0)
    }

    /** The pointer of each column is at its slot in row r, or in the next row for columns before c. */
    ghost predicate PointersAt(fetched: seq<seq<Cell>>, r: nat, c: nat)
      requires Fits(cols, fetched) && r <= |fetched| && (c > 0 ==> r < |fetched|)
      reads bind
    {
      && bind.Length == |cols|
      && forall d :: 0 <= d < |cols| ==> bind[d] == Slot(cols, fetched, if d < c then r + 1 else r, d)
    }

    /** Fetches all rows; afterwards every cell reads what was fetched for it. */
    constructor (cols: seq<Column>, rowCount: nat, fetched: seq<seq<Cell>>)
      requires Fits(cols, fetched) && RowSize(cols) < TWO32 && rowCount * |cols| < TWO32
      ensures Valid() && this.cols == cols && this.rowCount == rowCount && rowPosition == 0
      ensures fresh(dataBuffer) && fresh(bind) && fresh(rows)
      ensures Loaded(fetched, Min(|fetched|, rowCount))
    {
      this.cols, this.rowCount := cols, rowCount;
      dataBuffer := new Byte[RowSize(cols) * rowCount](_ => 0);
      bind := new int[|cols|](_ => 0);
      rows := new Field[rowCount * |cols|](_ => Field(None, 0));
      rowPosition := 0;
      new;
      FetchAll(fetched);
    }

    /** The loop over the rows: fetch one, load its cells. */
    method FetchAll(fetched: seq<seq<Cell>>)
      requires Valid() && Fits(cols, fetched) && rowPosition == 0
      requires forall i :: 0 <= i < rows.Length ==> rows[i] == Field(None, 0)
      modifies this, dataBuffer, bind, rows
      ensures rowPosition == 0 && Loaded(fetched, Min(|fetched|, rowCount))
    {
      hide Fetching, Loading, FieldsSet, Slot, RowSize;
      BindColumns();
      NothingYet(dataBuffer[..], rows[..], cols, fetched);
      while rowPosition < rowCount && rowPosition < |fetched|
        invariant rowPosition <= rowCount && rowPosition <= |fetched|
        invariant Loaded(fetched, rowPosition)
        invariant PointersAt(fetched, rowPosition, 0)
        decreases rowCount - rowPosition
      {
        FetchRow(fetched);
        LoadRow(fetched);
        rowPosition := rowPosition + 1;
      }
      rowPosition := 0;
    }

    method BindColumns()
      requires RowSize(cols) < TWO32 && bind.Length == |cols|
      modifies bind
      ensures forall d :: 0 <= d < |cols| ==> bind[d] == Offset(cols, d)
    {
      hide Wrap32, RowSize, Offset;
      PartOfRow(cols, 0);
      var offset := 0;
      for i := 0 to |cols|
        invariant offset == Offset(cols, i)
        invariant forall d :: 0 <= d < i ==> bind[d] == Offset(cols, d)
      {
        bind[i] := offset;
        PartOfRow(cols, i);
        PartOfRow(cols, i + 1);
        WrapSmall(offset + cols[i].width);
        offset := Wrap32(offset + cols[i].width);
      }
    }

    /** The client library writes a value through the pointer of its column. */
    method WriteValue(at: nat, bytes: seq<Byte>)
      requires at + |bytes| <= dataBuffer.Length
      modifies dataBuffer
      ensures dataBuffer[at..at + |bytes|] == bytes
      ensures OnlyInSlot(old(dataBuffer[..]), dataBuffer[..], at, |bytes|)
    {
      for i := 0 to |bytes|
        invariant forall k :: 0 <= k < i ==> dataBuffer[at + k] == bytes[k]
        invariant forall k :: 0 <= k < dataBuffer.Length && !(at <= k < at + i) ==>
                    dataBuffer[k] == old(dataBuffer[k])
      {
        dataBuffer[at + i] := bytes[i];
      }
    }

    method FetchCell(fetched: seq<seq<Cell>>, c: nat)
      requires Valid() && Fits(cols, fetched) && InRange(cols, fetched, rowPosition, c) && rowPosition < rowCount
      requires PointersAt(fetched, rowPosition, 0)
      modifies dataBuffer
      ensures CellStep(old(dataBuffer[..]), dataBuffer[..], cols, fetched, rowPosition, c)
      ensures Held(dataBuffer[..], cols, fetched, rowPosition, c)
    {
      match fetched[rowPosition][c] {
        case Null(_) =>
        case Data(bytes) =>
          SlotInBounds(cols, fetched, rowCount, rowPosition, c);
          assert bind[c] == Slot(cols, fetched, rowPosition, c);
          WriteValue(bind[c], Stored(cols[c], bytes));
      }
    }

    /** One mysql_stmt_fetch. */
    method FetchRow(fetched: seq<seq<Cell>>)
      requires Valid() && Fits(cols, fetched) && rowPosition < |fetched| && rowPosition < rowCount
      requires Loaded(fetched, rowPosition) && PointersAt(fetched, rowPosition, 0)
      modifies dataBuffer
      ensures Loading(dataBuffer[..], cols, fetched, rowPosition, 0)
    {
      for c := 0 to |cols|
        invariant Fetching(dataBuffer[..], cols, fetched, rowPosition, c)
      {
        ghost var before := dataBuffer[..];
        FetchCell(fetched, c);
        FetchStep(before, dataBuffer[..], cols, fetched, rowPosition, c);
      }
    }

    /** Ends a text that leaves room for it with a zero byte. */
    method EndText(fetched: seq<seq<Cell>>, c: nat)
      requires Fits(cols, fetched) && InRange(cols, fetched, rowPosition, c) && fetched[rowPosition][c].Data?
      requires bind.Length == |cols| && bind[c] == Slot(cols, fetched, rowPosition, c)
      requires Held(dataBuffer[..], cols, fetched, rowPosition, c)
      modifies dataBuffer
      ensures CellStep(old(dataBuffer[..]), dataBuffer[..], cols, fetched, rowPosition, c)
      ensures Terminated(dataBuffer[..], cols, fetched, rowPosition, c)
    {
      hide Slot;
      var buffer, fetchedLength := bind[c], |fetched[rowPosition][c].bytes|;
      if cols[c].isText && fetchedLength < cols[c].width {
        dataBuffer[buffer + fetchedLength] := 0;
        assert dataBuffer[buffer..buffer + fetchedLength] == old(dataBuffer[buffer..buffer + fetchedLength]);
      }
    }

    /** Points the field at the value and moves the column's pointer on. */
    method LoadCell(fetched: seq<seq<Cell>>, c: nat)
      requires Valid() && Fits(cols, fetched) && InRange(cols, fetched, rowPosition, c) && rowPosition < rowCount
      requires PointersAt(fetched, rowPosition, c) && Held(dataBuffer[..], cols, fetched, rowPosition, c)
      modifies dataBuffer, bind, rows
      ensures PointersAt(fetched, rowPosition, c + 1)
      ensures CellStep(old(dataBuffer[..]), dataBuffer[..], cols, fetched, rowPosition, c)
      ensures Terminated(dataBuffer[..], cols, fetched, rowPosition, c)
      ensures var i := RowMajor(rowPosition, |cols|, c);
              i < rows.Length && rows[..] == old(rows[..])[i := FieldOf(cols, fetched, rowPosition, c)]
    {
      IndexExact(rowPosition, rowCount, |cols|, c);
      hide Slot, RowSize, Index, RowMajor, OnlyInSlot;
      NextSlot(cols, fetched, rowPosition, c);
      var i := Index(rowPosition, |cols|, c);
      match fetched[rowPosition][c] {
        case Null(reported) =>
          rows[i] := Field(None, reported);
        case Data(bytes) =>
          EndText(fetched, c);
          hide Held, Terminated;
          rows[i] := Field(Some(bind[c]), |bytes|);
          bind[c] := bind[c] + RowSize(cols);
      }
    }

    /** The inner loop over the columns. */
    method LoadRow(fetched: seq<seq<Cell>>)
      requires Valid() && Fits(cols, fetched) && rowPosition < |fetched| && rowPosition < rowCount
      requires Loading(dataBuffer[..], cols, fetched, rowPosition, 0) && PointersAt(fetched, rowPosition, 0)
      requires FieldsSet(rows[..], cols, fetched, rowPosition, 0) && Unset(rows[..], cols, rowPosition, 0)
      modifies dataBuffer, bind, rows
      ensures Loaded(fetched, rowPosition + 1) && PointersAt(fetched, rowPosition + 1, 0)
    {
      for c := 0 to |cols|
        invariant Loading(dataBuffer[..], cols, fetched, rowPosition, c)
        invariant FieldsSet(rows[..], cols, fetched, rowPosition, c) && Unset(rows[..], cols, rowPosition, c)
        invariant PointersAt(fetched, rowPosition, c)
      {
        ghost var before, fields := dataBuffer[..], rows[..];
        LoadCell(fetched, c);
        LoadStep(before, dataBuffer[..], cols, fetched, rowPosition, c);
        FieldStep(fields, cols, fetched, rowPosition, c, RowMajor(rowPosition, |cols|, c));
      }
      NextRowMajor(rowPosition, |cols|);
    }

    // ---- Reading ----

    method NextRow() returns (more: bool)
      modifies this`rowPosition
      ensures rowPosition == old(rowPosition) + 1 && (more <==> rowPosition < rowCount)
    {
      rowPosition := rowPosition + 1;
      more := rowPosition < rowCount;
    }

    /**
     The field of a column in the current row. In a fetched row it reads exactly what was fetched, if that fits its
     column; a null has no value; a row that was never fetched has unset fields.
     */
    method At(index: nat, ghost fetched: seq<seq<Cell>>) returns (field: Field)
      requires Valid() && Fits(cols, fetched) && Loaded(fetched, Min(|fetched|, rowCount))
      requires rowPosition < rowCount && index < |cols|
      ensures rowPosition >= |fetched| ==> field == Field(None, 0)
      ensures rowPosition < |fetched| ==> field == FieldOf(cols, fetched, rowPosition, index)
      ensures rowPosition < |fetched| && fetched[rowPosition][index].Data? ==>
                var bytes := fetched[rowPosition][index].bytes;
                && Held(dataBuffer[..], cols, fetched, rowPosition, index)
                && (|bytes| <= cols[index].width ==> Reads(dataBuffer[..], field, bytes))
                && field.value.Some? && field.length == |bytes|
                && (cols[index].isText && |bytes| < cols[index].width ==>
                      dataBuffer[..][field.value.value + |bytes|] == 0)
      ensures rowPosition < |fetched| && fetched[rowPosition][index].Null? ==>
                field.value == None && field.length == fetched[rowPosition][index].reported
    {
      hide Slot, Index, RowMajor, RowSize;
      IndexExact(rowPosition, rowCount, |cols|, index);
      field := rows[Index(rowPosition, |cols|, index)];
      if rowPosition < |fetched| {
        assert InRange(cols, fetched, rowPosition, index);
        assert FieldSet(rows[..], cols, fetched, rowPosition, index);
        assert Terminated(dataBuffer[..], cols, fetched, rowPosition, index);
        if fetched[rowPosition][index].Data? {
          ReadsExactly(dataBuffer[..], cols, fetched, rowPosition, index);
        }
      } else {
        RowMajorMono(Min(|fetched|, rowCount), rowPosition, |cols|, index);
        assert rows[..][RowMajor(rowPosition, |cols|, index)] == Field(None, 0);
      }
    }
  }

  lemma PartOfRow(cols: seq<Column>, i: nat)
    requires i <= |cols|
    ensures Offset(cols, i) <= RowSize(cols)
    ensures Offset(cols, i) == if i == 0 then 0 else Offset(cols, i - 1) + cols[i - 1].width
  {
    if i < |cols| {
      OffsetMono(cols, i, |cols|);
    }
  }

  lemma NothingYet(buf: seq<Byte>, fields: seq<Field>, cols: seq<Column>, fetched: seq<seq<Cell>>)
    requires Fits(cols, fetched)
    requires forall i :: 0 <= i < |fields| ==> fields[i] == Field(None, 0)
    ensures Fetching(buf, cols, fetched, 0, 0) && FieldsSet(fields, cols, fetched, 0, 0) && Unset(fields, cols, 0, 0)
    ensures forall d :: 0 <= d < |cols| ==> Slot(cols, fetched, 0, d) == Offset(cols, d)
  {
  }
}
