/**
  The check of one toasted value: its chunks, in the order of the toast index, against the
  size stored in the toast pointer.  chunkSize is TOAST_MAX_CHUNK_SIZE, which the block size
  makes far larger than 4.
 */
module VerifyToast {
  import opened CInts
  import opened Optional

  /** The chunk_data column: null, a plain or short varlena of a payload size, or anything else. */
  datatype Data = Null | Plain(size: nat) | Short(size: nat) | Invalid

  /** A row of the toast table; None is a null sequence number. */
  datatype Row = Row(chunkSeq: Option<int>, data: Data)

  datatype Report =
    | NullSequence
    | WrongSequence(found: int, expected: int)
    | NullData(found: int)
    | InvalidHeader(found: int)
    | AfterLast(found: int, last: int)
    | WrongSize(found: int, size: int, expected: int)
    | NotFound
    | EndedEarly(last: int, expected: int)

  /** last_chunk_seq: an unsigned 32-bit subtraction, then a division. */
  function LastChunk(extsize: nat, chunkSize: nat): int
    requires chunkSize > 0
  {
    ToInt32((extsize - 1) % 0x1_0000_0000 / chunkSize)
  }

  function ExpectedSize(chunk: int, extsize: nat, chunkSize: nat): int
    requires chunkSize > 0
  {
    var last := LastChunk(extsize, chunkSize);
    if chunk < last then ToInt32(chunkSize) else ToInt32(extsize - last * chunkSize)
  }

  class HeapCheckContext {
    const chunkSize: nat
    var reports: seq<Report>

    constructor (chunkSize: nat)
      requires chunkSize > 0
      ensures this.chunkSize == chunkSize && reports == []
    {
      this.chunkSize, reports := chunkSize, [];
    }

    method Report(r: Report)
      modifies this
      ensures reports == old(reports) + [r]
    {
      reports := reports + [r];
    }

    /** check_toast_tuple. */
    method CheckToastTuple(row: Row, expected: int, extsize: nat) returns (next: int)
      requires chunkSize > 0
      modifies this
      ensures reports == old(reports) <==> RowFits(row, expected, extsize, chunkSize)
      ensures old(reports) <= reports
      ensures next == if row.chunkSeq.Some? then ToInt32(row.chunkSeq.value + 1) else expected
      ensures reports == old(reports) + TupleReports(row, expected, extsize, chunkSize)
      ensures forall r :: r in reports[|old(reports)|..] <==> Concerns(r, row, expected, extsize, chunkSize)
    {
      hide LastChunk, ExpectedSize, Concerns, RowFits;
      ReportsAre(row, expected, extsize, chunkSize);
      next := expected;
      var last := LastChunk(extsize, chunkSize);
      if row.chunkSeq.None? {
        Report(NullSequence);
        return;
      }
      var chunk := row.chunkSeq.value;
      if chunk != expected {
        Report(WrongSequence(chunk, expected));
      }
      next := ToInt32(chunk + 1);
      if row.data.Null? {
        Report(NullData(chunk));
        return;
      }
      if row.data.Invalid? {
        Report(InvalidHeader(chunk));
        return;
      }
      if chunk > last {
        Report(AfterLast(chunk, last));
        return;
      }
      var size := ExpectedSize(chunk, extsize, chunkSize);
      if row.data.size != size {
        Report(WrongSize(chunk, row.data.size, size));
      }
    }

    /** check_toasted_attribute; rows are what the ordered scan returns. */
    method CheckToastedAttribute(rows: seq<Row>, extsize: nat)
      requires extsize < 0x4000_0000 && 4 <= chunkSize < 0x4000_0000
      modifies this
      ensures old(reports) <= reports
      ensures reports == old(reports) <==> IsValue(rows, Wanted(extsize), chunkSize)
      ensures rows == [] ==> reports == old(reports) + [NotFound]
      ensures IsStart(rows, extsize, chunkSize) ==>
                reports == old(reports) + [EndedEarly(LastChunk(extsize, chunkSize), |rows|)]
    {
      hide LastChunk, RowFits, IsValue;
      var expected, last, found := 0, LastChunk(extsize, chunkSize), false;
      LastChunkIs(extsize, chunkSize);
      for i := 0 to |rows|
        invariant found <==> i > 0
        invariant old(reports) <= reports
        invariant reports == old(reports) <==> forall j | 0 <= j < i :: RowFits(rows[j], j, extsize, chunkSize)
        invariant reports == old(reports) ==> expected == i && i <= last + 1
      {
        found := true;
        FitsMeans(rows[i], i, extsize, chunkSize);
        expected := CheckToastTuple(rows[i], expected, extsize);
      }
      if !found {
        Report(NotFound);
      } else if expected <= last {
        Report(EndedEarly(last, expected));
      }
      RowsAreChunks(rows, extsize, chunkSize);
    }
  }

  /** The rows are the first chunks of the value, but not all. */
  predicate IsStart(rows: seq<Row>, extsize: nat, chunkSize: nat)
    requires chunkSize > 0
  {
    && 0 < |rows| <= LastChunk(extsize, chunkSize)
    && forall i | 0 <= i < |rows| :: RowFits(rows[i], i, extsize, chunkSize)
  }

  /** The reports about a row, in order. */
  function TupleReports(row: Row, expected: int, extsize: nat, chunkSize: nat): seq<Report>
    requires chunkSize > 0
  {
    if row.chunkSeq.None? then [NullSequence]
    else
      var chunk, last := row.chunkSeq.value, LastChunk(extsize, chunkSize);
      var size := ExpectedSize(chunk, extsize, chunkSize);
      (if chunk != expected then [WrongSequence(chunk, expected)] else [])
      + if row.data.Null? then [NullData(chunk)]
        else if row.data.Invalid? then [InvalidHeader(chunk)]
        else if chunk > last then [AfterLast(chunk, last)]
        else if row.data.size != size then [WrongSize(chunk, row.data.size, size)]
        else []
  }

  /** They are those that are true of it, and none are made if and only if it fits. */
  lemma ReportsAre(row: Row, expected: int, extsize: nat, chunkSize: nat)
    requires chunkSize > 0
    ensures forall r :: r in TupleReports(row, expected, extsize, chunkSize) <==>
            Concerns(r, row, expected, extsize, chunkSize)
    ensures TupleReports(row, expected, extsize, chunkSize) == [] <==> RowFits(row, expected, extsize, chunkSize)
  {
    hide LastChunk, ExpectedSize;
    if row.chunkSeq.Some? {
      var chunk := row.chunkSeq.value;
      var first := if chunk != expected then [WrongSequence(chunk, expected)] else [];
      assert forall r :: r in first <==> r == WrongSequence(chunk, expected) && chunk != expected;
    }
  }

  /** The report is true of the row; about data without a valid header nothing more is said. */
  predicate Concerns(r: Report, row: Row, expected: int, extsize: nat, chunkSize: nat)
    requires chunkSize > 0
  {
    var last := LastChunk(extsize, chunkSize);
    var plain := row.data.Plain? || row.data.Short?;
    match r
    case NullSequence => row.chunkSeq == None
    case WrongSequence(found, wanted) => row.chunkSeq == Some(found) && wanted == expected != found
    case NullData(found) => row.chunkSeq == Some(found) && row.data.Null?
    case InvalidHeader(found) => row.chunkSeq == Some(found) && row.data.Invalid?
    case AfterLast(found, l) => row.chunkSeq == Some(found) && plain && l == last < found
    case WrongSize(found, size, wanted) =>
      row.chunkSeq == Some(found) && plain && found <= last
      && size == row.data.size != wanted == ExpectedSize(found, extsize, chunkSize)
    case _ => false
  }

  /** Nothing is reported about a row. */
  predicate RowFits(row: Row, expected: int, extsize: nat, chunkSize: nat)
    requires chunkSize > 0
  {
    && row.chunkSeq == Some(expected)
    && (row.data.Plain? || row.data.Short?)
    && expected <= LastChunk(extsize, chunkSize)
    && row.data.size == ExpectedSize(expected, extsize, chunkSize)
  }

  lemma FitsMeans(row: Row, expected: nat, extsize: nat, chunkSize: nat)
    requires extsize < 0x4000_0000 && 4 <= chunkSize < 0x4000_0000
    ensures RowFits(row, expected, extsize, chunkSize) ==>
              && row.chunkSeq == Some(expected) && expected <= LastChunk(extsize, chunkSize)
              && ToInt32(expected + 1) == expected + 1
  {
    hide LastChunk, ExpectedSize;
    LastChunkIs(extsize, chunkSize);
    if expected < 0x4000_0000 {
      Small(expected + 1);
    }
  }

  // ---------- What the chunks of a value are ----------

  /** The size the chunks are checked against: a stored size of zero wraps around. */
  function Wanted(extsize: nat): (r: nat)
    ensures r > 0
  {
    if extsize == 0 then 0x1_0000_0000 else extsize
  }

  /** The sizes of the pieces into which a value is cut. */
  function Pieces(size: nat, chunkSize: nat): (r: seq<nat>)
    requires 0 < size && 0 < chunkSize
    ensures r != []
  {
    if size <= chunkSize then [size] else [chunkSize] + Pieces(size - chunkSize, chunkSize)
  }

  function Sum(s: seq<nat>): nat {
    if s == [] then 0 else s[0] + Sum(s[1..])
  }

  lemma {:induction false} PiecesSum(size: nat, chunkSize: nat)
    requires 0 < size && 0 < chunkSize
    ensures Sum(Pieces(size, chunkSize)) == size
  {
    if size > chunkSize {
      PiecesSum(size - chunkSize, chunkSize);
      assert Pieces(size, chunkSize)[1..] == Pieces(size - chunkSize, chunkSize);
    }
  }

  /** The rows are exactly the pieces of the value, numbered from zero, with valid data. */
  predicate IsValue(rows: seq<Row>, extsize: nat, chunkSize: nat)
    requires 0 < extsize && 0 < chunkSize
  {
    var pieces := Pieces(extsize, chunkSize);
    && |rows| == |pieces|
    && forall i | 0 <= i < |rows| :: IsChunk(rows[i], i, pieces[i])
  }

  predicate IsChunk(row: Row, i: int, size: nat) {
    row.chunkSeq == Some(i) && (row.data == Plain(size) || row.data == Short(size))
  }

  lemma DivideStep(a: nat, m: nat)
    requires 0 < m <= a
    ensures (a - m) / m == a / m - 1
  {
    assert (a - m) == (a / m - 1) * m + a % m;
    DivideUnique(a - m, m, a / m - 1, a % m);
  }

  /** Full chunks and a last one with the rest. */
  predicate IsCut(p: seq<nat>, size: nat, chunkSize: nat, last: int) {
    && 0 <= last == |p| - 1 && 0 <= last * chunkSize < size
    && p[last] == size - last * chunkSize
    && forall i | 0 <= i < last :: p[i] == chunkSize
  }

  lemma CutLonger(p: seq<nat>, size: nat, chunkSize: nat, last: int)
    requires IsCut(p, size, chunkSize, last)
    ensures IsCut([chunkSize] + p, size + chunkSize, chunkSize, last + 1)
  {
    assert (last + 1) * chunkSize == last * chunkSize + chunkSize;
  }

  lemma {:induction false} PiecesAt(size: nat, chunkSize: nat)
    requires 0 < size && 0 < chunkSize
    ensures IsCut(Pieces(size, chunkSize), size, chunkSize, (size - 1) / chunkSize)
  {
    if size <= chunkSize {
      DivideUnique(size - 1, chunkSize, 0, size - 1);
    } else {
      hide IsCut;
      PiecesAt(size - chunkSize, chunkSize);
      DivideStep(size - 1, chunkSize);
      CutLonger(Pieces(size - chunkSize, chunkSize), size - chunkSize, chunkSize, (size - 1) / chunkSize - 1);
    }
  }

  lemma LastChunkIs(extsize: nat, chunkSize: nat)
    requires extsize < 0x4000_0000 && 4 <= chunkSize < 0x4000_0000
    ensures LastChunk(extsize, chunkSize) == (Wanted(extsize) - 1) / chunkSize
    ensures 0 <= LastChunk(extsize, chunkSize) < 0x4000_0000
  {
    var a := Wanted(extsize) - 1;
    assert (extsize - 1) % 0x1_0000_0000 == a;
    Quotient(a, chunkSize);
    Small(a / chunkSize);
  }

  lemma Quotient(a: nat, m: nat)
    requires 4 <= m
    ensures 0 <= a / m && 4 * (a / m) <= a
  {
    DivideIs(a, m, a / m, a % m);
  }

  lemma DivideIs(a: nat, m: nat, q: int, r: int)
    requires 4 <= m && a == q * m + r && 0 <= r < m
    ensures 0 <= q && 4 * q <= a
  {
    Multiply(q, m);
    if q > 0 {
      assert q * m == q * (m - 4) + 4 * q;
    }
  }

  lemma Small(x: nat)
    requires x <= 0x4000_0000
    ensures ToInt32(x) == x
  {
  }

  lemma SizeIs(extsize: nat, chunkSize: nat, i: nat)
    requires extsize < 0x4000_0000 && 4 <= chunkSize < 0x4000_0000 && i < |Pieces(Wanted(extsize), chunkSize)|
    ensures ExpectedSize(i, extsize, chunkSize) == Pieces(Wanted(extsize), chunkSize)[i]
  {
    hide LastChunk, Pieces;
    PiecesAt(Wanted(extsize), chunkSize);
    LastChunkIs(extsize, chunkSize);
    var last := (Wanted(extsize) - 1) / chunkSize;
    if i == last {
      LastPiece(Wanted(extsize), chunkSize, last);
      WrapsAround(extsize - last * chunkSize, Wanted(extsize) - last * chunkSize);
    } else {
      Small(chunkSize);
    }
  }

  lemma LastPiece(size: nat, m: nat, last: int)
    requires size > 0 && m > 0 && last == (size - 1) / m
    ensures 0 < size - last * m <= m
  {
    assert size - 1 == last * m + (size - 1) % m;
  }

  lemma WrapsAround(x: int, y: nat)
    requires (x == y || x + 0x1_0000_0000 == y) && y <= 0x4000_0000
    ensures ToInt32(x) == y
  {
  }

  lemma RowsAreChunks(rows: seq<Row>, extsize: nat, chunkSize: nat)
    requires extsize < 0x4000_0000 && 4 <= chunkSize < 0x4000_0000
    ensures IsValue(rows, Wanted(extsize), chunkSize) <==>
              && |rows| == LastChunk(extsize, chunkSize) + 1
              && forall i | 0 <= i < |rows| :: RowFits(rows[i], i, extsize, chunkSize)
  {
    hide LastChunk, Pieces, ExpectedSize;
    PiecesAt(Wanted(extsize), chunkSize);
    LastChunkIs(extsize, chunkSize);
    var pieces := Pieces(Wanted(extsize), chunkSize);
    forall i | 0 <= i < |pieces| ensures ExpectedSize(i, extsize, chunkSize) == pieces[i] {
      SizeIs(extsize, chunkSize, i);
    }
  }

  /** The chunks of a value about which nothing is reported add up to the value. */
  lemma ChunksAddUp(rows: seq<Row>, extsize: nat, chunkSize: nat)
    requires 0 < extsize && 0 < chunkSize && IsValue(rows, extsize, chunkSize)
    ensures Sum(seq(|rows|, i requires 0 <= i < |rows| => rows[i].data.size)) == extsize
  {
    PiecesSum(extsize, chunkSize);
    assert seq(|rows|, i requires 0 <= i < |rows| => rows[i].data.size) == Pieces(extsize, chunkSize);
  }
}
