/**
  The binary row formatter: rows of float8 and text columns become a byte stream, and an
  incremental decoder turns the stream back into rows however it is cut into buffers.
  Bytes are those of a little-endian machine.
 */
module Formatter {
  import opened CInts
  import opened ByteStrings

  const MAX_FORMAT_STRING: int := 4096

  /** Dropped columns and other types make both functions fail before any row is handled. */
  datatype Column = Float8 | Text(typmod: int)

  datatype Cell = Null | Value(bytes: Bytes)

  /** A float8 is its eight bytes; the length of a text fits a varlena header. */
  predicate Fits(c: Column, v: Cell) {
    v.Value? ==> if c.Float8? then |v.bytes| == 8 else |v.bytes| < 0x4000_0000
  }

  predicate RowFits(cols: seq<Column>, row: seq<Cell>) {
    |row| == |cols| && forall i | 0 <= i < |cols| :: Fits(cols[i], row[i])
  }

  // ---------- Numbers ----------

  /** The bytes of a non-negative int32. */
  function LengthBytes(n: nat): (r: Bytes)
    requires n < 0x8000_0000
    ensures |r| == 4
  {
    [(n % 256), (n / 256 % 256), (n / 65536 % 256), (n / 16777216)]
  }

  /** The int32 in four bytes. */
  function ReadLength(b: Bytes): int
    requires |b| == 4
  {
    var n := b[0] as int + 256 * (b[1] as int) + 65536 * (b[2] as int) + 16777216 * (b[3] as int);
    if n < 0x8000_0000 then n else n - 0x1_0000_0000
  }

  lemma LengthRoundTrip(n: nat)
    requires n < 0x8000_0000
    ensures ReadLength(LengthBytes(n)) == n
  {
    Digit(n, 1);
    Digit(n, 256);
    Digit(n, 65536);
  }

  lemma Digit(n: nat, unit: nat)
    requires unit == 1 || unit == 256 || unit == 65536
    ensures unit * (n / unit) == unit * (n / unit % 256) + (256 * unit) * (n / (256 * unit))
  {
    var q := n / unit;
    assert q == q % 256 + 256 * (q / 256);
    assert q / 256 == n / (256 * unit);
  }

  predicate IsNan(b: Bytes)
    requires |b| == 8
  {
    && b[7] % 128 == 127 && b[6] >= 240
    && (b[6] != 240 || exists i | 0 <= i < 6 :: b[i] != 0)
  }

  predicate IsZero(b: Bytes)
    requires |b| == 8
  {
    b[7] % 128 == 0 && forall i | 0 <= i < 7 :: b[i] == 0
  }

  /** The operator == on float8. */
  predicate FloatEqual(a: Bytes, b: Bytes)
    requires |a| == 8 && |b| == 8
  {
    !IsNan(a) && !IsNan(b) && (a == b || (IsZero(a) && IsZero(b)))
  }

  /** get_float8_nan. */
  const NAN: Bytes := [0, 0, 0, 0, 0, 0, 248, 127]

  // ---------- formatter_export ----------

  function Max(a: int, b: int): int {
    if a < b then b else a
  }

  function Min(a: int, b: int): int {
    if a < b then a else b
  }

  /** The cell as it comes back. */
  function Normal(c: Column, v: Cell): Cell {
    if c.Float8? then Value(if v.Null? then NAN else v.bytes)
    else if v.Null? || v.bytes == [] then Null
    else if c.typmod < 0 && |v.bytes| > MAX_FORMAT_STRING then Value(v.bytes[..MAX_FORMAT_STRING])
    else v
  }

  function NormalRow(cols: seq<Column>, row: seq<Cell>): seq<Cell>
    requires |row| == |cols|
  {
    seq(|cols|, i requires 0 <= i < |cols| => Normal(cols[i], row[i]))
  }

  /** The bytes of a cell in the form in which it comes back. */
  function CellBytes(c: Column, v: Cell): Bytes
    requires Fits(c, v)
  {
    var n := Normal(c, v);
    if n.Null? then LengthBytes(0)
    else if c.Float8? then n.bytes
    else LengthBytes(|n.bytes|) + n.bytes
  }

  /** The bytes of the cells from column i on. */
  function RowBytes(cols: seq<Column>, row: seq<Cell>, i: nat): Bytes
    requires RowFits(cols, row) && i <= |cols|
    decreases |cols| - i
  {
    if i == |cols| then [] else CellBytes(cols[i], row[i]) + RowBytes(cols, row, i + 1)
  }

  /** The buffer size the first n columns ask for, in int32 arithmetic. */
  function Room(cols: seq<Column>, n: nat): int
    requires n <= |cols|
  {
    if n == 0 then 0
    else
      ToInt32(Room(cols, n - 1) + match cols[n - 1]
                                  case Float8 => 8
                                  case Text(typmod) => if typmod > 0 then typmod else MAX_FORMAT_STRING)
  }

  function Sum(s: seq<int>): int {
    if s == [] then 0 else Sum(s[..|s| - 1]) + s[|s| - 1]
  }

  /** What a column of the table may take, without its length word. */
  function Width(c: Column): int {
    if c == Float8 then 8 else if c.typmod > 0 then c.typmod else MAX_FORMAT_STRING
  }

  /** The buffer size is the sum of the widths, cut down to 32 bits. */
  lemma {:induction false} RoomIsSum(cols: seq<Column>, n: nat)
    requires n <= |cols|
    ensures Room(cols, n) == ToInt32(Sum(seq(n, i requires 0 <= i < n => Width(cols[i]))))
  {
    if n > 0 {
      RoomIsSum(cols, n - 1);
      var widths := seq(n, i requires 0 <= i < n => Width(cols[i]));
      assert widths[..n - 1] == seq(n - 1, i requires 0 <= i < n - 1 => Width(cols[i]));
      Wraps(Sum(widths[..n - 1]), widths[n - 1]);
    }
  }

  lemma Wraps(x: int, y: int)
    ensures ToInt32(ToInt32(x) + y) == ToInt32(x + y)
  {
  }

  /** The length word has the least significant byte first. */
  lemma LengthIsLittleEndian(n: nat)
    requires n < 0x8000_0000
    ensures var b := LengthBytes(n);
            n == b[0] as int + 256 * (b[1] as int) + 65536 * (b[2] as int) + 16777216 * (b[3] as int)
  {
    Digit(n, 1);
    Digit(n, 256);
    Digit(n, 65536);
  }

  /** The layout of a cell: a float as its eight bytes, a string behind its length. */
  lemma CellLayout(c: Column, v: Cell)
    requires Fits(c, v)
    ensures c.Float8? ==> CellBytes(c, v) == if v.Null? then NAN else v.bytes
    ensures c.Text? ==>
              var all, len := CellBytes(c, v), TextLength(c, v);
              && |all| == 4 + len && all[..4] == LengthBytes(len)
              && (v.Value? ==> len <= |v.bytes| && all[4..] == v.bytes[..len])
  {
    if c.Text? && v.Value? && v.bytes != [] {
      var len := TextLength(c, v);
      assert v.bytes[..|v.bytes|] == v.bytes;
      assert CellBytes(c, v) == LengthBytes(len) + v.bytes[..len];
    }
  }

  /** A string of a column without a length limit is cut. */
  function TextLength(c: Column, v: Cell): (len: nat)
    requires c.Text? && Fits(c, v)
    ensures len < 0x4000_0000
  {
    if v.Null? then 0 else if c.typmod < 0 && |v.bytes| > MAX_FORMAT_STRING then MAX_FORMAT_STRING else |v.bytes|
  }

  datatype Exported = Buffer(bytes: Bytes) | TooSmall

  class Exporter {
    const cols: seq<Column>
    const buflen: int

    /** The buffer is sized once, on the first row. */
    constructor (cols: seq<Column>)
      ensures this.cols == cols && buflen == Max(128, Room(cols, |cols|))
    {
      var n := 0;
      for i := 0 to |cols|
        invariant n == Room(cols, i)
      {
        match cols[i]
        case Float8 =>
          n := ToInt32(n + 8);
        case Text(typmod) =>
          n := ToInt32(n + if typmod > 0 then typmod else MAX_FORMAT_STRING);
      }
      this.cols, buflen := cols, Max(128, n);
    }

    /** One round of the formatting loop. */
    method WriteCell(data: Bytes, c: Column, val: Cell) returns (r: Exported)
      requires Fits(c, val)
      ensures var all := data + CellBytes(c, val); r == if |all| < buflen then Buffer(all) else TooSmall
    {
      match c
      case Float8 =>
        if |data| + 8 >= buflen {
          return TooSmall;
        }
        r := Buffer(data + if val.Null? then NAN else val.bytes);
      case Text(typmod) =>
        var str: Bytes, len := [], 0;
        if val.Value? {
          str, len := val.bytes, |val.bytes|;
          if typmod < 0 {
            len := Min(len, MAX_FORMAT_STRING);
          }
        }
        if |data| + 4 + len >= buflen {
          return TooSmall;
        }
        var more := data + LengthBytes(len);
        if len > 0 {
          more := more + str[..len];
        }
        r := Buffer(more);
        assert CellBytes(c, val) == LengthBytes(len) + str[..len];
    }

    /** formatter_export: a row is refused exactly if it does not leave a byte of the buffer free. */
    method Export(row: seq<Cell>) returns (r: Exported)
      requires RowFits(cols, row) && buflen >= 128
      ensures r == if |RowBytes(cols, row, 0)| < buflen then Buffer(RowBytes(cols, row, 0)) else TooSmall
    {
      hide CellBytes;
      var data: Bytes := [];
      for i := 0 to |cols|
        invariant data + RowBytes(cols, row, i) == RowBytes(cols, row, 0)
        invariant |data| < buflen
      {
        r := WriteCell(data, cols[i], row[i]);
        if r.TooSmall? {
          return;
        }
        assert data + (CellBytes(cols[i], row[i]) + RowBytes(cols, row, i + 1)) == r.bytes + RowBytes(cols, row, i + 1);
        data := r.bytes;
      }
      r := Buffer(data);
    }
  }

  // ---------- formatter_import ----------

  datatype Imported = Tuple(row: seq<Cell>, cursor: nat) | NeedMoreData | BadLength

  datatype Decoded = Decoded(cell: Cell, length: nat) | Short | Negative

  /** What the decoding loop takes from position cur of the buffer for one column. */
  function DecodeCell(c: Column, buf: Bytes, cur: nat): Decoded
    requires cur <= |buf|
  {
    var remaining := |buf| - cur;
    if c.Float8? then
      if remaining < 8 then Short
      else
        var value := buf[cur..cur + 8];
        Decoded(if !FloatEqual(value, NAN) then Value(value) else Null, 8)
    else if remaining < 4 then Short
    else
      var len := ReadLength(buf[cur..cur + 4]);
      if len < 0 then Negative
      else if remaining - 4 < len then Short
      else Decoded(if len > 0 then Value(buf[cur + 4..cur + 4 + len]) else Null, 4 + len)
  }

  /** Decoding of the columns from i on. */
  function DecodeFrom(cols: seq<Column>, buf: Bytes, cur: nat, i: nat, row: seq<Cell>): Imported
    requires cur <= |buf| && i <= |cols|
    decreases |cols| - i
  {
    if i == |cols| then Tuple(row, cur)
    else
      match DecodeCell(cols[i], buf, cur)
      case Short => NeedMoreData
      case Negative => BadLength
      case Decoded(cell, length) => DecodeFrom(cols, buf, cur + length, i + 1, row + [cell])
  }

  class Importer {
    const cols: seq<Column>
    var buf: Bytes
    var cursor: nat
    var rows: seq<seq<Cell>>

    ghost predicate Valid()
      reads this
    {
      cursor <= |buf|
    }

    constructor (cols: seq<Column>)
      ensures this.cols == cols && Valid() && buf == [] && cursor == 0 && rows == []
    {
      this.cols, buf, cursor, rows := cols, [], 0, [];
    }

    /** formatter_import: the cursor moves only when a whole row has been decoded. */
    method Import() returns (r: Imported)
      requires Valid()
      modifies this`cursor
      ensures Valid() && r == DecodeFrom(cols, buf, old(cursor), 0, [])
      ensures cursor == if r.Tuple? then r.cursor else old(cursor)
    {
      hide DecodeCell;
      var dataCur: nat, row: seq<Cell> := cursor, [];
      for i := 0 to |cols|
        invariant dataCur <= |buf| && cursor == old(cursor)
        invariant DecodeFrom(cols, buf, dataCur, i, row) == DecodeFrom(cols, buf, old(cursor), 0, [])
      {
        var d := DecodeCell(cols[i], buf, dataCur);
        match d
        case Short => return NeedMoreData;
        case Negative => return BadLength;
        case Decoded(cell, length) =>
          DecodedInside(cols[i], buf, dataCur);
          dataCur, row := dataCur + length, row + [cell];
      }
      cursor := dataCur;
      r := Tuple(row, dataCur);
    }

    /**
      The caller's side: unread bytes are kept, a chunk is appended, and rows are taken
      until the decoder asks for more or fails.  If the unread bytes, the chunk and the rest
      are the stream of the rows sent from number done on, those rows are taken that are
      there as a whole.
     */
    method Feed(chunk: Bytes, ghost rest: Bytes, ghost sent: seq<seq<Cell>>, ghost done: nat)
      returns (r: Imported, ghost now: nat)
      requires Valid() && cols != [] && AllFit(cols, sent) && done <= |sent|
      modifies this
      ensures Valid() && !r.Tuple? && old(rows) <= rows && done <= now <= |sent|
      ensures old(buf[cursor..]) + chunk + rest == StreamFrom(cols, sent, done) ==>
                && r == NeedMoreData
                && rows == old(rows) + NormalRows(cols, sent)[done..now]
                && Unread(buf, cursor, rest, StreamFrom(cols, sent, now))
                && (now < |sent| ==> |buf| - cursor < |RowBytes(cols, sent[now], 0)|)
    {
      hide DecodeFrom, StreamFrom, RowBytes, NormalRow, Unread;
      buf, cursor, now := buf[cursor..] + chunk, 0, done;
      ghost var good := buf + rest == StreamFrom(cols, sent, done);
      if good {
        UnreadBegins(buf, rest, StreamFrom(cols, sent, done));
      }
      while true
        invariant Valid() && old(rows) <= rows && done <= now <= |sent|
        invariant good ==> rows == old(rows) + NormalRows(cols, sent)[done..now]
        invariant good ==> Unread(buf, cursor, rest, StreamFrom(cols, sent, now))
        decreases |buf| - cursor
      {
        DecodeMoves(cols, buf, cursor);
        if good && now < |sent| {
          NextRow(cols, sent, now, buf, cursor, rest);
        } else if good {
          NothingLeft(cols, sent, buf, cursor, rest);
        }
        r := Import();
        if !r.Tuple? {
          return;
        }
        rows := rows + [r.row];
        if good {
          now := now + 1;
        }
      }
    }

    /** A whole stream, cut into chunks in any way, comes back as the rows that were exported. */
    method ImportAll(chunks: seq<Bytes>, ghost sent: seq<seq<Cell>>) returns (r: Imported)
      requires Valid() && cols != [] && AllFit(cols, sent) && buf == [] && rows == []
      requires Joined(chunks, 0) == StreamFrom(cols, sent, 0)
      modifies this
      ensures r == NeedMoreData && rows == NormalRows(cols, sent) && cursor == |buf|
    {
      hide DecodeFrom, RowBytes, NormalRow, StreamFrom, Unread;
      ghost var done: nat := 0;
      r := NeedMoreData;
      UnreadBegins(buf, Joined(chunks, 0), StreamFrom(cols, sent, 0));
      for i := 0 to |chunks|
        invariant Valid() && r == NeedMoreData && done <= |sent|
        invariant rows == NormalRows(cols, sent)[..done]
        invariant Unread(buf, cursor, Joined(chunks, i), StreamFrom(cols, sent, done))
        invariant i == 0 ==> cursor == |buf|
        invariant i > 0 && done < |sent| ==> |buf| - cursor < |RowBytes(cols, sent[done], 0)|
      {
        UnreadChunk(buf, cursor, chunks, i, StreamFrom(cols, sent, done));
        r, done := Feed(chunks[i], Joined(chunks, i + 1), sent, done);
      }
      AllTaken(cols, sent, done, buf, cursor);
    }
  }

  function Joined(chunks: seq<Bytes>, i: nat): Bytes
    requires i <= |chunks|
    decreases |chunks| - i
  {
    if i == |chunks| then [] else chunks[i] + Joined(chunks, i + 1)
  }

  lemma DecodedInside(c: Column, buf: Bytes, cur: nat)
    requires cur <= |buf|
    ensures var d := DecodeCell(c, buf, cur);
            d.Decoded? ==> 4 <= d.length && cur + d.length <= |buf|
  {
  }

  /** A row takes at least four bytes. */
  lemma DecodeMoves(cols: seq<Column>, buf: Bytes, cur: nat)
    requires cols != [] && cur <= |buf|
    ensures var r := DecodeFrom(cols, buf, cur, 0, []); r.Tuple? ==> cur < r.cursor
  {
    DecodeMovesFrom(cols, buf, cur, 0, []);
  }

  lemma {:induction false} DecodeMovesFrom(cols: seq<Column>, buf: Bytes, cur: nat, i: nat, row: seq<Cell>)
    requires cur <= |buf| && i <= |cols|
    ensures var r := DecodeFrom(cols, buf, cur, i, row); r.Tuple? ==> cur + 4 * (|cols| - i) <= r.cursor <= |buf|
    decreases |cols| - i
  {
    hide DecodeCell;
    if i < |cols| {
      var d := DecodeCell(cols[i], buf, cur);
      if d.Decoded? {
        DecodedInside(cols[i], buf, cur);
        DecodeMovesFrom(cols, buf, cur + d.length, i + 1, row + [d.cell]);
      }
    }
  }

  // ---------- The stream comes back as the rows ----------

  /** The unread bytes of the buffer are the beginning of the stream. */
  predicate Begins(buf: Bytes, cur: nat, stream: Bytes) {
    cur <= |buf| <= cur + |stream| && forall k | 0 <= k < |buf| - cur :: buf[cur + k] == stream[k]
  }

  lemma Slice(buf: Bytes, cur: nat, stream: Bytes, i: nat, j: nat)
    requires Begins(buf, cur, stream) && i <= j <= |buf| - cur
    ensures buf[cur + i..cur + j] == stream[i..j]
  {
    forall k | 0 <= k < j - i ensures buf[cur + i..cur + j][k] == stream[i..j][k] {
      assert buf[cur + (i + k)] == stream[i + k];
    }
  }

  lemma TextComesBack(typmod: int, v: Cell, buf: Bytes, cur: nat, rest: Bytes)
    requires Fits(Text(typmod), v) && Begins(buf, cur, CellBytes(Text(typmod), v) + rest) && |buf| - cur >= 4
    ensures var bytes := CellBytes(Text(typmod), v);
            DecodeCell(Text(typmod), buf, cur)
            == if |buf| - cur < |bytes| then Short else Decoded(Normal(Text(typmod), v), |bytes|)
  {
    hide Begins, LengthBytes, ReadLength;
    var n := Normal(Text(typmod), v);
    var body := if n.Null? then [] else n.bytes;
    assert CellBytes(Text(typmod), v) == LengthBytes(|body|) + body;
    FramedText(body, buf, cur, rest);
  }

  /** The length and the body of a string are read back as far as the buffer has them. */
  lemma FramedText(body: Bytes, buf: Bytes, cur: nat, rest: Bytes)
    requires |body| < 0x4000_0000 && Begins(buf, cur, LengthBytes(|body|) + body + rest) && |buf| - cur >= 4
    ensures ReadLength(buf[cur..cur + 4]) == |body|
    ensures |buf| - cur >= 4 + |body| ==> buf[cur + 4..cur + 4 + |body|] == body
  {
    hide Begins, LengthBytes, ReadLength;
    var stream := LengthBytes(|body|) + body + rest;
    LengthRoundTrip(|body|);
    Slice(buf, cur, stream, 0, 4);
    assert stream[0..4] == LengthBytes(|body|);
    if |buf| - cur >= 4 + |body| {
      Slice(buf, cur, stream, 4, 4 + |body|);
      assert stream[4..4 + |body|] == body;
    }
  }

  lemma CellComesBack(c: Column, v: Cell, buf: Bytes, cur: nat, rest: Bytes)
    requires Fits(c, v) && Begins(buf, cur, CellBytes(c, v) + rest)
    ensures DecodeCell(c, buf, cur)
            == if |buf| - cur < |CellBytes(c, v)| then Short else Decoded(Normal(c, v), |CellBytes(c, v)|)
  {
    if c.Text? {
      if |buf| - cur >= 4 {
        TextComesBack(c.typmod, v, buf, cur, rest);
      }
    } else if |buf| - cur >= 8 {
      Slice(buf, cur, CellBytes(c, v) + rest, 0, 8);
      assert (CellBytes(c, v) + rest)[0..8] == CellBytes(c, v);
    }
  }

  lemma BeginsAfter(buf: Bytes, cur: nat, first: Bytes, rest: Bytes)
    requires Begins(buf, cur, first + rest) && |buf| - cur >= |first|
    ensures Begins(buf, cur + |first|, rest)
  {
    forall k | 0 <= k < |buf| - (cur + |first|) ensures buf[cur + |first| + k] == rest[k] {
      assert buf[cur + (|first| + k)] == (first + rest)[|first| + k];
    }
  }

  /** What the loop yields for the columns from i on. */
  lemma {:induction false} RowComesBack(cols: seq<Column>, row: seq<Cell>, buf: Bytes, cur: nat, i: nat, rest: Bytes)
    requires RowFits(cols, row) && i <= |cols| && Begins(buf, cur, RowBytes(cols, row, i) + rest)
    ensures var n := |RowBytes(cols, row, i)|;
            DecodeFrom(cols, buf, cur, i, NormalRow(cols, row)[..i])
            == if |buf| - cur < n then NeedMoreData else Tuple(NormalRow(cols, row), cur + n)
    decreases |cols| - i
  {
    hide CellBytes, DecodeCell, Normal;
    var normal := NormalRow(cols, row);
    if i == |cols| {
      assert normal[..i] == normal;
    } else {
      var first, more := CellBytes(cols[i], row[i]), RowBytes(cols, row, i + 1);
      assert RowBytes(cols, row, i) + rest == first + (more + rest);
      CellComesBack(cols[i], row[i], buf, cur, more + rest);
      if |buf| - cur >= |first| {
        BeginsAfter(buf, cur, first, more + rest);
        assert normal[..i] + [Normal(cols[i], row[i])] == normal[..i + 1];
        RowComesBack(cols, row, buf, cur + |first|, i + 1, rest);
      }
    }
  }

  predicate AllFit(cols: seq<Column>, rows: seq<seq<Cell>>) {
    forall k | 0 <= k < |rows| :: RowFits(cols, rows[k])
  }

  /** The stream of the rows from number k on. */
  function StreamFrom(cols: seq<Column>, rows: seq<seq<Cell>>, k: nat): Bytes
    requires AllFit(cols, rows) && k <= |rows|
    decreases |rows| - k
  {
    if k == |rows| then [] else RowBytes(cols, rows[k], 0) + StreamFrom(cols, rows, k + 1)
  }

  function NormalRows(cols: seq<Column>, rows: seq<seq<Cell>>): seq<seq<Cell>>
    requires AllFit(cols, rows)
  {
    seq(|rows|, k requires 0 <= k < |rows| => NormalRow(cols, rows[k]))
  }

  /** The unread bytes of the buffer and the bytes still to come are the stream. */
  predicate Unread(buf: Bytes, cur: nat, rest: Bytes, stream: Bytes) {
    cur <= |buf| && buf[cur..] + rest == stream
  }

  lemma UnreadBegins(buf: Bytes, rest: Bytes, stream: Bytes)
    requires buf + rest == stream
    ensures Unread(buf, 0, rest, stream)
  {
    assert buf[0..] == buf;
  }

  lemma UnreadChunk(buf: Bytes, cur: nat, chunks: seq<Bytes>, i: nat, stream: Bytes)
    requires i < |chunks| && Unread(buf, cur, Joined(chunks, i), stream)
    ensures buf[cur..] + chunks[i] + Joined(chunks, i + 1) == stream
  {
  }

  lemma UnreadIsBegins(buf: Bytes, cur: nat, rest: Bytes, stream: Bytes)
    requires Unread(buf, cur, rest, stream)
    ensures Begins(buf, cur, stream)
  {
    assert forall k | 0 <= k < |buf| - cur :: buf[cur + k] == buf[cur..][k] == stream[k];
  }

  lemma UnreadAfter(buf: Bytes, cur: nat, rest: Bytes, first: Bytes, stream: Bytes)
    requires Unread(buf, cur, rest, first + stream) && |buf| - cur >= |first|
    ensures Unread(buf, cur + |first|, rest, stream)
  {
    assert buf[cur..][..|first|] == first by {
      assert (buf[cur..] + rest)[..|first|] == (first + stream)[..|first|];
    }
    assert (buf[cur..] + rest)[|first|..] == buf[cur + |first|..] + rest;
    assert (first + stream)[|first|..] == stream;
  }

  /** With a stream of rows, one call of the decoder takes exactly the next row or asks for more. */
  lemma NextRow(cols: seq<Column>, rows: seq<seq<Cell>>, k: nat, buf: Bytes, cur: nat, rest: Bytes)
    requires AllFit(cols, rows) && k < |rows| && Unread(buf, cur, rest, StreamFrom(cols, rows, k))
    ensures var n := |RowBytes(cols, rows[k], 0)|;
            DecodeFrom(cols, buf, cur, 0, [])
            == if |buf| - cur < n then NeedMoreData else Tuple(NormalRow(cols, rows[k]), cur + n)
    ensures |buf| - cur >= |RowBytes(cols, rows[k], 0)| ==>
              Unread(buf, cur + |RowBytes(cols, rows[k], 0)|, rest, StreamFrom(cols, rows, k + 1))
  {
    hide RowBytes, DecodeFrom, Begins;
    var row, stream := rows[k], StreamFrom(cols, rows, k + 1);
    assert NormalRow(cols, row)[..0] == [];
    UnreadIsBegins(buf, cur, rest, StreamFrom(cols, rows, k));
    RowComesBack(cols, row, buf, cur, 0, stream);
    if |buf| - cur >= |RowBytes(cols, row, 0)| {
      UnreadAfter(buf, cur, rest, RowBytes(cols, row, 0), stream);
    }
  }

  /** At the end of the stream the decoder asks for more. */
  lemma NothingLeft(cols: seq<Column>, sent: seq<seq<Cell>>, buf: Bytes, cur: nat, rest: Bytes)
    requires cols != [] && AllFit(cols, sent) && Unread(buf, cur, rest, StreamFrom(cols, sent, |sent|))
    ensures DecodeFrom(cols, buf, cur, 0, []) == NeedMoreData
  {
    assert |buf[cur..]| == 0;
  }

  /** When nothing is still to come and no whole row is left, no row is left. */
  lemma AllTaken(cols: seq<Column>, sent: seq<seq<Cell>>, done: nat, buf: Bytes, cur: nat)
    requires cols != [] && AllFit(cols, sent) && done <= |sent|
    requires Unread(buf, cur, [], StreamFrom(cols, sent, done))
    requires done < |sent| ==> |buf| - cur < |RowBytes(cols, sent[done], 0)| || cur == |buf|
    ensures done == |sent| && cur == |buf|
  {
    assert |buf[cur..] + []| == |buf| - cur;
  }
}
