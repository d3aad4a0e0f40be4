/** UserDataDisplay: the user data of a sub-record as hexadecimal cells and text. */
module HexDump {
  import opened Bytes

  const ROW_LENGTH: nat := 10

  /** A line of the dump; it is printed with its cells one after the other, and the
      characters between asterisks. */
  datatype DumpLine = DumpLine(cells: seq<string>, letters: string)

  function HexDigit(d: nat): (c: char)
    requires d < 16
    ensures c != ' '
  {
    if d < 10 then '0' + d as char else 'A' + (d - 10) as char
  }

  lemma DigitsAre(d: nat)
    requires d < 16
    ensures HexDigit(d) == "0123456789ABCDEF"[d]
  {
  }

  function HexValue(c: char): nat {
    if '0' <= c <= '9' then c as int - '0' as int
    else if 'A' <= c <= 'F' then c as int - 'A' as int + 10
    else 0
  }

  predicate IsAlnum(b: Byte) {
    '0' as int <= b <= '9' as int || 'A' as int <= b <= 'Z' as int || 'a' as int <= b <= 'z' as int
  }

  /** "%02X ", or blanks behind the data. */
  function Cell(row: seq<Byte>, col: nat): (s: string)
    ensures |s| == 3
  {
    if col < |row| then [HexDigit(row[col] / 16), HexDigit(row[col] % 16), ' '] else "   "
  }

  function Letter(row: seq<Byte>, col: nat): char {
    if col >= |row| then ' ' else if IsAlnum(row[col]) then row[col] as char else '.'
  }

  function Line(row: seq<Byte>): DumpLine {
    DumpLine(seq(ROW_LENGTH, (col: nat) => Cell(row, col)), seq(ROW_LENGTH, (col: nat) => Letter(row, col)))
  }

  function Row(data: seq<Byte>): (row: seq<Byte>)
    ensures |row| <= ROW_LENGTH
  {
    if |data| <= ROW_LENGTH then data else data[..ROW_LENGTH]
  }

  function Dump(data: seq<Byte>): seq<DumpLine> {
    if data == [] then [] else [Line(Row(data))] + Dump(data[|Row(data)|..])
  }

  // ------------------------------------------------------------- reading it back

  function ReadCells(cells: seq<string>): seq<Byte> {
    if cells == [] || |cells[0]| < 2 || cells[0][0] == ' ' then []
    else [(HexValue(cells[0][0]) * 16 + HexValue(cells[0][1])) % 0x100] + ReadCells(cells[1..])
  }

  /** The bytes that a dump shows, read from the cells of its lines. */
  function Undump(lines: seq<DumpLine>): seq<Byte> {
    if lines == [] then [] else ReadCells(lines[0].cells) + Undump(lines[1..])
  }

  lemma CellInverse(b: Byte)
    ensures HexValue(HexDigit(b / 16)) * 16 + HexValue(HexDigit(b % 16)) == b
  {
  }

  lemma {:induction false} CellsInverse(row: seq<Byte>, cells: seq<string>, k: nat)
    requires k <= |row| <= |cells| && forall col :: 0 <= col < |cells| ==> cells[col] == Cell(row, col)
    ensures ReadCells(cells[k..]) == row[k..]
    decreases |row| - k
  {
    if k < |row| {
      CellsInverse(row, cells, k + 1);
      CellInverse(row[k]);
      assert cells[k..][1..] == cells[k + 1..];
      assert row[k..] == [row[k]] + row[k + 1..];
    }
  }

  lemma LineInverse(row: seq<Byte>)
    requires |row| <= ROW_LENGTH
    ensures ReadCells(Line(row).cells) == row
  {
    var cells := Line(row).cells;
    CellsInverse(row, cells, 0);
    assert cells[0..] == cells && row[0..] == row;
  }

  lemma RowIsPrefix(data: seq<Byte>)
    ensures Row(data) + data[|Row(data)|..] == data
  {
  }

  /** The dump is invertible, for data of every length. */
  lemma {:induction false} DumpInverse(data: seq<Byte>)
    ensures Undump(Dump(data)) == data
  {
    if data != [] {
      RowIsPrefix(data);
      LineInverse(Row(data));
      DumpInverse(data[|Row(data)|..]);
    }
  }

  predicate Shaped(line: DumpLine) {
    && |line.cells| == |line.letters| == ROW_LENGTH
    && forall col :: 0 <= col < ROW_LENGTH ==> |line.cells[col]| == 3
  }

  /** It has one line for every ten bytes begun, and every line has ten cells of three
      characters. */
  lemma {:induction false} DumpShape(data: seq<Byte>)
    ensures |Dump(data)| == (|data| + 9) / 10
    ensures forall i :: 0 <= i < |Dump(data)| ==> Shaped(Dump(data)[i])
  {
    if data != [] {
      var row := Row(data);
      DumpShape(data[|row|..]);
      assert Shaped(Line(row));
    }
  }

  /** A line shows `b` in column `col`: in hexadecimal, and as itself if it is a letter
      or a digit. */
  predicate ShowsByte(line: DumpLine, col: nat, b: Byte) {
    && col < |line.cells| && col < |line.letters|
    && line.cells[col] == ["0123456789ABCDEF"[b / 16], "0123456789ABCDEF"[b % 16], ' ']
    && line.letters[col] == if 48 <= b <= 57 || 65 <= b <= 90 || 97 <= b <= 122 then b as char else '.'
  }

  /** It is blank in column `col`. */
  predicate IsBlank(line: DumpLine, col: nat) {
    col < |line.cells| && col < |line.letters| && line.cells[col] == "   " && line.letters[col] == ' '
  }

  lemma RowShows(row: seq<Byte>, col: nat)
    requires |row| <= ROW_LENGTH && col < 10
    ensures if col < |row| then ShowsByte(Line(row), col, row[col]) else IsBlank(Line(row), col)
  {
    if col < |row| {
      DigitsAre(row[col] / 16);
      DigitsAre(row[col] % 16);
    }
  }

  /** Place `k` of the dump is column k % 10 of line k / 10: there byte `k` is shown,
      and blanks are behind the last byte. */
  lemma {:induction false} DumpAt(data: seq<Byte>, k: nat)
    requires k / 10 < |Dump(data)|
    ensures var line := Dump(data)[k / 10];
            if k < |data| then ShowsByte(line, k % 10, data[k]) else IsBlank(line, k % 10)
  {
    hide ShowsByte, IsBlank, Line;
    if k < 10 {
      RowShows(Row(data), k);
    } else {
      DumpShape(data);
      var rest := data[ROW_LENGTH..];
      DumpAt(rest, k - ROW_LENGTH);
      assert k < |data| ==> rest[k - ROW_LENGTH] == data[k];
      assert (k - ROW_LENGTH) / ROW_LENGTH == k / ROW_LENGTH - 1 && (k - ROW_LENGTH) % ROW_LENGTH == k % ROW_LENGTH;
      NextLine(data);
    }
  }

  lemma NextLine(data: seq<Byte>)
    requires |data| > ROW_LENGTH
    ensures Dump(data) != [] && Dump(data)[1..] == Dump(data[ROW_LENGTH..])
  {
  }

  // ------------------------------------------------------------------ the program

  lemma Extend<T>(a: seq<T>, b: seq<T>, c: seq<T>)
    ensures (a + b) + c == a + (b + c)
  {
  }

  lemma RowAt(data: seq<Byte>, line: nat)
    requires line * ROW_LENGTH < |data|
    ensures var rest := data[line * ROW_LENGTH..];
            && Dump(rest) == [Line(Row(rest))] + Dump(if |rest| <= ROW_LENGTH then [] else data[(line + 1) * ROW_LENGTH..])
            && IsRow(data, line, Row(rest))
  {
  }

  /** `row` is what the given line shows of the data. */
  ghost predicate IsRow(data: seq<Byte>, line: nat, row: seq<Byte>) {
    var left := |data| - line * ROW_LENGTH;
    && left >= 0
    && |row| == (if left <= ROW_LENGTH then left else ROW_LENGTH)
    && forall col :: 0 <= col < |row| ==> row[col] == data[line * ROW_LENGTH + col]
  }

  /** The body of the outer loop. */
  method DisplayLine(data: seq<Byte>, line: U16, ghost row: seq<Byte>) returns (shown: DumpLine)
    requires IsRow(data, line, row)
    ensures shown == Line(row)
  {
    var cells, letters := [], "";
    var col: U16 := 0;
    while col < ROW_LENGTH
      invariant |cells| == col <= ROW_LENGTH && forall c :: 0 <= c < col ==> cells[c] == Cell(row, c)
    {
      if line * ROW_LENGTH + col < |data| {
        var b := data[line * ROW_LENGTH + col];
        cells := cells + [[HexDigit(b / 16), HexDigit(b % 16), ' ']];
      } else {
        cells := cells + ["   "];
      }
      col := col + 1;
    }
    col := 0;
    while col < ROW_LENGTH
      invariant |letters| == col <= ROW_LENGTH && forall c :: 0 <= c < col ==> letters[c] == Letter(row, c)
    {
      if line * ROW_LENGTH + col < |data| {
        var b := data[line * ROW_LENGTH + col];
        letters := letters + [if IsAlnum(b) then b as char else '.'];
      } else {
        letters := letters + [' '];
      }
      col := col + 1;
    }
    shown := DumpLine(cells, letters);
  }

  /** UserDataDisplay; the 16-bit line counter does not wrap. */
  method UserDataDisplay(data: seq<Byte>) returns (lines: seq<DumpLine>)
    requires |data| < 0x1_0000
    ensures lines == Dump(data)
  {
    lines := [];
    var line: U16 := 0;
    while line * ROW_LENGTH < |data|
      invariant line * ROW_LENGTH < |data| + ROW_LENGTH
      invariant lines + Dump(if line * ROW_LENGTH < |data| then data[line * ROW_LENGTH..] else []) == Dump(data)
      decreases |data| - line * ROW_LENGTH
    {
      RowAt(data, line);
      ghost var rest := data[line * ROW_LENGTH..];
      var shown := DisplayLine(data, line, Row(rest));
      Extend(lines, [shown], Dump(if |rest| <= ROW_LENGTH then [] else data[(line + 1) * ROW_LENGTH..]));
      lines := lines + [shown];
      line := line + 1;
    }
  }
}
