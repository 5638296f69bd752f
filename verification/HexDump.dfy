/** The hex and ascii dump of core/output.c. */
module HexDump {
  import opened Basics
  import opened Words

  function HexDigit(d: nat): (c: char)
    requires d < 16
  {
    (if d < 10 then '0' as int + d else 'a' as int + d - 10) as char
  }

  /** What "%0<w>x" prints for an n that fits in w digits. */
  function Hex(n: nat, w: nat): (t: string)
    ensures |t| == w && forall i :: 0 <= i < w ==> t[i] != '\n' && t[i] != ' '
  {
    if w == 0 then "" else Hex(n / 16, w - 1) + [HexDigit(n % 16)]
  }

  function Spaces(n: nat): (t: string)
    ensures |t| == n && forall i :: 0 <= i < n ==> t[i] == ' '
  {
    seq(n, i => ' ')
  }

  function Shown(val: byte): (b: byte)
    ensures b != 0 && b != 10
  {
    if val > 0x1f && val < 0x7f then val else 0x2e
  }

  /** The ascii column, 16 wide. */
  function Ascii(row: seq<byte>): (a: seq<byte>)
    requires |row| <= 16
    ensures |a| == 16
    ensures forall j :: 0 <= j < 16 ==> a[j] == if j < |row| then Shown(row[j]) else 0x20
  {
    seq(16, j requires 0 <= j => if j < |row| then Shown(row[j]) else 0x20)
  }

  function Chars(a: seq<byte>): (t: string)
    ensures |t| == |a| && forall i :: 0 <= i < |a| ==> t[i] == a[i] as char
  {
    seq(|a|, i requires 0 <= i < |a| => a[i] as char)
  }

  /** One of the 16 columns: a byte, or blanks behind the last byte. Half way there is a gap. */
  function Column(row: seq<byte>, j: nat): (t: string) {
    (if j == 8 then " " else "") + if j < |row| then Hex(row[j] as nat, 2) + " " else Spaces(3)
  }

  function ColumnAt(j: nat): nat {
    3 * j + if j > 8 then 1 else 0
  }

  function Columns(row: seq<byte>, n: nat): (t: string)
    ensures |t| == ColumnAt(n) && forall i :: 0 <= i < |t| ==> t[i] != '\n'
  {
    if n == 0 then "" else Columns(row, n - 1) + Column(row, n - 1)
  }

  function Start(address: nat): (t: string)
    ensures |t| == 10 && forall i :: 0 <= i < 10 ==> t[i] != '\n'
  {
    Hex(address, 8) + "  "
  }

  /** A line: the address, 16 columns, and the ascii column between bars. */
  function Row(address: nat, row: seq<byte>): (t: string)
    requires |row| <= 16
    ensures |t| == 78 && forall i :: 0 <= i < |t| ==> t[i] != '\n'
  {
    Start(address) + Columns(row, 16) + " |" + Chars(Ascii(row)) + "|"
  }

  function RowCount(n: nat): nat { (n + 15) / 16 }

  function RowOf(data: seq<byte>, k: nat): (row: seq<byte>)
    ensures |row| <= 16
    ensures forall j :: 0 <= j < |row| ==> 16 * k + j < |data| && row[j] == data[16 * k + j]
    ensures 16 * k <= |data| ==> |row| == if |data| - 16 * k < 16 then |data| - 16 * k else 16
  {
    if 16 * k > |data| then [] else if 16 * k + 16 > |data| then data[16 * k..] else data[16 * k..16 * k + 16]
  }

  /** The first n lines, each ended. */
  function Rows(data: seq<byte>, n: nat): (t: string)
    ensures |t| == 79 * n
  {
    if n == 0 then "" else Rows(data, n - 1) + Row(16 * (n - 1), RowOf(data, n - 1)) + "\n"
  }

  /** The dump of a buffer: its lines, or one empty line. */
  function Dump(data: seq<byte>): string {
    if data == [] then "\n" else Rows(data, RowCount(|data|))
  }

  /** Behind the last byte the columns are blank, the gap with them. */
  lemma {:induction false} BlankColumns(row: seq<byte>, n: nat)
    requires |row| <= n
    ensures Columns(row, n) == Columns(row, |row|) + Spaces(ColumnAt(n) - ColumnAt(|row|))
  {
    if |row| < n {
      BlankColumns(row, n - 1);
      var c := ColumnAt(n - 1) - ColumnAt(|row|);
      assert Spaces(c) + Column(row, n - 1) == Spaces(ColumnAt(n) - ColumnAt(|row|));
    }
  }

  /** `out` stops in line k, behind column j; the ascii of these columns is in astr. */
  ghost predicate InLine(data: seq<byte>, k: nat, j: nat, out: string, astr: seq<byte>) {
    && |astr| == 20 && j <= 16
    && out == Rows(data, k) + Start(16 * k) + Columns(RowOf(data, k), j)
    && (forall i :: 0 <= i < j ==> astr[i] == Ascii(RowOf(data, k))[i])
    && forall i :: j <= i < 20 ==> astr[i] == 0
  }

  /** `out` is k lines, all but the last ended. */
  ghost predicate WholeLines(data: seq<byte>, k: nat, out: string) {
    if k == 0 then out == "" else out + "\n" == Rows(data, k)
  }

  /** In front of byte `ctr`, column i of line k; or at the end. */
  ghost predicate AtByte(data: seq<byte>, ctr: nat, k: nat, i: nat, out: string, astr: seq<byte>) {
    if ctr >= |data| then k == RowCount(|data|) && WholeLines(data, k, out)
    else
      && ctr == 16 * k + i && i < 16
      && if i == 0 then WholeLines(data, k, out) && astr == seq(20, _ => 0) else InLine(data, k, i, out, astr)
  }

  lemma Remainders(ctr: nat, k: nat, i: nat)
    requires ctr == 16 * k + i && i < 16
    ensures ctr % 16 == i && (ctr % 8 == 0 <==> i == 0 || i == 8) && (ctr + 1) % 16 == if i == 15 then 0 else i + 1
  {
    ModUnique(ctr, 16, k, i);
    if i < 8 {
      ModUnique(ctr, 8, 2 * k, i);
    } else {
      ModUnique(ctr, 8, 2 * k + 1, i - 8);
    }
    if i == 15 {
      ModUnique(ctr + 1, 16, k + 1, 0);
    } else {
      ModUnique(ctr + 1, 16, k, i + 1);
    }
  }

  /** Line and column of the next byte. */
  lemma Place(data: seq<byte>, ctr: nat, k: nat, i: nat, out: string, astr: seq<byte>)
    requires AtByte(data, ctr, k, i, out, astr) && ctr < |data|
    ensures i < 16 && ctr == 16 * k + i && (ctr == 0 <==> k == 0 && i == 0)
    ensures ctr % 16 == i && (ctr % 8 == 0 <==> i == 0 || i == 8) && (ctr + 1) % 16 == if i == 15 then 0 else i + 1
  {
    hide InLine, WholeLines, RowCount;
    Remainders(ctr, k, i);
  }

  /** What a byte begins with: a line, the gap, or nothing. */
  function Lead(k: nat, i: nat): string {
    if i == 0 then (if k != 0 then "\n" else "") + Start(16 * k) else if i == 8 then " " else ""
  }

  lemma Leads(k: nat, i: nat)
    ensures i == 0 && k == 0 ==> Lead(k, i) == Start(0)
    ensures i == 0 && k != 0 ==> Lead(k, i) == "\n" + Start(16 * k)
    ensures i != 0 && i != 8 ==> Lead(k, i) == ""
    ensures i == 8 ==> Lead(k, i) == " "
  {
  }

  /** A byte adds its column to the line it is in. */
  lemma ByteAdds(data: seq<byte>, k: nat, i: nat, out: string, astr: seq<byte>)
    requires i < 16 && 16 * k + i < |data| && |astr| == 20 && AtByte(data, 16 * k + i, k, i, out, astr)
    ensures var val := data[16 * k + i];
      InLine(data, k, i + 1, out + Lead(k, i) + (Hex(val as nat, 2) + " "), astr[i := Shown(val)])
  {
    hide Hex, Rows, Start, Columns, RowOf, Ascii, Shown;
    var row := RowOf(data, k);
    NextColumn(row, i);
    if i == 0 {
      NoColumns(row);
      EmptyRows(data);
    }
  }

  lemma NextColumn(row: seq<byte>, j: nat)
    ensures Columns(row, j + 1) == Columns(row, j) + Column(row, j)
  {
  }

  lemma NoColumns(row: seq<byte>)
    ensures Columns(row, 0) == ""
  {
  }

  lemma EmptyRows(data: seq<byte>)
    ensures Rows(data, 0) == ""
  {
  }

  /** The bars and the ascii column end a line. */
  lemma LineEnds(data: seq<byte>, k: nat, out: string, astr: seq<byte>)
    requires InLine(data, k, 16, out, astr)
    ensures WholeLines(data, k + 1, out + (" |" + Chars(CString(astr)) + "|"))
  {
    hide Hex, Start, Columns, CString, Chars, RowOf, Ascii;
    CStringStops(astr, 16);
    assert astr[..16] == Ascii(RowOf(data, k));
    var ending := " |" + Chars(Ascii(RowOf(data, k))) + "|";
    assert Row(16 * k, RowOf(data, k)) == Start(16 * k) + Columns(RowOf(data, k), 16) + ending;
  }

  /** The state in front of the next byte, if its line goes on, and if not. */
  lemma LineGoesOn(data: seq<byte>, ctr: nat, k: nat, i: nat, out: string, astr: seq<byte>)
    requires ctr + 1 < |data| && ctr == 16 * k + i && i < 15 && InLine(data, k, i + 1, out, astr)
    ensures AtByte(data, ctr + 1, k, i + 1, out, astr)
  {
  }

  lemma LineDone(data: seq<byte>, ctr: nat, k: nat, j: nat, out: string, astr: seq<byte>, i: nat)
    requires ctr < |data| && ctr == 16 * k + j && j < 16 && WholeLines(data, k + 1, out)
    requires (j == 15 && i == 0 && astr == seq(20, _ => 0)) || ctr + 1 == |data|
    ensures AtByte(data, ctr + 1, k + 1, i, out, astr)
  {
    hide WholeLines;
  }

  lemma LastRow(data: seq<byte>, k: nat, j: nat)
    requires |data| == 16 * k + j + 1 && j < 16
    ensures |RowOf(data, k)| == j + 1
  {
  }

  lemma NothingPrinted(data: seq<byte>)
    ensures AtByte(data, 0, 0, 0, "", seq(20, _ => 0))
  {
  }

  lemma AllPrinted(data: seq<byte>, ctr: nat, k: nat, i: nat, out: string, astr: seq<byte>)
    requires ctr >= |data| && AtByte(data, ctr, k, i, out, astr)
    ensures out + "\n" == Dump(data)
  {
    hide Rows;
  }

  /** First part of the loop's body: what leads up to a byte, the byte, and its ascii. */
  method PrintByte(start: string, val: byte, ctr: nat, astr: array<byte>, startI: nat, ghost data: seq<byte>, ghost k: nat) returns (out: string, i: nat)
    requires ctr < |data| && val == data[ctr] && astr.Length == 20 && AtByte(data, ctr, k, startI, start, astr[..])
    modifies astr
    ensures i == startI + 1 && InLine(data, k, i, out, astr[..])
  {
    hide *;
    Place(data, ctr, k, startI, start, astr[..]);
    ByteAdds(data, k, startI, start, astr[..]);
    Leads(k, startI);
    ghost var was := astr[..];
    out, i := start, startI;
    if ctr % 16 == 0 {
      if ctr != 0 {
        out := out + "\n";
      }
      out := out + Start(ctr);
    } else if ctr % 8 == 0 {
      out := out + " ";
    }
    assert out == start + Lead(k, i);
    out := out + (Hex(val as nat, 2) + " ");
    astr[i] := Shown(val);
    assert astr[..] == was[i := Shown(val)];
    i := i + 1;
  }

  /** Second part, for a last line that is short: blank columns, and the gap if it is still to come. */
  method PadLine(start: string, astr: array<byte>, startI: nat, extra: nat, ghost data: seq<byte>, ghost k: nat) returns (out: string, i: nat)
    requires astr.Length == 20 && startI == |RowOf(data, k)| == 16 - extra && InLine(data, k, startI, start, astr[..])
    modifies astr
    ensures i == 16 && InLine(data, k, 16, out, astr[..])
  {
    hide Hex, Rows, Start, Columns, Ascii;
    out, i := start, startI;
    ghost var gap := if extra >= 8 then 1 else 0;
    if extra >= 8 {
      out := out + " ";
    }
    while i < 16
      invariant startI <= i <= 16
      invariant forall j :: 0 <= j < i ==> astr[j] == Ascii(RowOf(data, k))[j]
      invariant forall j :: i <= j < 20 ==> astr[j] == 0
      invariant out == start + Spaces(3 * (i - startI) + gap)
    {
      out := out + "   ";
      astr[i] := 0x20;
      i := i + 1;
    }
    BlankColumns(RowOf(data, k), 16);
  }

  /** How many bytes the last line lacks. */
  function Extra(length: nat): nat {
    if length % 16 == 0 then 0 else 16 - length % 16
  }

  lemma EndOfLine(ctr: nat, length: nat, k: nat, i: nat)
    requires 0 < i <= 16 && ctr == 16 * k + i - 1 && ctr < length
    ensures (ctr + 1) % 16 == 0 <==> i == 16
    ensures ctr + 1 == length ==> Extra(length) == 16 - i
  {
    Remainders(ctr, k, i - 1);
  }

  /** Second part of the loop's body: the end of a line, if it is the end of one. */
  method EndLine(start: string, ctr: nat, length: nat, extra: nat, astr: array<byte>, startI: nat, ghost data: seq<byte>, ghost k: nat)
      returns (out: string, i: nat, ghost k': nat)
    requires ctr < length == |data| && astr.Length == 20 && 0 < startI <= 16 && ctr == 16 * k + startI - 1
    requires extra == Extra(length)
    requires InLine(data, k, startI, start, astr[..])
    modifies astr
    ensures AtByte(data, ctr + 1, k', i, out, astr[..]) && i <= 16
  {
    hide *;
    EndOfLine(ctr, length, k, startI);
    out, i, k' := start, startI, k;
    if extra != 0 && ctr == length - 1 {
      LastRow(data, k, i - 1);
      out, i := PadLine(out, astr, i, extra, data, k);
      LineEnds(data, k, out, astr[..]);
      out := out + (" |" + Chars(CString(astr[..])) + "|");
      LineDone(data, ctr, k, startI - 1, out, astr[..], i);
      k' := k + 1;
    } else if (ctr + 1) % 16 == 0 {
      LineEnds(data, k, out, astr[..]);
      out := out + (" |" + Chars(CString(astr[..])) + "|");
      forall j | 0 <= j < 20 { astr[j] := 0; }
      i := 0;
      assert astr[..] == seq(20, _ => 0);
      LineDone(data, ctr, k, 15, out, astr[..], i);
      k' := k + 1;
    } else {
      LineGoesOn(data, ctr, k, startI - 1, out, astr[..]);
    }
  }

  /** print_buffer_to_file. The code has one gap for a byte in column 8 and another for a short line; together
      they make the one layout. */
  method PrintBuffer(buffer: array<byte>, length: int) returns (out: string)
    requires length <= buffer.Length && length < 0x8000_0000
    ensures out == Dump(buffer[..if length < 0 then 0 else length])
    ensures length <= 0 ==> out == "\n"
  {
    out := "";
    var astr := new byte[20](_ => 0);
    var extra := 0;
    if length % 16 != 0 {
      extra := 16 - length % 16;
    }
    var i, ctr := 0, 0;
    ghost var data := buffer[..if length < 0 then 0 else length];
    ghost var k := 0;
    assert Dump([]) == "\n";
    assert length > 0 ==> extra == Extra(length);
    hide *;
    assert astr[..] == seq(20, _ => 0);
    NothingPrinted(data);
    while ctr < length
      invariant 0 <= ctr <= |data| && i <= 16
      invariant AtByte(data, ctr, k, i, out, astr[..])
      decreases length - ctr
    {
      Place(data, ctr, k, i, out, astr[..]);
      out, i := PrintByte(out, buffer[ctr], ctr, astr, i, data, k);
      out, i, k := EndLine(out, ctr, length, extra, astr, i, data, k);
      ctr := ctr + 1;
    }
    AllPrinted(data, ctr, k, i, out, astr[..]);
    out := out + "\n";
  }

  // ----- reading a dump -----

  function Digit(c: char): nat {
    if '0' <= c <= '9' then c as int - '0' as int else if 'a' <= c <= 'f' then c as int - 'a' as int + 10 else 0
  }

  function ReadCell(line: string, j: nat): Option<byte>
    requires |line| == 78 && j < 16
  {
    var at := 10 + 3 * j + if j >= 8 then 1 else 0;
    if line[at] == ' ' then None else Some((Digit(line[at]) * 16 + Digit(line[at + 1])) % 256)
  }

  /** The bytes in the columns of a line, from column j on, up to the first blank one. */
  function ReadRow(line: string, j: nat): seq<byte>
    requires |line| == 78 && j <= 16
    decreases 16 - j
  {
    if j == 16 || ReadCell(line, j).None? then [] else [ReadCell(line, j).value] + ReadRow(line, j + 1)
  }

  /** The bytes in the lines from the k-th on. */
  function Read(text: string, k: nat): seq<byte>
    decreases |text| - 79 * k
  {
    if |text| < 79 * (k + 1) then [] else ReadRow(text[79 * k..79 * k + 78], 0) + Read(text, k + 1)
  }

  /** Where a column is in its line. */
  lemma {:induction false} ColumnIsAt(row: seq<byte>, n: nat, j: nat)
    requires j < n
    ensures ColumnAt(j) <= ColumnAt(j + 1) - 3 && ColumnAt(j + 1) <= ColumnAt(n)
    ensures Columns(row, n)[ColumnAt(j)..ColumnAt(j + 1)] == Column(row, j)
  {
    if j < n - 1 {
      ColumnIsAt(row, n - 1, j);
    }
  }

  lemma HexReads(b: byte)
    ensures var t := Hex(b as nat, 2); t[0] != ' ' && Digit(t[0]) * 16 + Digit(t[1]) == b
  {
    assert Hex(b as nat, 2) == Hex(b / 16, 1) + [HexDigit(b % 16)];
    assert Hex(b / 16, 1) == Hex(b / 256, 0) + [HexDigit(b / 16)];
  }

  lemma RowParts(address: nat, row: seq<byte>)
    requires |row| <= 16
    ensures Row(address, row) == Start(address) + Columns(row, 16) + (" |" + Chars(Ascii(row)) + "|")
  {
    hide Start, Columns, Chars, Ascii;
  }

  lemma InRow(address: nat, row: seq<byte>, i: nat)
    requires i < |Columns(row, 16)| && |row| <= 16
    ensures Row(address, row)[10 + i] == Columns(row, 16)[i]
  {
    hide *;
    RowParts(address, row);
    InTheMiddle(Start(address), Columns(row, 16), " |" + Chars(Ascii(row)) + "|", i);
  }

  lemma InTheMiddle(a: string, b: string, c: string, i: nat)
    requires i < |b|
    ensures (a + b + c)[|a| + i] == b[i]
  {}

  /** A column in its line. */
  lemma ColumnInRow(address: nat, row: seq<byte>, j: nat)
    requires j < 16 && |row| <= 16
    ensures |Column(row, j)| == if j == 8 then 4 else 3
    ensures 10 + ColumnAt(j) + |Column(row, j)| <= 78
    ensures forall i :: 0 <= i < |Column(row, j)| ==> Row(address, row)[10 + ColumnAt(j) + i] == Column(row, j)[i]
  {
    ColumnIsAt(row, 16, j);
    var from, c := ColumnAt(j), ColumnAt(j + 1);
    var cols, col := Columns(row, 16), Column(row, j);
    assert |col| == c - from && c <= 49 && |cols| == ColumnAt(16) == 49;
    hide *;
    forall i | 0 <= i < |col| ensures Row(address, row)[10 + from + i] == col[i] {
      InRow(address, row, from + i);
      assert cols[from + i] == cols[from..c][i];
    }
  }

  lemma CellReads(address: nat, row: seq<byte>, j: nat)
    requires j < 16 && |row| <= 16
    ensures ReadCell(Row(address, row), j) == if j < |row| then Some(row[j]) else None
  {
    hide Row, Hex, Digit;
    ColumnInRow(address, row, j);
    ghost var from, gap := ColumnAt(j), if j == 8 then 1 else 0;
    assert Row(address, row)[10 + from + gap] == Column(row, j)[gap] && Row(address, row)[10 + from + gap + 1] == Column(row, j)[gap + 1];
    if j < |row| {
      HexReads(row[j]);
    }
  }

  lemma {:induction false} RowReads(address: nat, row: seq<byte>, j: nat)
    requires j <= |row| <= 16
    ensures ReadRow(Row(address, row), j) == row[j..]
    decreases 16 - j
  {
    hide Row, ReadCell;
    if j < 16 {
      CellReads(address, row, j);
      if j < |row| {
        RowReads(address, row, j + 1);
      }
    }
  }

  /** Where a line is in the text. */
  lemma {:induction false} RowIsAt(data: seq<byte>, n: nat, k: nat)
    requires k < n
    ensures Rows(data, n)[79 * k..79 * k + 78] == Row(16 * k, RowOf(data, k)) && Rows(data, n)[79 * k + 78] == '\n'
  {
    var before, line := Rows(data, n - 1), Row(16 * (n - 1), RowOf(data, n - 1));
    assert Rows(data, n) == before + line + "\n";
    hide Rows, Row, RowOf;
    if k < n - 1 {
      RowIsAt(data, n - 1, k);
      assert (before + line + "\n")[79 * k..79 * k + 78] == before[79 * k..79 * k + 78];
    }
  }

  lemma RowCounts(n: nat)
    requires n > 0
    ensures 16 * (RowCount(n) - 1) < n <= 16 * RowCount(n)
  {}

  lemma ColumnOf(data: seq<byte>, n: nat, k: nat, j: nat)
    requires k < n && j < 79
    ensures 79 * k + j < |Rows(data, n)|
    ensures Rows(data, n)[79 * k + j] == '\n' <==> j == 78
  {
    RowIsAt(data, n, k);
    var row := Row(16 * k, RowOf(data, k));
    hide Rows, Row;
    if j < 78 {
      assert Rows(data, n)[79 * k + j] == row[j];
    }
  }

  /** A dump of at least one byte is ceil(length / 16) lines of exactly 78 columns. */
  lemma Shape(data: seq<byte>)
    requires data != []
    ensures |Dump(data)| == 79 * RowCount(|data|)
    ensures forall p :: 0 <= p < |Dump(data)| ==> (Dump(data)[p] == '\n' <==> p % 79 == 78)
    ensures 16 * (RowCount(|data|) - 1) < |data| <= 16 * RowCount(|data|)
  {
    var n, text := RowCount(|data|), Dump(data);
    RowCounts(|data|);
    hide Rows, RowCount;
    forall p | 0 <= p < |text| ensures text[p] == '\n' <==> p % 79 == 78 {
      var k, j := p / 79, p % 79;
      assert p == 79 * k + j && k < n;
      ColumnOf(data, n, k, j);
    }
  }

  // ----- a line, character by character -----

  const DIGITS := "0123456789abcdef"
  const PLACES: seq<nat> := [0x1000_0000, 0x100_0000, 0x10_0000, 0x1_0000, 0x1000, 0x100, 0x10, 1]

  /** A byte as two digits and in the ascii column; or blanks in place of it. */
  predicate IsCell(line: string, row: seq<byte>, j: nat)
    requires |line| == 78 && j < 16
  {
    var at := 10 + 3 * j + if j >= 8 then 1 else 0;
    && line[at + 2] == ' '
    && if j < |row| then
         && line[at] == DIGITS[row[j] / 16] && line[at + 1] == DIGITS[row[j] % 16]
         && line[61 + j] == if 0x20 <= row[j] <= 0x7e then row[j] as char else '.'
       else line[at] == line[at + 1] == line[61 + j] == ' '
  }

  predicate IsLine(line: string, address: nat, row: seq<byte>) {
    && |line| == 78
    && (forall i :: 0 <= i < 8 ==> line[i] == DIGITS[address / PLACES[i] % 16])
    && line[8] == line[9] == line[34] == line[59] == ' ' && line[60] == line[77] == '|'
    && forall j :: 0 <= j < 16 ==> IsCell(line, row, j)
  }

  lemma DigitIs(d: nat)
    requires d < 16
    ensures HexDigit(d) == DIGITS[d]
  {}

  lemma AddressDigits(n: nat)
    ensures forall i :: 0 <= i < 8 ==> Hex(n, 8)[i] == DIGITS[n / PLACES[i] % 16]
  {
    forall i | 0 <= i < 8 ensures Hex(n, 8)[i] == DIGITS[n / PLACES[i] % 16] {
      HexAt(n, 8, 7 - i);
      DigitIs(n / PLACES[i] % 16);
      hide Hex, HexDigit;
    }
  }

  /** The digit with d digits behind it. */
  lemma {:induction false} HexAt(n: nat, w: nat, d: nat)
    requires d < w <= 8
    ensures Hex(n, w)[w - 1 - d] == HexDigit(n / PLACES[7 - d] % 16)
  {
    hide HexDigit;
    if d > 0 {
      HexAt(n / 16, w - 1, d - 1);
      assert (n / 16) / PLACES[8 - d] == n / PLACES[7 - d];
    }
  }

  lemma RowFrame(address: nat, row: seq<byte>)
    requires |row| <= 16
    ensures var line := Row(address, row);
            && line[..8] == Hex(address, 8) && line[8] == line[9] == line[59] == ' ' && line[60] == line[77] == '|'
            && forall j :: 0 <= j < 16 ==> line[61 + j] == Ascii(row)[j] as char
  {
    RowParts(address, row);
    var ending := " |" + Chars(Ascii(row)) + "|";
    assert |Columns(row, 16)| == 49;
    assert Start(address) == Hex(address, 8) + "  ";
    assert ending[0] == ' ' && ending[1] == '|' && ending[18] == '|';
    assert forall j :: 0 <= j < 16 ==> ending[2 + j] == Ascii(row)[j] as char;
    hide Row, Hex, Start, Columns, Ascii, Chars;
    var line := Start(address) + Columns(row, 16) + ending;
    assert line == Row(address, row);
    assert forall i :: 0 <= i < 19 ==> line[59 + i] == ending[i];
    assert forall i :: 0 <= i < 10 ==> line[i] == Start(address)[i];
  }

  lemma RowCells(address: nat, row: seq<byte>, j: nat)
    requires j < 16 && |row| <= 16
    ensures IsCell(Row(address, row), row, j)
    ensures j == 8 ==> Row(address, row)[34] == ' '
  {
    ColumnInRow(address, row, j);
    RowFrame(address, row);
    var line, col, from, gap := Row(address, row), Column(row, j), 10 + ColumnAt(j), if j == 8 then 1 else 0;
    assert |col| == gap + 3 && (gap == 1 ==> col[0] == ' ');
    if j < |row| {
      TwoDigits(row[j]);
      assert col[gap] == DIGITS[row[j] / 16] && col[gap + 1] == DIGITS[row[j] % 16] && col[gap + 2] == ' ';
    } else {
      assert col[gap] == col[gap + 1] == col[gap + 2] == ' ';
    }
    hide Row, Hex, Columns, Column, HexDigit;
    assert line[from + gap] == col[gap] && line[from + gap + 1] == col[gap + 1] && line[from + gap + 2] == col[gap + 2];
    assert gap == 1 ==> line[from + 0] == col[0];
  }

  lemma TwoDigits(b: byte)
    ensures Hex(b as nat, 2) == [DIGITS[b / 16], DIGITS[b % 16]]
  {
    assert Hex(b as nat, 2) == Hex(b / 16, 1) + [HexDigit(b % 16)];
    assert Hex(b / 16, 1) == Hex(b / 256, 0) + [HexDigit(b / 16)];
  }

  lemma RowIsLine(address: nat, row: seq<byte>)
    requires |row| <= 16
    ensures IsLine(Row(address, row), address, row)
  {
    var line := Row(address, row);
    AddressDigits(address);
    RowFrame(address, row);
    hide Row, Hex, IsCell;
    assert forall i :: 0 <= i < 8 ==> line[..8][i] == line[i];
    forall j | 0 <= j < 16 ensures IsCell(line, row, j) {
      RowCells(address, row, j);
    }
    RowCells(address, row, 8);
  }

  /** Line k of a dump: eight digits of the address, 16 columns with a gap half way, and the ascii column between bars. */
  lemma LineIs(data: seq<byte>, k: nat)
    requires 16 * k < |data|
    ensures 79 * k + 79 <= |Dump(data)| && Dump(data)[79 * k + 78] == '\n'
    ensures IsLine(Dump(data)[79 * k..79 * k + 78], 16 * k, if |data| < 16 * k + 16 then data[16 * k..] else data[16 * k..16 * k + 16])
  {
    hide Row, Rows, IsLine;
    RowIsAt(data, RowCount(|data|), k);
    RowIsLine(16 * k, RowOf(data, k));
  }

  function Rest(data: seq<byte>, k: nat): seq<byte> {
    if 16 * k < |data| then data[16 * k..] else []
  }

  lemma RowAndRest(data: seq<byte>, k: nat)
    requires k < RowCount(|data|)
    ensures Rest(data, k) == RowOf(data, k) + Rest(data, k + 1)
  {
  }

  lemma {:induction false} RestReads(data: seq<byte>, k: nat)
    requires k <= RowCount(|data|)
    ensures Read(Rows(data, RowCount(|data|)), k) == Rest(data, k)
    decreases RowCount(|data|) - k
  {
    hide Row, ReadRow, Rows, RowOf, Rest;
    if k < RowCount(|data|) {
      RowIsAt(data, RowCount(|data|), k);
      RowReads(16 * k, RowOf(data, k), 0);
      RestReads(data, k + 1);
      RowAndRest(data, k);
    } else {
      NoRest(data);
    }
  }

  lemma NoRest(data: seq<byte>)
    ensures Rest(data, RowCount(|data|)) == []
  {
  }

  /** The hex columns give the buffer back, so two buffers with the same dump are the same. */
  lemma ReadsBack(data: seq<byte>)
    ensures Read(Dump(data), 0) == data
  {
    if data != [] {
      RestReads(data, 0);
    }
  }
}
