/**
 * The text side of both solvers: how a reader turns the lines of a sudoku
 * file into the 81 cells of a grid, and how a printer turns a grid back into
 * lines. Files are sequences of lines; opening, reading and writing them is
 * not modelled.
 *
 * Every reader trims a line, removes its spaces, skips it when nothing or a
 * `#` comment is left, turns `.` into `0` and rejects a kept line whose length
 * is not 9. The Java readers and the Rust/Go readers do these steps in
 * different orders and trim different characters; the lemmas below show when
 * the orders agree.
 */
module Text {
  import opened Masks

  // ---------------------------------------------------------------------
  // Integer conversions of the source languages
  // ---------------------------------------------------------------------

  /** Two's-complement truncation to 8 bits: Java's `(byte)`, Go's `int8(..)`, Rust's `as i8`. */
  function Int8(x: int): (r: int)
    ensures -128 <= r < 128 && (x - r) % 256 == 0
  {
    if x % 256 < 128 then x % 256 else x % 256 - 256
  }

  /** Two's-complement truncation to 16 bits: Java's `(short)`. */
  function Int16(x: int): (r: int)
    ensures -32768 <= r < 32768 && (x - r) % 65536 == 0
  {
    if x % 65536 < 32768 then x % 65536 else x % 65536 - 65536
  }

  /** Two's-complement truncation to 32 bits: the wrap-around of Java's `int`. */
  function Int32(x: int): (r: int)
    ensures -0x8000_0000 <= r < 0x8000_0000 && (x - r) % 0x1_0000_0000 == 0
  {
    if x % 0x1_0000_0000 < 0x8000_0000 then x % 0x1_0000_0000 else x % 0x1_0000_0000 - 0x1_0000_0000
  }

  function Pow2(n: nat): nat
  {
    if n == 0 then 1 else 2 * Pow2(n - 1)
  }

  /** Java's `1 << n` on `int`: the distance is taken modulo 32 (`n & 31`) and the result wraps at 32 bits. */
  function ShiftLeft(n: int): int
  {
    Int32(Pow2(n % 32))
  }

  // ---------------------------------------------------------------------
  // Cell values
  // ---------------------------------------------------------------------

  /**
   * The value a Backtracking reader stores for character `c`: `c - '0'` cut
   * to a signed byte (Java `(byte)(c - '0')`, Go `int8(c - '0')`; Rust's
   * `c as i8 - '0' as i8` is the same value, see RustDigit).
   */
  function Digit(c: char): int
  {
    Int8(c as int - 48)
  }

  /**
   * The mask the Dynamic reader stores for character `c`: UNCONSTRAINED (511)
   * for `0`, otherwise `(short) (1 << (c - '0' - 1))`.
   */
  function MaskValue(c: char): int
  {
    if c == '0' then Unconstrained as int else Int16(ShiftLeft(c as int - 48 - 1))
  }

  /** A digit character reads as its digit; the value always fits a signed byte. */
  lemma DigitValue(c: char)
    ensures -128 <= Digit(c) < 128
    ensures '0' <= c <= '9' ==> Digit(c) == c as int - 48
  {
  }

  /** Rust converts the character to `i8` first and subtracts in `i8` (wrapping), which gives the same value. */
  lemma RustDigit(c: char)
    ensures Int8(Int8(c as int) - 48) == Digit(c)
  {
    var x := c as int;
    var a := Int8(x);
    assert (a - 48) % 256 == (x - 48) % 256 by {
      assert (x - a) % 256 == 0;
      assert (x - 48) - (a - 48) == x - a;
    }
  }

  lemma Pow2Values()
    ensures Pow2(0) == 1 && Pow2(1) == 2 && Pow2(2) == 4 && Pow2(3) == 8 && Pow2(4) == 16
    ensures Pow2(5) == 32 && Pow2(6) == 64 && Pow2(7) == 128 && Pow2(8) == 256
  {
    assert Pow2(1) == 2 * Pow2(0);
    assert Pow2(2) == 2 * Pow2(1);
    assert Pow2(3) == 2 * Pow2(2);
    assert Pow2(4) == 2 * Pow2(3);
    assert Pow2(5) == 2 * Pow2(4);
    assert Pow2(6) == 2 * Pow2(5);
    assert Pow2(7) == 2 * Pow2(6);
    assert Pow2(8) == 2 * Pow2(7);
  }

  /** Truncation leaves a value that already fits 16 bits unchanged. */
  lemma SmallInt(x: int)
    requires 0 <= x < 32768
    ensures Int32(x) == x && Int16(x) == x
  {
  }

  /** `0` reads as the unconstrained mask and digit d as the single bit of d. */
  lemma MaskValueDigit(c: char)
    requires '0' <= c <= '9'
    ensures c == '0' ==> MaskValue(c) == Unconstrained as int
    ensures c != '0' ==> MaskValue(c) == Bit(c as int - 48) as int
  {
    if c != '0' {
      var d := c as int - 48;
      Pow2Values();
      BitValues();
      assert (d - 1) % 32 == d - 1;
      SmallInt(Pow2(d - 1));
      assert MaskValue(c) == Pow2(d - 1);
      if d == 1 {} else if d == 2 {} else if d == 3 {} else if d == 4 {} else if d == 5 {}
      else if d == 6 {} else if d == 7 {} else if d == 8 {} else {}
    }
  }

  // ---------------------------------------------------------------------
  // Line normalisation
  // ---------------------------------------------------------------------

  datatype Port = Java | Rust | Go

  /** The two readers of the Dynamic and Backtracking solvers; Backtracking is ported three times. */
  datatype Reader = Backtracking(port: Port) | Dynamic

  /** Both Java readers share their line handling. */
  function PortOf(r: Reader): Port
  {
    if r.Dynamic? then Java else r.port
  }

  /**
   * White space at the ends of a line: Java's `String.trim` removes every
   * character up to and including the space; Rust's `str::trim` and Go's
   * `strings.TrimSpace` remove the Unicode White_Space characters.
   */
  predicate IsSpace(java: bool, c: char)
  {
    if java then c <= ' '
    else
      || ('\t' <= c <= '\r') || c == ' ' || c == '\U{85}' || c == '\U{A0}' || c == '\U{1680}'
      || ('\U{2000}' <= c <= '\U{200A}') || c == '\U{2028}' || c == '\U{2029}' || c == '\U{202F}'
      || c == '\U{205F}' || c == '\U{3000}'
  }

  /** Number of white-space characters at the start of `s`. */
  function Leading(java: bool, s: string): (n: nat)
    ensures n <= |s| && (n < |s| ==> !IsSpace(java, s[n]))
    ensures forall k :: 0 <= k < n ==> IsSpace(java, s[k])
  {
    if s == [] || !IsSpace(java, s[0]) then 0 else 1 + Leading(java, s[1..])
  }

  /** Number of white-space characters at the end of `s`. */
  function Trailing(java: bool, s: string): (n: nat)
    ensures n <= |s| && (n < |s| ==> !IsSpace(java, s[|s| - 1 - n]))
    ensures forall k :: |s| - n <= k < |s| ==> IsSpace(java, s[k])
  {
    if s == [] || !IsSpace(java, s[|s| - 1]) then 0 else 1 + Trailing(java, s[..|s| - 1])
  }

  /** The line without white space at either end. */
  function Trim(java: bool, s: string): (t: string)
    ensures |t| <= |s| && forall k :: 0 <= k < |t| ==> t[k] in s
    ensures t == [] || (!IsSpace(java, t[0]) && !IsSpace(java, t[|t| - 1]))
    ensures s == [] || (!IsSpace(java, s[0]) && !IsSpace(java, s[|s| - 1])) ==> t == s
  {
    var a := Leading(java, s);
    var u := s[a..];
    u[..|u| - Trailing(java, u)]
  }

  /** `replace(" ", "")`: the line without its space characters. */
  function RemoveSpaces(s: string): (t: string)
    ensures |t| <= |s|
    ensures forall k :: 0 <= k < |t| ==> t[k] != ' ' && t[k] in s
    ensures s != [] && s[0] != ' ' ==> t != [] && t[0] == s[0]
  {
    if s == [] then [] else (if s[0] == ' ' then [] else [s[0]]) + RemoveSpaces(s[1..])
  }

  /** `replace` of one character by another everywhere in `s`. */
  function Replace(s: string, a: char, b: char): string
  {
    seq(|s|, k requires 0 <= k < |s| => if s[k] == a then b else s[k])
  }

  /** What a reader makes of one line. */
  datatype LineStep = Skip | Malformed | Kept(row: string)

  /**
   * A trimmed line as the readers go on with it. The Java readers test for a
   * blank or `#` line first, then remove spaces and turn `.` into `0`, then
   * check the length; Rust and Go remove spaces first, then test, check the
   * length and only then turn `.` into `0`.
   */
  function Normalize(p: Port, t: string): (r: LineStep)
    ensures r.Kept? ==> |r.row| == 9 && forall k :: 0 <= k < 9 ==> r.row[k] != '.' && r.row[k] != ' '
  {
    if p == Java then
      if t == [] || t[0] == '#' then Skip
      else
        var u := Replace(RemoveSpaces(t), '.', '0');
        if |u| != 9 then Malformed else Kept(u)
    else
      var u := RemoveSpaces(t);
      if u == [] || u[0] == '#' then Skip
      else if |u| != 9 then Malformed
      else Kept(Replace(u, '.', '0'))
  }

  /** One line as reader `r` handles it. */
  function Step(r: Reader, line: string): LineStep
  {
    var p := PortOf(r);
    Normalize(p, Trim(p == Java, line))
  }

  /**
   * On a trimmed line the two orders agree: removing spaces cannot empty a
   * line that does not start with one or change its first character, and
   * turning `.` into `0` does not change the length.
   */
  lemma NormalizeOrder(t: string)
    requires t == [] || t[0] != ' '
    ensures Normalize(Java, t) == Normalize(Rust, t) && Normalize(Rust, t) == Normalize(Go, t)
  {
  }

  /** The lines on which Java's trim and the Unicode trim remove the same characters. */
  predicate SameSpaces(s: string)
  {
    forall k :: 0 <= k < |s| ==> (IsSpace(true, s[k]) <==> IsSpace(false, s[k]))
  }

  lemma {:induction false} LeadingAgree(s: string)
    requires SameSpaces(s)
    ensures Leading(true, s) == Leading(false, s)
  {
    if s != [] && IsSpace(true, s[0]) {
      LeadingAgree(s[1..]);
    }
  }

  lemma {:induction false} TrailingAgree(s: string)
    requires SameSpaces(s)
    ensures Trailing(true, s) == Trailing(false, s)
  {
    if s != [] && IsSpace(true, s[|s| - 1]) {
      TrailingAgree(s[..|s| - 1]);
    }
  }

  /** Lines of printable ASCII and the usual control white space trim the same way in every port. */
  lemma AsciiSameSpaces(s: string)
    requires forall k :: 0 <= k < |s| ==> ('\t' <= s[k] <= '\r') || (' ' <= s[k] <= '~')
    ensures SameSpaces(s)
  {
  }

  /** Where both trims agree, every port handles a line the same way. */
  lemma StepsAgree(line: string)
    requires SameSpaces(line)
    ensures Step(Backtracking(Java), line) == Step(Backtracking(Rust), line) == Step(Backtracking(Go), line)
    ensures Step(Dynamic, line) == Step(Backtracking(Java), line)
  {
    LeadingAgree(line);
    var a := Leading(true, line);
    TrailingAgree(line[a..]);
    var t := Trim(true, line);
    assert t == Trim(false, line);
    NormalizeOrder(t);
  }

  // ---------------------------------------------------------------------
  // Lengths as the ports count them
  // ---------------------------------------------------------------------

  /** Length of `s` in UTF-16 code units, as Java's `String.length` counts it. */
  function Utf16Length(s: string): (n: nat)
    ensures |s| <= n <= 2 * |s|
  {
    if s == [] then 0 else (if s[0] as int < 0x1_0000 then 1 else 2) + Utf16Length(s[1..])
  }

  /** Length of `s` in UTF-8 bytes, as Rust's `str::len` and Go's `len` count it. */
  function Utf8Length(s: string): (n: nat)
    ensures |s| <= n <= 4 * |s|
  {
    if s == [] then 0
    else
      var c := s[0] as int;
      (if c < 0x80 then 1 else if c < 0x800 then 2 else if c < 0x1_0000 then 3 else 4) + Utf8Length(s[1..])
  }

  /** Every character of `s` is ASCII. */
  predicate Ascii(s: string)
  {
    forall k :: 0 <= k < |s| ==> s[k] as int < 0x80
  }

  /**
   * On ASCII text every port's length is the number of characters, the
   * length `Normalize` tests.
   */
  lemma {:induction false} AsciiLengths(s: string)
    requires Ascii(s)
    ensures Utf16Length(s) == |s| && Utf8Length(s) == |s|
  {
    if s != [] {
      assert Ascii(s[1..]) by {
        forall k | 0 <= k < |s[1..]| ensures s[1..][k] as int < 0x80 {
          assert s[1..][k] == s[k + 1];
        }
      }
      AsciiLengths(s[1..]);
    }
  }

  /** Space removal keeps an ASCII line ASCII, so its length is the same in every port. */
  lemma AsciiRemoveSpaces(t: string)
    requires Ascii(t)
    ensures Ascii(RemoveSpaces(t))
    ensures Utf16Length(RemoveSpaces(t)) == |RemoveSpaces(t)| == Utf8Length(RemoveSpaces(t))
  {
    var u := RemoveSpaces(t);
    forall k | 0 <= k < |u| ensures u[k] as int < 0x80 {
      var j :| 0 <= j < |t| && t[j] == u[k];
    }
    AsciiLengths(u);
  }

  /** The lengths of a single character. */
  lemma CharLengths(c: char)
    ensures Utf16Length([c]) == if c as int < 0x1_0000 then 1 else 2
    ensures Utf8Length([c]) == if c as int < 0x80 then 1 else if c as int < 0x800 then 2 else if c as int < 0x1_0000 then 3 else 4
  {
    assert [c][1..] == [];
  }

  /**
   * Outside ASCII the counts part: an accented letter is one character and
   * two UTF-8 bytes, so seven digits and an `e` with acute accent make a
   * line of 8 characters that Rust and Go measure as 9.
   */
  lemma AccentLength()
    ensures var e := "1234567" + "\U{E9}";
      |e| == 8 && Utf16Length(e) == 8 && Utf8Length(e) == 9
  {
    var a, c := "1234567", '\U{E9}';
    assert Ascii(a);
    AsciiLengths(a);
    CharLengths(c);
    LengthsAppend(a, [c]);
  }

  /**
   * An emoji is one character, two UTF-16 units and four UTF-8 bytes: eight
   * digits and an emoji make a line of 9 characters that no port measures as 9.
   */
  lemma EmojiLength()
    ensures var f := "12345678" + "\U{1F600}";
      |f| == 9 && Utf16Length(f) == 10 && Utf8Length(f) == 12
  {
    var b, c := "12345678", '\U{1F600}';
    assert Ascii(b);
    AsciiLengths(b);
    CharLengths(c);
    LengthsAppend(b, [c]);
  }

  /** Both counts add up over a concatenation. */
  lemma {:induction false} LengthsAppend(a: string, b: string)
    ensures Utf16Length(a + b) == Utf16Length(a) + Utf16Length(b)
    ensures Utf8Length(a + b) == Utf8Length(a) + Utf8Length(b)
  {
    if a != [] {
      assert (a + b)[1..] == a[1..] + b;
      LengthsAppend(a[1..], b);
    } else {
      assert a + b == b;
    }
  }

  // ---------------------------------------------------------------------
  // Reading a file
  // ---------------------------------------------------------------------

  /** Why a file cannot be read; `lineNum` counts every line from 1. */
  datatype ReadError = BadLength(lineNum: nat) | TooManyRows(lineNum: nat)

  datatype Result<T> = Ok(value: T) | Err(error: ReadError)

  /**
   * The rows kept from `lines`, or the first error: a kept line that is not
   * 9 long, or a tenth kept line (the grid has no row for it).
   */
  function KeptRows(r: Reader, lines: seq<string>): (res: Result<seq<string>>)
    ensures res.Ok? ==> |res.value| <= 9 && forall i :: 0 <= i < |res.value| ==> |res.value[i]| == 9
    decreases |lines|
  {
    if lines == [] then Ok([])
    else
      var n := |lines|;
      match KeptRows(r, lines[..n - 1])
      case Err(e) => Err(e)
      case Ok(rows) =>
        match Step(r, lines[n - 1])
        case Skip => Ok(rows)
        case Malformed => Err(BadLength(n))
        case Kept(row) => if |rows| == 9 then Err(TooManyRows(n)) else Ok(rows + [row])
  }

  function Cell(r: Reader, c: char): int
  {
    if r.Dynamic? then MaskValue(c) else Digit(c)
  }

  function Zeros(n: nat): seq<int>
  {
    seq(n, _ => 0)
  }

  /** The cells of one kept row. */
  function RowCells(r: Reader, row: string): seq<int>
  {
    seq(|row|, k requires 0 <= k < |row| => Cell(r, row[k]))
  }

  /** The cells of the kept rows in row-major order. */
  function Cells(r: Reader, rows: seq<string>): seq<int>
  {
    if rows == [] then [] else Cells(r, rows[..|rows| - 1]) + RowCells(r, rows[|rows| - 1])
  }

  /** The grid read from `rows`: a missing row stays 0, as the zero-initialised arrays leave it. */
  function Grid(r: Reader, rows: seq<string>): (g: seq<int>)
    requires |rows| <= 9 && forall i :: 0 <= i < |rows| ==> |rows[i]| == 9
    ensures |g| == 81
  {
    CellsLength(r, rows);
    Cells(r, rows) + Zeros(81 - 9 * |rows|)
  }

  /** The whole reader: the grid of a file, or the line that makes it unreadable. */
  function Read(r: Reader, lines: seq<string>): Result<seq<int>>
  {
    match KeptRows(r, lines)
    case Ok(rows) => Ok(Grid(r, rows))
    case Err(e) => Err(e)
  }

  lemma {:induction false} CellsLength(r: Reader, rows: seq<string>)
    requires forall i :: 0 <= i < |rows| ==> |rows[i]| == 9
    ensures |Cells(r, rows)| == 9 * |rows|
  {
    if rows != [] {
      CellsLength(r, rows[..|rows| - 1]);
    }
  }

  /** Cell (i, j) of the grid comes from character j of kept row i; cells of missing rows are 0. */
  lemma {:induction false} GridAt(r: Reader, rows: seq<string>, i: int, j: int)
    requires |rows| <= 9 && forall k :: 0 <= k < |rows| ==> |rows[k]| == 9
    requires 0 <= i < 9 && 0 <= j < 9
    ensures Grid(r, rows)[9 * i + j] == if i < |rows| then Cell(r, rows[i][j]) else 0
  {
    CellsLength(r, rows);
    if i < |rows| {
      CellsAt(r, rows, i, j);
    }
  }

  lemma {:induction false} CellsAt(r: Reader, rows: seq<string>, i: int, j: int)
    requires forall k :: 0 <= k < |rows| ==> |rows[k]| == 9
    requires 0 <= i < |rows| && 0 <= j < 9
    ensures |Cells(r, rows)| == 9 * |rows| && Cells(r, rows)[9 * i + j] == Cell(r, rows[i][j])
  {
    CellsLength(r, rows);
    var front := rows[..|rows| - 1];
    CellsLength(r, front);
    if i < |rows| - 1 {
      CellsAt(r, front, i, j);
    }
  }

  /** The one-by-one write of row `sudRow`, character `c`, into the zero-initialised rest of the grid. */
  lemma WriteNext(done: seq<int>, row: seq<int>, x: int, n: nat)
    requires n >= 1
    ensures (done + row + Zeros(n))[|done| + |row| := x] == done + (row + [x]) + Zeros(n - 1)
  {
    var a := (done + row + Zeros(n))[|done| + |row| := x];
    var b := done + (row + [x]) + Zeros(n - 1);
    assert |a| == |b|;
    forall k | 0 <= k < |a| ensures a[k] == b[k] {
      if k < |done| + |row| {
      } else if k == |done| + |row| {
      } else {
        assert a[k] == 0 && b[k] == 0;
      }
    }
  }

  /**
   * The line loop of every reader: `lineNum` counts all lines, `sudRow` the
   * kept ones, and a kept line fills the next row of the zero-initialised
   * grid character by character.
   */
  method ReadLines(r: Reader, lines: seq<string>) returns (result: Result<seq<int>>)
    ensures result == Read(r, lines)
  {
    var sud := new int[81](_ => 0);
    var lineNum := 0;
    var sudRow := 0;
    assert sud[..] == Grid(r, []);
    while lineNum < |lines|
      invariant 0 <= lineNum <= |lines|
      invariant KeptRows(r, lines[..lineNum]).Ok?
      invariant sudRow == |KeptRows(r, lines[..lineNum]).value|
      invariant sud[..] == Grid(r, KeptRows(r, lines[..lineNum]).value)
    {
      ghost var rows := KeptRows(r, lines[..lineNum]).value;
      var line := lines[lineNum];
      NextLine(r, lines, lineNum);
      lineNum := lineNum + 1;
      var step := Step(r, line);
      match step
      case Skip =>
      case Malformed =>
        return Err(BadLength(lineNum));
      case Kept(row) =>
        if sudRow == 9 {
          return Err(TooManyRows(lineNum));
        }
        FillRow(sud, r, rows, row, sudRow);
        sudRow := sudRow + 1;
    }
    assert lines[..lineNum] == lines;
    return Ok(sud[..]);
  }

  /** A kept line fills the next row of the grid, character by character. */
  method FillRow(sud: array<int>, r: Reader, ghost rows: seq<string>, row: string, sudRow: int)
    requires sudRow == |rows| < 9 && (forall i :: 0 <= i < |rows| ==> |rows[i]| == 9) && |row| == 9
    requires sud.Length == 81 && sud[..] == Grid(r, rows)
    modifies sud
    ensures sud[..] == Grid(r, rows + [row])
  {
    CellsLength(r, rows);
    for c := 0 to 9
      invariant sud[..] == Cells(r, rows) + RowCells(r, row[..c]) + Zeros(81 - 9 * sudRow - c)
    {
      WriteNext(Cells(r, rows), RowCells(r, row[..c]), Cell(r, row[c]), 81 - 9 * sudRow - c);
      RowCellsNext(r, row, c);
      sud[9 * sudRow + c] := Cell(r, row[c]);
    }
    assert row[..9] == row;
    assert (rows + [row])[..|rows|] == rows;
    assert Cells(r, rows + [row]) == Cells(r, rows) + RowCells(r, row);
  }

  lemma RowCellsNext(r: Reader, row: string, c: int)
    requires 0 <= c < |row|
    ensures RowCells(r, row[..c + 1]) == RowCells(r, row[..c]) + [Cell(r, row[c])]
  {
    var a, b := RowCells(r, row[..c + 1]), RowCells(r, row[..c]) + [Cell(r, row[c])];
    assert |a| == |b|;
    forall k | 0 <= k < |a| ensures a[k] == b[k] {
    }
  }

  /** What one more line does to the reader's verdict: it is kept, skipped, or ends the whole read. */
  lemma NextLine(r: Reader, lines: seq<string>, n: nat)
    requires n < |lines| && KeptRows(r, lines[..n]).Ok?
    ensures var rows := KeptRows(r, lines[..n]).value;
      match Step(r, lines[n])
      case Skip => KeptRows(r, lines[..n + 1]) == Ok(rows)
      case Malformed => Read(r, lines) == Err(BadLength(n + 1))
      case Kept(row) =>
        && (|rows| == 9 ==> Read(r, lines) == Err(TooManyRows(n + 1)))
        && (|rows| < 9 ==> KeptRows(r, lines[..n + 1]) == Ok(rows + [row]))
  {
    KeptRowsNext(r, lines, n);
    if KeptRows(r, lines[..n + 1]).Err? {
      ErrorSticks(r, lines, n + 1);
    }
  }

  /** The reader's verdict after one more line. */
  lemma KeptRowsNext(r: Reader, lines: seq<string>, n: nat)
    requires n < |lines| && KeptRows(r, lines[..n]).Ok?
    ensures var rows := KeptRows(r, lines[..n]).value;
      KeptRows(r, lines[..n + 1]) ==
        match Step(r, lines[n])
        case Skip => Ok(rows)
        case Malformed => Err(BadLength(n + 1))
        case Kept(row) => if |rows| == 9 then Err(TooManyRows(n + 1)) else Ok(rows + [row])
  {
    assert lines[..n + 1][..n] == lines[..n];
  }

  /**
   * Error `e` names a line of `lines`: a line too long or too short after
   * normalisation, or a well-formed line with no row left for it.
   */
  predicate NamesLine(r: Reader, lines: seq<string>, e: ReadError)
  {
    && 1 <= e.lineNum <= |lines|
    && (e.BadLength? ==> Step(r, lines[e.lineNum - 1]).Malformed?)
    && (e.TooManyRows? ==> Step(r, lines[e.lineNum - 1]).Kept?)
  }

  /** An error names a line of the file. */
  lemma {:induction false} ErrorLine(r: Reader, lines: seq<string>)
    requires KeptRows(r, lines).Err?
    ensures NamesLine(r, lines, KeptRows(r, lines).error)
    decreases |lines|
  {
    assert lines != [];
    var front := lines[..|lines| - 1];
    if KeptRows(r, front).Err? {
      ErrorLine(r, front);
      FrontError(r, lines);
      NamesLineLonger(r, front, lines, KeptRows(r, front).error);
    } else {
      var n := |lines|;
      KeptRowsNext(r, lines, n - 1);
      assert lines[..n] == lines;
      LastLineError(KeptRows(r, front).value, Step(r, lines[n - 1]), n, KeptRows(r, lines));
    }
  }

  /** A line named in a prefix of the file is named in the file. */
  lemma NamesLineLonger(r: Reader, front: seq<string>, lines: seq<string>, e: ReadError)
    requires NamesLine(r, front, e) && front <= lines
    ensures NamesLine(r, lines, e)
  {
    assert front[e.lineNum - 1] == lines[e.lineNum - 1];
  }

  /** An error on the lines before the last is the verdict on all of them. */
  lemma FrontError(r: Reader, lines: seq<string>)
    requires lines != [] && KeptRows(r, lines[..|lines| - 1]).Err?
    ensures KeptRows(r, lines) == KeptRows(r, lines[..|lines| - 1])
  {
  }

  /** The verdict on one more line, when it is an error, names that line. */
  lemma LastLineError(rows: seq<string>, st: LineStep, n: nat, res: Result<seq<string>>)
    requires res == match st
      case Skip => Ok(rows)
      case Malformed => Err(BadLength(n))
      case Kept(row) => if |rows| == 9 then Err(TooManyRows(n)) else Ok(rows + [row])
    requires res.Err?
    ensures res.error.lineNum == n
    ensures res.error.BadLength? ==> st.Malformed?
    ensures res.error.TooManyRows? ==> st.Kept?
  {
  }

  /** An error stays the reader's verdict whatever lines follow. */
  lemma {:induction false} ErrorSticks(r: Reader, lines: seq<string>, k: nat)
    requires 1 <= k <= |lines| && KeptRows(r, lines[..k]).Err?
    ensures KeptRows(r, lines) == KeptRows(r, lines[..k])
    decreases |lines|
  {
    if k < |lines| {
      var front := lines[..|lines| - 1];
      assert front[..k] == lines[..k];
      ErrorSticks(r, front, k);
    } else {
      assert lines[..k] == lines;
    }
  }

  /** Both Java readers keep and reject exactly the same lines. */
  lemma {:induction false} JavaReadersAgree(lines: seq<string>)
    ensures KeptRows(Dynamic, lines) == KeptRows(Backtracking(Java), lines)
    decreases |lines|
  {
    if lines != [] {
      JavaReadersAgree(lines[..|lines| - 1]);
    }
  }

  /** Where both trims agree on every line, every port reads a file the same way. */
  lemma {:induction false} PortsAgree(lines: seq<string>)
    requires forall i :: 0 <= i < |lines| ==> SameSpaces(lines[i])
    ensures KeptRows(Backtracking(Java), lines) == KeptRows(Backtracking(Rust), lines)
    ensures KeptRows(Backtracking(Rust), lines) == KeptRows(Backtracking(Go), lines)
    decreases |lines|
  {
    if lines != [] {
      PortsAgree(lines[..|lines| - 1]);
      StepsAgree(lines[|lines| - 1]);
    }
  }

  /** A line of digits, dots and spaces. */
  predicate PlainLine(line: string)
  {
    forall k :: 0 <= k < |line| ==> line[k] == ' ' || line[k] == '.' || '0' <= line[k] <= '9'
  }

  predicate DigitLine(s: string)
  {
    forall k :: 0 <= k < |s| ==> '0' <= s[k] <= '9'
  }

  predicate DigitRows(rows: seq<string>)
  {
    forall i :: 0 <= i < |rows| ==> DigitLine(rows[i])
  }

  /** A plain line is kept as nine digits. */
  lemma DigitRowsAppend(rows: seq<string>, row: string)
    requires DigitRows(rows) && DigitLine(row)
    ensures DigitRows(rows + [row])
  {
    forall i | 0 <= i < |rows| + 1 ensures DigitLine((rows + [row])[i]) {
      if i < |rows| {
        assert (rows + [row])[i] == rows[i];
      }
    }
  }

  lemma PlainRow(r: Reader, line: string)
    requires PlainLine(line) && Step(r, line).Kept?
    ensures DigitLine(Step(r, line).row)
  {
    var p := PortOf(r);
    var t := Trim(p == Java, line);
    var u := RemoveSpaces(t);
    assert forall k :: 0 <= k < |u| ==> u[k] == '.' || '0' <= u[k] <= '9';
  }

  /**
   * A file of plain lines reads as blanks and digits in a Backtracking
   * reader, and as masks of nine bits in the Dynamic one.
   */
  lemma ReadPlain(r: Reader, lines: seq<string>)
    requires forall i :: 0 <= i < |lines| ==> PlainLine(lines[i])
    requires Read(r, lines).Ok?
    ensures forall k :: 0 <= k < 81 ==> 0 <= Read(r, lines).value[k] <= if r.Dynamic? then 511 else 9
  {
    var rows := KeptRows(r, lines).value;
    PlainRows(r, lines);
    CellsInRange(r, rows);
    CellsLength(r, rows);
  }

  /** The cells of rows of digits lie in 0..9, or in 0..511 for the Dynamic reader. */
  lemma {:induction false} CellsInRange(r: Reader, rows: seq<string>)
    requires DigitRows(rows)
    ensures forall k :: 0 <= k < |Cells(r, rows)| ==> 0 <= Cells(r, rows)[k] <= if r.Dynamic? then 511 else 9
  {
    if rows != [] {
      var row := rows[|rows| - 1];
      CellsInRange(r, rows[..|rows| - 1]);
      forall k | 0 <= k < |row| ensures 0 <= Cell(r, row[k]) <= if r.Dynamic? then 511 else 9 {
        DigitValue(row[k]);
        MaskValueDigit(row[k]);
        BitValues();
      }
    }
  }

  lemma {:induction false} PlainRows(r: Reader, lines: seq<string>)
    requires forall i :: 0 <= i < |lines| ==> PlainLine(lines[i])
    requires KeptRows(r, lines).Ok?
    ensures DigitRows(KeptRows(r, lines).value)
    decreases |lines|
  {
    if lines != [] {
      var front := lines[..|lines| - 1];
      var last := lines[|lines| - 1];
      assert forall i :: 0 <= i < |front| ==> front[i] == lines[i];
      PlainRows(r, front);
      var rows := KeptRows(r, front).value;
      match Step(r, last)
      case Kept(row) =>
        PlainRow(r, last);
        DigitRowsAppend(rows, row);
      case _ =>
    }
  }

  // ---------------------------------------------------------------------
  // Printing a grid
  // ---------------------------------------------------------------------

  /** Decimal digits of `n`, as `Integer.toString`, `to_string` and `strconv.Itoa` write them. */
  function DecimalDigits(n: nat): string
  {
    if n < 10 then [(48 + n) as char] else DecimalDigits(n / 10) + [(48 + n % 10) as char]
  }

  /** Decimal text of `v`, with a minus sign when negative. */
  function Decimal(v: int): string
  {
    if v < 0 then "-" + DecimalDigits(-v) else DecimalDigits(v)
  }

  /** The number a string of decimal digits denotes. */
  function ValueOf(s: string): int
  {
    if s == [] then 0 else 10 * ValueOf(s[..|s| - 1]) + (s[|s| - 1] as int - 48)
  }

  /** Decimal text reads back as the number it was written from. */
  lemma {:induction false} DecimalRoundTrip(n: nat)
    ensures ValueOf(DecimalDigits(n)) == n
  {
    if n >= 10 {
      DecimalRoundTrip(n / 10);
      var s := DecimalDigits(n);
      assert s[..|s| - 1] == DecimalDigits(n / 10);
    }
  }

  /**
   * A Backtracking cell as Java's `sudPrint` appends it: `val == 0 ? '.' : val`
   * mixes a `char` and a `byte`, so the expression is an `int` and a blank
   * appends the code of `.`, the text "46".
   */
  function JavaCellAsWritten(v: int): string
  {
    Decimal(if v == 0 then '.' as int else v)
  }

  /** A Backtracking cell as intended: a blank as `.`, anything else in decimal. */
  function JavaCell(v: int): string
  {
    if v == 0 then "." else Decimal(v)
  }

  /** A Dynamic mask as `sudPrint` shows it: `X` for no candidate, the digit of a determined cell, `?` otherwise. */
  function MaskCell(m: Mask): string
  {
    if m == 0 then "X" else if PopCount(m) == 1 then Decimal(Lowest(m)) else "?"
  }

  /** The three kinds of mask show as three disjoint kinds of text. */
  lemma MaskCellText(m: Mask)
    ensures MaskCell(m) == "X" <==> m == 0
    ensures MaskCell(m) == "?" <==> PopCount(m) >= 2
    ensures IsSingle(m) ==> 1 <= Lowest(m) <= 9 && MaskCell(m) == [(48 + Lowest(m)) as char]
  {
    EmptyMask(m);
    SingleIsBit(m);
  }

  /** The first `n` cells of row `row` as a Java printer builds them, with a space before columns 3 and 6. */
  function JavaRow<T>(g: seq<T>, text: T -> string, row: int, n: int): string
    requires |g| == 81 && 0 <= row < 9 && 0 <= n <= 9
  {
    if n == 0 then ""
    else JavaRow(g, text, row, n - 1) + (if n - 1 == 3 || n - 1 == 6 then " " else "") + text(g[9 * row + n - 1])
  }

  /** The lines a Java printer writes for the first `n` rows, with an empty line before rows 3 and 6. */
  function JavaLines<T>(g: seq<T>, text: T -> string, n: int): seq<string>
    requires |g| == 81 && 0 <= n <= 9
  {
    if n == 0 then []
    else JavaLines(g, text, n - 1) + (if n - 1 == 3 || n - 1 == 6 then [""] else []) + [JavaRow(g, text, n - 1, 9)]
  }

  /**
   * `sudPrint` of both Java solvers, with the cell rendering as a parameter:
   * MaskCell for the Dynamic solver, JavaCellAsWritten for the Backtracking
   * solver as written and JavaCell as intended.
   */
  method PrintJava<T>(g: seq<T>, text: T -> string) returns (out: seq<string>)
    requires |g| == 81
    ensures out == JavaLines(g, text, 9)
  {
    out := [];
    for row := 0 to 9
      invariant out == JavaLines(g, text, row)
    {
      var rowSB := "";
      for col := 0 to 9
        invariant rowSB == JavaRow(g, text, row, col)
      {
        if col == 3 || col == 6 {
          rowSB := rowSB + " ";
        }
        rowSB := rowSB + text(g[9 * row + col]);
      }
      if row == 3 || row == 6 {
        out := out + [""];
      }
      out := out + [rowSB];
    }
  }

  /** `row_str`/`rowStr` of the Rust and Go printers: the decimal text of the first `n` cells of a row. */
  function DecimalRow(g: seq<int>, row: int, n: int): string
    requires |g| == 81 && 0 <= row < 9 && 0 <= n <= 9
  {
    if n == 0 then "" else DecimalRow(g, row, n - 1) + Decimal(g[9 * row + n - 1])
  }

  /** One printed line: the first nine characters in three groups of three, separated by spaces. */
  function Grouped(t: string): string
    requires |t| >= 9
  {
    t[0..3] + " " + t[3..6] + " " + t[6..9]
  }

  /** The line printed for row `row`: its decimal text with `0` replaced by `.`, in three groups. */
  function RowLine(g: seq<int>, row: int): string
    requires |g| == 81 && 0 <= row < 9
  {
    DecimalRowLength(g, row, 9);
    Grouped(Replace(DecimalRow(g, row, 9), '0', '.'))
  }

  /** The lines the Rust and Go printers write for the first `n` rows, with an empty line after rows 2 and 5. */
  function GroupedLines(g: seq<int>, n: int): seq<string>
    requires |g| == 81 && 0 <= n <= 9
  {
    if n == 0 then []
    else GroupedLines(g, n - 1) + [RowLine(g, n - 1)] + (if n - 1 == 2 || n - 1 == 5 then [""] else [])
  }

  lemma {:induction false} DecimalRowLength(g: seq<int>, row: int, n: int)
    requires |g| == 81 && 0 <= row < 9 && 0 <= n <= 9
    ensures |DecimalRow(g, row, n)| >= n
  {
    if n > 0 {
      DecimalRowLength(g, row, n - 1);
      assert |Decimal(g[9 * row + n - 1])| >= 1;
    }
  }

  /** `sud_print` and `sudPrint` of the Rust and Go ports. */
  method PrintGrouped(g: seq<int>) returns (out: seq<string>)
    requires |g| == 81
    ensures out == GroupedLines(g, 9)
  {
    out := [];
    for row := 0 to 9
      invariant out == GroupedLines(g, row)
    {
      var line := GroupedRow(g, row);
      GroupedLinesNext(g, row);
      out := out + [line];
      if row == 2 || row == 5 {
        out := out + [""];
      }
    }
  }

  lemma GroupedLinesNext(g: seq<int>, n: int)
    requires |g| == 81 && 0 <= n < 9
    ensures GroupedLines(g, n + 1) == GroupedLines(g, n) + [RowLine(g, n)] + (if n == 2 || n == 5 then [""] else [])
  {
  }

  /** One row: the decimal text of its cells, then `0` replaced by `.`, then three groups of three. */
  method GroupedRow(g: seq<int>, row: int) returns (line: string)
    requires |g| == 81 && 0 <= row < 9
    ensures line == RowLine(g, row)
  {
    var rowStr := "";
    for col := 0 to 9
      invariant rowStr == DecimalRow(g, row, col)
    {
      rowStr := rowStr + Decimal(g[9 * row + col]);
    }
    DecimalRowLength(g, row, 9);
    rowStr := Replace(rowStr, '0', '.');
    line := rowStr[0..3] + " " + rowStr[3..6] + " " + rowStr[6..9];
  }
}
