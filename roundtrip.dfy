/**
 * Printing a grid and reading the printed lines back. Every printer lays a
 * row out as three groups of three characters, and every reader removes the
 * spaces again, so a grid whose cells each print as one character reads
 * back as the same grid. The Java Backtracking printer as written breaks
 * this for blank cells.
 */
module RoundTrip {
  import opened Board
  import opened Masks
  import opened Text
  import Backtracking
  import Dynamic

  // ---------------------------------------------------------------------
  // Cells that print as one character
  // ---------------------------------------------------------------------

  /** A character that a printer writes for one cell and every reader accepts: a blank `.` or a digit 1..9. */
  predicate IsGlyph(c: char)
  {
    c == '.' || '1' <= c <= '9'
  }

  /** Every cell of `g` prints as one glyph. */
  predicate OneGlyph<T>(g: seq<T>, text: T -> string)
  {
    |g| == 81 && forall i :: 0 <= i < 81 ==> |text(g[i])| == 1 && IsGlyph(text(g[i])[0])
  }

  /** The glyphs printed for the nine cells of row `row`. */
  function Glyphs<T>(g: seq<T>, text: T -> string, row: int): (u: string)
    requires OneGlyph(g, text) && 0 <= row < 9
    ensures |u| == 9 && forall k :: 0 <= k < 9 ==> IsGlyph(u[k])
  {
    seq(9, k requires 0 <= k < 9 => text(g[9 * row + k])[0])
  }

  /** The value a reader gives a glyph once `.` has become `0`. */
  function Unblank(c: char): char
  {
    if c == '.' then '0' else c
  }

  /** The first `n` glyphs of a row with a space before the fourth and the seventh, as the Java printers write them. */
  function Spaced(u: string, n: int): string
    requires |u| == 9 && 0 <= n <= 9
  {
    if n <= 3 then u[..n]
    else if n <= 6 then u[..3] + " " + u[3..n]
    else u[..3] + " " + u[3..6] + " " + u[6..n]
  }

  /** One more glyph, after a space when it opens the second or third group. */
  lemma SpacedNext(u: string, n: int)
    requires |u| == 9 && 1 <= n <= 9
    ensures Spaced(u, n) == Spaced(u, n - 1) + (if n - 1 == 3 || n - 1 == 6 then " " else "") + [u[n - 1]]
  {
    var c := [u[n - 1]];
    if n <= 3 {
      assert u[..n] == u[..n - 1] + c;
    } else if n == 4 {
      assert u[3..4] == c;
    } else if n <= 6 {
      assert u[3..n] == u[3..n - 1] + c;
      assert Spaced(u, n) == u[..3] + " " + (u[3..n - 1] + c);
    } else if n == 7 {
      assert u[6..7] == c;
    } else {
      assert u[6..n] == u[6..n - 1] + c;
      assert Spaced(u, n) == u[..3] + " " + u[3..6] + " " + (u[6..n - 1] + c);
    }
  }

  /** A whole row, spaced, is the three groups the Rust and Go printers write. */
  lemma SpacedGrouped(u: string)
    requires |u| == 9
    ensures Spaced(u, 9) == Grouped(u)
  {
    assert u[..3] == u[0..3];
  }

  /** A Java printer's row is its glyphs with a space before columns 3 and 6. */
  lemma {:induction false} JavaRowSpaced<T>(g: seq<T>, text: T -> string, row: int, n: int)
    requires OneGlyph(g, text) && 0 <= row < 9 && 0 <= n <= 9
    ensures JavaRow(g, text, row, n) == Spaced(Glyphs(g, text, row), n)
  {
    if n > 0 {
      JavaRowSpaced(g, text, row, n - 1);
      var u := Glyphs(g, text, row);
      assert text(g[9 * row + n - 1]) == [u[n - 1]];
      SpacedNext(u, n);
    }
  }

  // ---------------------------------------------------------------------
  // Reading printed lines
  // ---------------------------------------------------------------------

  /** Removing the spaces of two pieces one after the other. */
  lemma {:induction false} RemoveSpacesAppend(a: string, b: string)
    ensures RemoveSpaces(a + b) == RemoveSpaces(a) + RemoveSpaces(b)
  {
    if a == [] {
      assert a + b == b;
    } else {
      assert (a + b)[1..] == a[1..] + b;
      RemoveSpacesAppend(a[1..], b);
    }
  }

  /** A string without spaces is left alone. */
  lemma {:induction false} RemoveSpacesNone(s: string)
    requires forall k :: 0 <= k < |s| ==> s[k] != ' '
    ensures RemoveSpaces(s) == s
  {
    if s != [] {
      RemoveSpacesNone(s[1..]);
      assert s == [s[0]] + s[1..];
    }
  }

  /** Removing the spaces of three groups separated by spaces joins the groups. */
  lemma RemoveSpacesGroups(a: string, b: string, c: string)
    requires forall k :: 0 <= k < |a| ==> a[k] != ' '
    requires forall k :: 0 <= k < |b| ==> b[k] != ' '
    requires forall k :: 0 <= k < |c| ==> c[k] != ' '
    ensures RemoveSpaces(a + " " + b + " " + c) == a + b + c
  {
    RemoveSpacesNone(a);
    RemoveSpacesNone(b);
    RemoveSpacesNone(c);
    assert RemoveSpaces(" ") == [];
    RemoveSpacesAppend(a, " ");
    assert RemoveSpaces(a + " ") == a;
    RemoveSpacesAppend(a + " ", b);
    assert RemoveSpaces(a + " " + b) == a + b;
    RemoveSpacesAppend(a + " " + b, " ");
    assert RemoveSpaces(a + " " + b + " ") == a + b;
    RemoveSpacesAppend(a + " " + b + " ", c);
  }

  /** A line that starts and ends with a glyph or digit is left alone by every trim. */
  lemma TrimKeeps(line: string)
    requires line != [] && (IsGlyph(line[0]) || '0' <= line[0] <= '9')
    requires IsGlyph(line[|line| - 1]) || '0' <= line[|line| - 1] <= '9'
    ensures Trim(true, line) == line && Trim(false, line) == line
  {
    NotSpace(line[0]);
    NotSpace(line[|line| - 1]);
  }

  lemma NotSpace(c: char)
    requires IsGlyph(c) || '0' <= c <= '9'
    ensures !IsSpace(true, c) && !IsSpace(false, c)
  {
  }

  /** A trimmed line that does not start with a space or `#`, whose spaces removed leave `u`. */
  lemma NormalizeJoined(p: Port, t: string, u: string)
    requires t != [] && t[0] != ' ' && t[0] != '#' && RemoveSpaces(t) == u
    ensures |u| == 9 ==> Normalize(p, t) == Kept(Replace(u, '.', '0'))
    ensures |u| != 9 ==> Normalize(p, t) == Malformed
  {
  }

  /** Every reader keeps a printed row line as its glyphs with `.` turned into `0`. */
  lemma StepGrouped(r: Reader, u: string)
    requires |u| == 9 && forall k :: 0 <= k < 9 ==> IsGlyph(u[k])
    ensures Step(r, Grouped(u)) == Kept(Replace(u, '.', '0'))
  {
    var line := Grouped(u);
    assert line[0] == u[0] && line[|line| - 1] == u[8];
    TrimKeeps(line);
    RemoveSpacesGrouped(u);
    NormalizeJoined(PortOf(r), line, u);
  }

  /** Removing the spaces of a row line gives back the row. */
  lemma RemoveSpacesGrouped(u: string)
    requires |u| == 9 && forall k :: 0 <= k < 9 ==> u[k] != ' '
    ensures RemoveSpaces(Grouped(u)) == u
  {
    var a, b, c := u[0..3], u[3..6], u[6..9];
    assert forall k :: 0 <= k < 3 ==> a[k] == u[k] && b[k] == u[3 + k] && c[k] == u[6 + k];
    RemoveSpacesGroups(a, b, c);
    assert a + b + c == u;
  }

  /** Every reader skips the empty line between groups of rows. */
  lemma StepBlank(r: Reader)
    ensures Step(r, "") == Skip
  {
    var p := PortOf(r);
    assert Trim(p == Java, "") == "";
  }

  /** One more line after lines that were all accepted. */
  lemma KeptRowsSnoc(r: Reader, lines: seq<string>, x: string)
    requires KeptRows(r, lines).Ok?
    ensures Step(r, x).Skip? ==> KeptRows(r, lines + [x]) == KeptRows(r, lines)
    ensures Step(r, x).Kept? && |KeptRows(r, lines).value| < 9 ==>
      KeptRows(r, lines + [x]) == Ok(KeptRows(r, lines).value + [Step(r, x).row])
  {
    assert (lines + [x])[..|lines|] == lines;
  }

  /** The rows a reader keeps from the first `n` printed rows. */
  function PrintedRows<T>(g: seq<T>, text: T -> string, n: int): seq<string>
    requires OneGlyph(g, text) && 0 <= n <= 9
  {
    seq(n, i requires 0 <= i < n => Replace(Glyphs(g, text, i), '.', '0'))
  }

  /** Every reader keeps a Java printer's row line as its glyphs with `.` turned into `0`. */
  lemma RowLineStep<T>(r: Reader, g: seq<T>, text: T -> string, row: int)
    requires OneGlyph(g, text) && 0 <= row < 9
    ensures Step(r, JavaRow(g, text, row, 9)) == Kept(Replace(Glyphs(g, text, row), '.', '0'))
  {
    var u := Glyphs(g, text, row);
    JavaRowSpaced(g, text, row, 9);
    SpacedGrouped(u);
    StepGrouped(r, u);
  }

  lemma JavaLinesNext<T>(g: seq<T>, text: T -> string, n: int)
    requires |g| == 81 && 1 <= n <= 9
    ensures JavaLines(g, text, n) == JavaLines(g, text, n - 1) + (if n - 1 == 3 || n - 1 == 6 then [""] else []) + [JavaRow(g, text, n - 1, 9)]
  {
  }

  /** A row line, after an optional empty line, adds its row to the rows kept so far. */
  lemma KeptNextRow(r: Reader, before: seq<string>, blank: seq<string>, line: string, rows: seq<string>, kept: string)
    requires KeptRows(r, before) == Ok(rows) && |rows| < 9
    requires blank == [] || blank == [""]
    requires Step(r, line) == Kept(kept)
    ensures KeptRows(r, before + blank + [line]) == Ok(rows + [kept])
  {
    if blank == [] {
      assert before + blank == before;
    } else {
      StepBlank(r);
      KeptRowsSnoc(r, before, "");
    }
    KeptRowsSnoc(r, before + blank, line);
  }

  /** Every reader accepts the lines of a Java printer, row by row. */
  lemma {:induction false} KeptJavaLines<T>(r: Reader, g: seq<T>, text: T -> string, n: int)
    requires OneGlyph(g, text) && 0 <= n <= 9
    ensures KeptRows(r, JavaLines(g, text, n)) == Ok(PrintedRows(g, text, n))
  {
    if n > 0 {
      KeptJavaLines(r, g, text, n - 1);
      JavaLinesNext(g, text, n);
      RowLineStep(r, g, text, n - 1);
      var blank: seq<string> := if n - 1 == 3 || n - 1 == 6 then [""] else [];
      KeptNextRow(r, JavaLines(g, text, n - 1), blank, JavaRow(g, text, n - 1, 9),
        PrintedRows(g, text, n - 1), Replace(Glyphs(g, text, n - 1), '.', '0'));
      PrintedRowsNext(g, text, n);
    } else {
      assert PrintedRows(g, text, 0) == [];
    }
  }

  lemma PrintedRowsNext<T>(g: seq<T>, text: T -> string, n: int)
    requires OneGlyph(g, text) && 1 <= n <= 9
    ensures PrintedRows(g, text, n) == PrintedRows(g, text, n - 1) + [Replace(Glyphs(g, text, n - 1), '.', '0')]
  {
    var a, b := PrintedRows(g, text, n), PrintedRows(g, text, n - 1) + [Replace(Glyphs(g, text, n - 1), '.', '0')];
    assert |a| == |b|;
    forall i | 0 <= i < n
      ensures a[i] == b[i]
    {
    }
  }

  /** The character kept for cell (row, col) is the glyph printed for it, with `.` turned into `0`. */
  lemma PrintedCell<T>(g: seq<T>, text: T -> string, row: int, col: int)
    requires OneGlyph(g, text) && 0 <= row < 9 && 0 <= col < 9
    ensures PrintedRows(g, text, 9)[row][col] == Unblank(text(g[9 * row + col])[0])
  {
    var u := Glyphs(g, text, row);
    assert PrintedRows(g, text, 9)[row] == Replace(u, '.', '0');
  }

  /** The grid built from the printed rows holds the glyph of every cell, with `.` turned into `0`. */
  lemma PrintedGrid<T>(r: Reader, g: seq<T>, text: T -> string)
    requires OneGlyph(g, text)
    ensures forall i :: 0 <= i < 81 ==> Grid(r, PrintedRows(g, text, 9))[i] == Cell(r, Unblank(text(g[i])[0]))
  {
    var rows := PrintedRows(g, text, 9);
    forall i | 0 <= i < 81
      ensures Grid(r, rows)[i] == Cell(r, Unblank(text(g[i])[0]))
    {
      IndexOf(i);
      var row, col := Row(i), Col(i);
      GridAt(r, rows, row, col);
      PrintedCell(g, text, row, col);
    }
  }

  /** Every reader reads a Java printer's page as the glyphs of its cells. */
  lemma ReadJavaLines<T>(r: Reader, g: seq<T>, text: T -> string)
    requires OneGlyph(g, text)
    ensures Read(r, JavaLines(g, text, 9)).Ok? && |Read(r, JavaLines(g, text, 9)).value| == 81
    ensures forall i :: 0 <= i < 81 ==> Read(r, JavaLines(g, text, 9)).value[i] == Cell(r, Unblank(text(g[i])[0]))
  {
    KeptJavaLines(r, g, text, 9);
    PrintedGrid(r, g, text);
  }

  // ---------------------------------------------------------------------
  // Round trips
  // ---------------------------------------------------------------------

  /** A cell value 0..9 prints as one glyph that reads back as the value. */
  lemma JavaCellGlyph(v: int)
    requires 0 <= v <= 9
    ensures |JavaCell(v)| == 1 && IsGlyph(JavaCell(v)[0])
    ensures JavaCell(v)[0] == if v == 0 then '.' else (48 + v) as char
    ensures Digit(Unblank(JavaCell(v)[0])) == v
  {
    DigitValue(Unblank(JavaCell(v)[0]));
  }

  lemma DigitsOneGlyph(g: seq<int>)
    requires |g| == 81 && Backtracking.InDigits(g)
    ensures OneGlyph(g, JavaCell)
  {
    forall i | 0 <= i < 81
      ensures |JavaCell(g[i])| == 1 && IsGlyph(JavaCell(g[i])[0])
    {
      JavaCellGlyph(g[i]);
    }
  }

  /** A Backtracking grid of digits and blanks, printed as `sudPrint` intends, reads back as itself in every port. */
  lemma JavaRoundTrip(p: Port, g: seq<int>)
    requires |g| == 81 && Backtracking.InDigits(g)
    ensures Read(Backtracking(p), JavaLines(g, JavaCell, 9)) == Ok(g)
  {
    DigitsOneGlyph(g);
    ReadJavaLines(Backtracking(p), g, JavaCell);
    var back := Read(Backtracking(p), JavaLines(g, JavaCell, 9)).value;
    forall i | 0 <= i < 81
      ensures back[i] == g[i]
    {
      JavaCellGlyph(g[i]);
    }
    assert back == g;
  }

  /** A cell value 0..9 is written as one decimal digit. */
  lemma DecimalDigit(v: int)
    requires 0 <= v <= 9
    ensures Decimal(v) == [(48 + v) as char]
  {
  }

  /** The decimal text of a row of digits is one character per cell. */
  lemma {:induction false} DecimalRowDigits(g: seq<int>, row: int, n: int)
    requires |g| == 81 && Backtracking.InDigits(g) && 0 <= row < 9 && 0 <= n <= 9
    ensures |DecimalRow(g, row, n)| == n
    ensures forall k :: 0 <= k < n ==> DecimalRow(g, row, n)[k] == (48 + g[9 * row + k]) as char
  {
    if n > 0 {
      DecimalRowDigits(g, row, n - 1);
      var v := g[9 * row + n - 1];
      DecimalDigit(v);
      assert DecimalRow(g, row, n) == DecimalRow(g, row, n - 1) + [(48 + v) as char];
    }
  }

  /** On a grid of digits and blanks the Rust and Go printers write a row exactly as the intended Java printer. */
  lemma RowLineAsJava(g: seq<int>, row: int)
    requires |g| == 81 && Backtracking.InDigits(g) && 0 <= row < 9
    ensures RowLine(g, row) == JavaRow(g, JavaCell, row, 9)
  {
    DigitsOneGlyph(g);
    DecimalRowDigits(g, row, 9);
    var d := DecimalRow(g, row, 9);
    var u := Glyphs(g, JavaCell, row);
    forall k | 0 <= k < 9
      ensures Replace(d, '0', '.')[k] == u[k]
    {
      JavaCellGlyph(g[9 * row + k]);
    }
    assert Replace(d, '0', '.') == u;
    SpacedGrouped(u);
    JavaRowSpaced(g, JavaCell, row, 9);
  }

  /**
   * The Rust and Go printers put the empty lines after rows 2 and 5, the Java
   * printers before rows 3 and 6; on a whole page they write the same lines.
   */
  lemma {:induction false} GroupedAsJava(g: seq<int>, n: int)
    requires |g| == 81 && Backtracking.InDigits(g) && 0 <= n <= 9
    ensures GroupedLines(g, n) == JavaLines(g, JavaCell, n) + (if n == 3 || n == 6 then [""] else [])
  {
    if n > 0 {
      GroupedAsJava(g, n - 1);
      RowLineAsJava(g, n - 1);
    }
  }

  /** A grid of digits and blanks printed by the Rust or Go port reads back as itself. */
  lemma GroupedRoundTrip(p: Port, g: seq<int>)
    requires |g| == 81 && Backtracking.InDigits(g)
    ensures Read(Backtracking(p), GroupedLines(g, 9)) == Ok(g)
  {
    GroupedAsJava(g, 9);
    var lines := JavaLines(g, JavaCell, 9);
    assert lines + [] == lines;
    assert GroupedLines(g, 9) == lines;
    JavaRoundTrip(p, g);
  }

  /** A determined mask prints as its digit, and the digit reads back as the mask. */
  lemma MaskCellGlyph(m: Mask)
    requires IsSingle(m)
    ensures |MaskCell(m)| == 1 && IsGlyph(MaskCell(m)[0])
    ensures MaskValue(Unblank(MaskCell(m)[0])) == m as int
  {
    MaskCellText(m);
    SingleIsBit(m);
    MaskValueDigit(MaskCell(m)[0]);
  }

  /** A Dynamic grid whose every cell is determined, printed by `sudPrint`, reads back as the same masks. */
  lemma MaskRoundTrip(s: seq<Mask>)
    requires |s| == 81 && Dynamic.AllSingle(s)
    ensures Read(Dynamic, JavaLines(s, MaskCell, 9)) == Ok(seq(81, i requires 0 <= i < 81 => s[i] as int))
  {
    forall i | 0 <= i < 81
      ensures |MaskCell(s[i])| == 1 && IsGlyph(MaskCell(s[i])[0])
    {
      MaskCellGlyph(s[i]);
    }
    ReadJavaLines(Dynamic, s, MaskCell);
    var back := Read(Dynamic, JavaLines(s, MaskCell, 9)).value;
    var masks := seq(81, i requires 0 <= i < 81 => s[i] as int);
    forall i | 0 <= i < 81
      ensures back[i] == masks[i]
    {
      MaskCellGlyph(s[i]);
    }
    assert back == masks;
  }

  // ---------------------------------------------------------------------
  // The Java Backtracking printer as written
  // ---------------------------------------------------------------------

  /** Printers whose cell texts agree on the cells of `g` print the same row. */
  lemma {:induction false} SameTextRow<T>(g: seq<T>, t1: T -> string, t2: T -> string, row: int, n: int)
    requires |g| == 81 && 0 <= row < 9 && 0 <= n <= 9
    requires forall i :: 0 <= i < 81 ==> t1(g[i]) == t2(g[i])
    ensures JavaRow(g, t1, row, n) == JavaRow(g, t2, row, n)
  {
    if n > 0 {
      SameTextRow(g, t1, t2, row, n - 1);
    }
  }

  /** Printers whose cell texts agree on the cells of `g` print the same page. */
  lemma {:induction false} SameTextLines<T>(g: seq<T>, t1: T -> string, t2: T -> string, n: int)
    requires |g| == 81 && 0 <= n <= 9
    requires forall i :: 0 <= i < 81 ==> t1(g[i]) == t2(g[i])
    ensures JavaLines(g, t1, n) == JavaLines(g, t2, n)
  {
    if n > 0 {
      SameTextLines(g, t1, t2, n - 1);
      SameTextRow(g, t1, t2, n - 1, 9);
    }
  }

  /** On a grid without blanks, such as a solution, the printer as written is the intended one. */
  lemma AsWrittenWithoutBlanks(g: seq<int>)
    requires |g| == 81 && Backtracking.Solved(g)
    ensures JavaLines(g, JavaCellAsWritten, 9) == JavaLines(g, JavaCell, 9)
  {
    SameTextLines(g, JavaCellAsWritten, JavaCell, 9);
  }

  /** The first line of a Java printer's page is its first row. */
  lemma {:induction false} FirstLine<T>(g: seq<T>, text: T -> string, n: int)
    requires |g| == 81 && 1 <= n <= 9
    ensures |JavaLines(g, text, n)| >= 1 && JavaLines(g, text, n)[0] == JavaRow(g, text, 0, 9)
  {
    if n > 1 {
      FirstLine(g, text, n - 1);
    }
  }

  /** A blank cell, printed as written, is the decimal code of `.`. */
  lemma BlankAsWritten()
    ensures JavaCellAsWritten(0) == "46"
  {
    assert '.' as int == 46;
    assert DecimalDigits(4) == "4";
    assert DecimalDigits(46) == DecimalDigits(4) + ['6'];
  }

  /** The empty grid's first row as the printer as written lays it out: every blank is "46". */
  lemma BlankRowAsWritten()
    ensures JavaRow(Zeros(81), JavaCellAsWritten, 0, 9) == "464646" + " " + "464646" + " " + "464646"
  {
    var z := Zeros(81);
    BlankAsWritten();
    assert JavaRow(z, JavaCellAsWritten, 0, 3) == "464646";
    assert JavaRow(z, JavaCellAsWritten, 0, 6) == "464646" + " " + "464646";
  }

  /** A line of three groups of digits that are not nine digits in all is rejected by every reader. */
  lemma StepWideLine(r: Reader, a: string, b: string, c: string)
    requires DigitLine(a) && DigitLine(b) && DigitLine(c) && a != [] && c != []
    requires |a| + |b| + |c| != 9
    ensures Step(r, a + " " + b + " " + c) == Malformed
  {
    var line := a + " " + b + " " + c;
    assert line[0] == a[0] && line[|line| - 1] == c[|c| - 1];
    TrimKeeps(line);
    RemoveSpacesGroups(a, b, c);
    NormalizeJoined(PortOf(r), line, a + b + c);
  }

  /** Three blanks as written are six digits. */
  lemma CodesAreDigits()
    ensures DigitLine("464646") && |"464646"| == 6
  {
    var w := "464646";
    forall k | 0 <= k < 6
      ensures '0' <= w[k] <= '9'
    {
      assert w[k] == '4' || w[k] == '6';
    }
  }

  /** A file whose first line is rejected is unreadable, whatever follows. */
  lemma FirstLineRejected(r: Reader, lines: seq<string>)
    requires |lines| >= 1 && Step(r, lines[0]).Malformed?
    ensures Read(r, lines) == Err(BadLength(1))
  {
    assert lines[..1] == [lines[0]];
    assert lines[..1][..0] == [];
    ErrorSticks(r, lines, 1);
  }

  /**
   * The empty puzzle printed by the Java Backtracking solver as written
   * cannot be read back by any port: its first line holds eighteen digits.
   */
  lemma AsWrittenUnreadable(p: Port)
    ensures Read(Backtracking(p), JavaLines(Zeros(81), JavaCellAsWritten, 9)) == Err(BadLength(1))
  {
    var lines := JavaLines(Zeros(81), JavaCellAsWritten, 9);
    FirstLine(Zeros(81), JavaCellAsWritten, 9);
    BlankRowAsWritten();
    CodesAreDigits();
    StepWideLine(Backtracking(p), "464646", "464646", "464646");
    FirstLineRejected(Backtracking(p), lines);
  }

  // ---------------------------------------------------------------------
  // What the readers hand to the solvers
  // ---------------------------------------------------------------------

  /**
   * A file of digits, dots and spaces gives the Backtracking solver a grid of
   * blanks and digits, and the Dynamic solver 81 values that are nine-bit
   * masks unchanged by the conversion to `Mask`.
   */
  lemma PlainSolverInput(p: Port, lines: seq<string>)
    requires forall i :: 0 <= i < |lines| ==> PlainLine(lines[i])
    ensures Read(Backtracking(p), lines).Ok? ==>
      var g := Read(Backtracking(p), lines).value;
      |g| == 81 && Backtracking.InDigits(g)
    ensures Read(Dynamic, lines).Ok? ==>
      var g := Read(Dynamic, lines).value;
      |g| == 81 && forall k :: 0 <= k < 81 ==> 0 <= g[k] < 512 && (g[k] as Mask) as int == g[k]
  {
    if Read(Backtracking(p), lines).Ok? {
      ReadPlain(Backtracking(p), lines);
    }
    if Read(Dynamic, lines).Ok? {
      var g := Read(Dynamic, lines).value;
      ReadPlain(Dynamic, lines);
      forall k | 0 <= k < 81 ensures 0 <= g[k] < 512 && (g[k] as Mask) as int == g[k] {
        Masks.OfValue(g[k]);
      }
    }
  }
}
