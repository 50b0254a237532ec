# Sudoku solvers: a verified model

This project models the two sudoku engines of the repository, together with
the text handling they share, and proves what they compute.

- **The constraint-propagation solver** (`lang/java/Dynamic.java`). A grid is
  81 nine-bit candidate masks; digit d is bit d-1 and 511 allows every digit.
  - `Dynamic.Constrain` is `sudConstrain`: a worklist of determined cells
    whose digits are removed from their 20 peers (the other cells of the same
    row, column and 3x3 box), appending every peer that becomes determined.
  - `Dynamic.Solve` is `sudSolve`: propagate, pick the most constrained open
    cell, and try its candidates lowest first, each on a copy of the grid.
  - Both methods work in place on arrays. They are proved equal to
    specification functions (`Constrained`, `Propagate`, `ClearFrom`,
    `ClearCell`), and soundness is proved about those functions.
- **The cursor-backtracking solver**, ported to Java, Rust and Go with the
  same logic (`Backtracking`).
  - It has four validators, the row-major `Step` and the search loop of `sudSolve`.
  - The grid is one array of 81 cells in row-major order.
  - The loop carries the invariant that the grid with the cursor cell cleared
    is valid and that every solution keeping the clues is still ahead of the
    search. A base-11 odometer reading of the grid rises on every turn, which
    gives termination.
- **Text** (`Text`, `RoundTrip`): the readers and printers of all four
  programs, on sequences of lines.
  - Every reader trims a line, removes spaces, skips blank and `#` lines,
    checks for 9 characters and turns `.` into `0`.
  - The Java readers and the Rust/Go readers do these steps in different
    orders, with different notions of white space.
  - `RoundTrip` proves that a printed grid reads back as itself.

The board relation (`Board`) and the masks with their bit counting (`Masks`)
are shared modules. `Integer.bitCount` and `numberOfTrailingZeros` are defined
on nine-bit masks rather than taken from a library.

A file with fewer than nine kept rows is not an error in any reader. The
missing rows stay as the zero-initialised array left them: blanks in
Backtracking, and mask 0 ("no candidate") in Dynamic. The model follows the
code here. A tenth kept row is an error: the write goes past the end of the
grid, which Java reports as an exception and Rust and Go as a panic.

## Model

| member | source | states |
|---|---|---|
| Masks.BitShift | lang/java/Dynamic.java:168 | the single bit of digit d is `1 << (d - 1)` |
| Masks.SingleIsBit | lang/java/Dynamic.java:132-134 | a mask has one candidate exactly when it is the bit of its lowest digit, which is `numberOfTrailingZeros + 1` |
| Masks.ClearBit | lang/java/Dynamic.java:92-97 | clearing a digit removes exactly that candidate, and lowers the count by one exactly when it was present |
| Masks.SubMaskStrict | lang/java/Dynamic.java:93-97 | a write that changes a mask by removing candidates lowers its bit count |
| Masks.ShrStep | lang/java/Dynamic.java:213-214 | after `val - 1` shifts, bit 0 of the shifted mask says whether `val` is a candidate |
| Masks.ShrZero | lang/java/Dynamic.java:213 | once the shifted mask is 0 no higher digit is a candidate, and nine shifts always reach 0 |
| Text.Int8 | lang/java/Backtracking.java:138 | the byte cast lands in -128..127 and agrees with its argument modulo 256 |
| Text.Int16 | lang/java/Dynamic.java:168 | the short cast lands in -32768..32767 and agrees with its argument modulo 65536 |
| Text.DigitValue | lang/java/Backtracking.java:138 | a digit character is stored as its digit, and every stored value fits a byte |
| Text.RustDigit | lang/rust/src/main.rs:137 | Rust's `c as i8 - '0' as i8` gives the same value as the Java and Go conversion |
| Text.MaskValueDigit | lang/java/Dynamic.java:168 | `0` is read as the unconstrained mask 511, and digit d as the single bit of d |
| Text.Trim | lang/java/Backtracking.java:124 | the trimmed line is the line without white space at either end, where each port has its own notion of white space |
| Text.RemoveSpaces | lang/java/Backtracking.java:130 | the result holds no space, only characters of the line, and keeps a first character that is not a space |
| Text.Normalize | lang/java/Backtracking.java:125-135 | a kept line is exactly 9 characters, none of them a space or a `.` |
| Text.NormalizeOrder | lang/rust/src/main.rs:125-135 | on a trimmed line, the Java order (skip test, then space removal) and the Rust/Go order (space removal, then skip test) give the same verdict and row |
| Text.StepsAgree | lang/go/main.go:129-138 | where the Java trim and the Unicode trim remove the same characters, every reader handles the line the same way |
| Text.AsciiSameSpaces | lang/rust/src/main.rs:125 | on printable ASCII and control white space, the two trims agree |
| Text.KeptRows | lang/java/Backtracking.java:121-141 | without an error, at most 9 rows are kept and each has 9 characters |
| Text.GridAt | lang/java/Backtracking.java:137-140 | cell (i, j) of the grid comes from character j of kept row i, and the cells of missing rows are 0 |
| Text.ReadLines | lang/java/Backtracking.java:118-145 | the line loop returns exactly `Read`: the grid, or the error at the line number of the first bad line |
| Text.FillRow | lang/java/Dynamic.java:166-170 | filling a kept row cell by cell writes exactly the next row of the grid |
| Text.NextLine | lang/go/main.go:126-143 | one more line is skipped, ends the read with `BadLength` at its number, is a tenth row and ends it with `TooManyRows`, or adds its row |
| Text.ErrorLine | lang/java/Backtracking.java:132-136 | an error names a line of the file, and that line is malformed (`BadLength`) or a well-formed line with no row left (`TooManyRows`) |
| Text.ErrorSticks | lang/java/Dynamic.java:163-164 | once a prefix of the file is unreadable, the whole file is, whatever follows |
| Text.JavaReadersAgree | lang/java/Dynamic.java:154-170 | the Dynamic reader keeps and rejects exactly the lines the Backtracking Java reader does |
| Text.PortsAgree | lang/rust/src/main.rs:122-140 | where both trims agree on every line, the Java, Rust and Go readers keep the same rows or fail at the same line |
| Text.ReadPlain | lang/java/Dynamic.java:165-168 | a file of digits, dots and spaces reads as cells 0..9 in Backtracking and as values 0..511 in Dynamic |
| Text.AsciiLengths | lang/java/Backtracking.java:132 | on ASCII text, Java's UTF-16 length and Rust's and Go's UTF-8 length are the number of characters |
| Text.AsciiRemoveSpaces | lang/rust/src/main.rs:129 | an ASCII line after space removal has the same length in every port |
| Text.AccentLength | lang/go/main.go:133 | "1234567é" is 8 characters and 8 UTF-16 units but 9 UTF-8 bytes |
| Text.EmojiLength | lang/java/Dynamic.java:163 | eight digits and an emoji are 9 characters but 10 UTF-16 units and 12 UTF-8 bytes |
| Text.DecimalRoundTrip | lang/rust/src/main.rs:97 | the decimal text of a number reads back as that number |
| Text.MaskCellText | lang/java/Dynamic.java:127-137 | a mask prints as `X` exactly when it is 0 and as `?` exactly when it has two or more candidates; a determined mask prints as its digit |
| Text.PrintJava | lang/java/Backtracking.java:96-111 | the Java printers' lines: a space before columns 3 and 6 and an empty line before rows 3 and 6, with the cell text as a parameter |
| Text.PrintGrouped | lang/rust/src/main.rs:93-110 | the Rust/Go printers' lines: each row in three groups of three, with an empty line after rows 2 and 5 |
| Text.GroupedRow | lang/go/main.go:100-108 | one printed row: the decimal text of its cells, with `0` turned into `.`, in three groups |
| Dynamic.PeerIndexes | lang/java/Dynamic.java:60-88 | a fresh array of 20 entries, equal to `PeerList`: column, then row, then block, in the solver's order |
| Dynamic.AddColumnPeers | lang/java/Dynamic.java:68-73 | entries 0..5 are the column cells outside the block, top to bottom, and nothing else changes |
| Dynamic.AddRowPeers | lang/java/Dynamic.java:75-80 | entries 6..11 are the row cells outside the block, left to right, and nothing else changes |
| Dynamic.AddBlockPeers | lang/java/Dynamic.java:82-88 | entries 12..19 are the other eight cells of the block, row by row, and nothing else changes |
| Dynamic.AddBlockRowPeers | lang/java/Dynamic.java:83-87 | one block row adds its cells other than `index` at the next entries |
| Dynamic.PeerListPeers | lang/java/Dynamic.java:60-88 | every entry is a peer: in 0..80, not `index`, in the same row, column or box |
| Dynamic.PeerListDistinct | lang/java/Dynamic.java:60-88 | the 20 entries are pairwise distinct |
| Dynamic.PeerListComplete | lang/java/Dynamic.java:60-88 | every peer of `index` is in the list |
| Dynamic.Constrain | lang/java/Dynamic.java:34-112 | the in-place propagation never overflows its 81-entry worklist, leaves the grid `Constrained` computes (writes made before a failure stay) and succeeds exactly when that is `Done` |
| Dynamic.SeedList | lang/java/Dynamic.java:39-50 | the worklist starts with `lastIndex`, or with every determined cell in index order |
| Dynamic.ClearPeers | lang/java/Dynamic.java:55-109 | one pass of the worklist loop leaves the grid and the worklist `Propagate` computes |
| Dynamic.ClearPeerList | lang/java/Dynamic.java:90-109 | the loop over the 20 peers leaves the grid and the worklist `ClearFrom` computes |
| Dynamic.ClearPeer | lang/java/Dynamic.java:91-107 | one peer: written when it changes, fails when left with no candidate, appended when left with one |
| Dynamic.Narrow | lang/java/Dynamic.java:91-94 | the peer keeps only the candidates in `invMask`, and reports whether that changed it |
| Dynamic.Append | lang/java/Dynamic.java:106 | the worklist grows by exactly the new entry |
| Dynamic.ClearCellGrid | lang/java/Dynamic.java:91-100 | each write is `invMask & old`; a failure is a cell that had a candidate and has none now |
| Dynamic.PropagateFrame | lang/java/Dynamic.java:90-100 | a propagation step changes only the peers: the processed cell and every non-peer keep their masks, and a failing cell is a peer |
| Dynamic.ClearFromStuck | lang/java/Dynamic.java:97-100 | the loop stops at the first peer left with no candidate |
| Dynamic.ClearFromKeeps | lang/java/Dynamic.java:90-109 | only the peers still to be processed change |
| Dynamic.TotalPopUpdate | lang/java/Dynamic.java:95-97 | a write changes the total candidate count by exactly the change of that cell's count |
| Dynamic.DistinctBound | lang/java/Dynamic.java:103-105 | a list of distinct cell indexes has at most 81 entries |
| Dynamic.WriteKeepsWorklist | lang/java/Dynamic.java:102-107 | a cell that loses candidates was not yet listed; it is appended once determined, and the list still fits in 81 |
| Dynamic.ClearPeerAllows | lang/java/Dynamic.java:90-94 | removing a determined cell's digit from a peer keeps every solution the grid allowed |
| Dynamic.PropagateSound | lang/java/Dynamic.java:54-110 | a worklist step never overflows; it fails only when no solution was possible, and otherwise settles the processed cell, keeps the worklist invariant, only removes candidates and keeps every solution |
| Dynamic.SingletonsSound | lang/java/Dynamic.java:45-49 | the seed lists only determined cells |
| Dynamic.SingletonsSorted | lang/java/Dynamic.java:45-49 | the seed is in increasing index order |
| Dynamic.SingletonsComplete | lang/java/Dynamic.java:45-49 | every determined cell is in the seed |
| Dynamic.SeedWorklist | lang/java/Dynamic.java:39-50 | the seeded worklist satisfies the worklist invariant |
| Dynamic.ConstrainSound | lang/java/Dynamic.java:54-111 | the loop never overflows; on success every determined cell is settled (a fixed point), every processed cell is settled, masks only lost bits, determined cells kept their digit, the total count did not grow and every solution is kept; on failure no solution was possible |
| Dynamic.ConstrainedSound | lang/java/Dynamic.java:34-112 | `sudConstrain` as a whole: no overflow, failure only without solutions, success at a narrowing fixed point that keeps every solution |
| Dynamic.ConstrainedFits | lang/java/Dynamic.java:102-107 | the worklist never exceeds 81 entries ("at most 81 ones ever") |
| Dynamic.FixedPointIsSolution | lang/java/Dynamic.java:206-209 | a fully determined grid is a fixed point exactly when its digits are a conflict-free solution |
| Dynamic.SelectCell | lang/java/Dynamic.java:185-204 | -1 exactly when every cell is determined; otherwise the first cell with two candidates, or failing that the first cell with the fewest candidates other than one |
| Dynamic.ChosenUnique | lang/java/Dynamic.java:185-210 | the choice is a function of the grid |
| Dynamic.CandidateBit | lang/java/Dynamic.java:213-214 | while the shifted mask is not 0, `val` is at most 9 and bit 0 says whether `val` is a candidate |
| Dynamic.Branch | lang/java/Dynamic.java:216-218 | the copy with `bestIndex` fixed to `1 << (val - 1)` meets the recursive call's precondition, has strictly fewer candidates in total, and keeps every solution with `val` there |
| Dynamic.NextCandidate | lang/java/Dynamic.java:213-222 | after candidate `val` is ruled out, every allowed solution has a larger digit at `bestIndex` |
| Dynamic.Exhausted | lang/java/Dynamic.java:213-224 | once every candidate failed, the grid allows no solution |
| Dynamic.CopyGrid | lang/java/Dynamic.java:216 | a fresh array with the same cells |
| Dynamic.Solve | lang/java/Dynamic.java:179-225 | leaves the grid as propagation left it; on success the solution is fully determined, a fixed point, conflict-free and allowed by the input; on failure the input allowed no solution |
| Dynamic.TryCandidates | lang/java/Dynamic.java:212-224 | the first successful candidate in increasing order: no allowed solution has a smaller digit at `bestIndex`; on failure no solution is allowed |
| Dynamic.TryCandidate | lang/java/Dynamic.java:216-220 | on success the solution has `val` at `bestIndex`; on failure no allowed solution has `val` there |
| Backtracking.GetFixed | lang/java/Backtracking.java:17-25 | cell i is fixed exactly when it is greater than 0; the Rust and Go ports do the same at lang/rust/src/main.rs:15-23 and lang/go/main.go:20-28 |
| Backtracking.IsSolved | lang/java/Backtracking.java:28-37 | true exactly when no cell is 0; the Rust and Go ports do the same at lang/rust/src/main.rs:26-35 and lang/go/main.go:31-40 |
| Backtracking.IsValid | lang/java/Backtracking.java:40-50 | true exactly when every cell greater than 0 passes the cell check; the Rust and Go ports do the same at lang/rust/src/main.rs:38-47 and lang/go/main.go:43-52 |
| Backtracking.CellIsValid | lang/java/Backtracking.java:53-93 | true exactly when no peer (another cell of the row, column or box) holds the cell's value; the Rust and Go ports do the same at lang/rust/src/main.rs:50-90 and lang/go/main.go:55-95 |
| Backtracking.CellValidUnits | lang/java/Backtracking.java:58-89 | the three loops (row, column, box) together decide exactly the peer condition |
| Backtracking.BoxClear | lang/java/Backtracking.java:78-89 | true exactly when no other cell of the box holds `val` |
| Backtracking.ValidSolvedIsSolution | lang/java/Backtracking.java:199-205 | a grid of blanks and digits is valid and solved exactly when it is a complete solution |
| Backtracking.Step | lang/java/Backtracking.java:242-260 | the nearest non-fixed cell strictly after (`inc == 1`) or before (`inc == -1`) in row-major order, or (9, 9) when there is none; the Rust and Go ports do the same at lang/rust/src/main.rs:231-251 and lang/go/main.go:234-252 |
| Backtracking.CastRoundTrip | lang/rust/src/main.rs:153 | `-1_isize as usize` cast back to `isize` is -1, the column the other ports start from |
| Backtracking.Copy | lang/java/Backtracking.java:262-268 | a fresh array with the same cells, so the caller's grid is never written |
| Backtracking.CursorStart | lang/java/Backtracking.java:155-169 | the first non-fixed cell of a valid input starts the search in the loop state |
| Backtracking.CursorBack | lang/java/Backtracking.java:173-181 | past 9 the cell is cleared and the cursor moves back; stepping back past the first cell means no solution keeps the clues |
| Backtracking.CursorRetry | lang/java/Backtracking.java:183-184 | a value that fails the cell check keeps the loop state, and no solution has it there |
| Backtracking.CursorForward | lang/java/Backtracking.java:184-195 | a value that passes moves the cursor forward; past the last cell the grid is valid, solved and keeps the clues |
| Backtracking.UnitsIncrease | lang/java/Backtracking.java:170-196 | every turn of the loop raises the odometer reading, so the loop terminates |
| Backtracking.Turn | lang/java/Backtracking.java:171-195 | one turn keeps the search state and raises the odometer reading |
| Backtracking.Solve | lang/java/Backtracking.java:149-218 | an invalid input is reported as found but not valid, with its own grid; a valid input gives a complete solution keeping every clue, or "not found" exactly when no solution keeps the clues; the caller's grid is never written; the Rust and Go ports do the same at lang/rust/src/main.rs:145-207 and lang/go/main.go:148-210 |
| RoundTrip.ReadJavaLines | lang/java/Backtracking.java:121-140 | every reader reads a Java printer's page as the glyph printed for each cell |
| RoundTrip.JavaRoundTrip | lang/java/Backtracking.java:96-111 | a grid of blanks and digits printed as intended (a blank as `.`) reads back as itself in every port |
| RoundTrip.GroupedAsJava | lang/go/main.go:98-113 | on a grid of blanks and digits, the Rust/Go page is the Java page (empty lines after rows 2 and 5 are the ones before rows 3 and 6) |
| RoundTrip.GroupedRoundTrip | lang/rust/src/main.rs:93-142 | a grid printed by the Rust or Go printer reads back as itself |
| RoundTrip.MaskRoundTrip | lang/java/Dynamic.java:120-176 | a fully determined mask grid printed by `sudPrint` reads back as the same masks |
| RoundTrip.BlankAsWritten | lang/java/Backtracking.java:103-104 | a blank printed as written is the text "46" |
| RoundTrip.AsWrittenWithoutBlanks | lang/java/Backtracking.java:103-104 | on a grid without blanks, such as a solution, the printer as written prints the intended page |
| RoundTrip.AsWrittenUnreadable | lang/java/Backtracking.java:103-104 | the empty puzzle printed as written is rejected at line 1 by every reader |
| RoundTrip.PlainSolverInput | lang/java/Backtracking.java:138 | a file of digits, dots and spaces gives the Backtracking solver cells 0..9, and the Dynamic solver values that are nine-bit masks |

## Left out

- Files, standard output and error, exit codes, `main`, `usage` and the batch drivers (`sudSolves`, `sud_solves`) are not modelled. A file is a sequence of lines, and a printer returns its lines.
- Error messages, and the exception wrapping and panics of the readers, are not modelled. A read error is `BadLength` or `TooManyRows` with its line number.
- The static `RECENT_INDEXES` buffer is an array of 81 that `Constrain` allocates. Its counters start at 0 on every call in the source too.
- The Backtracking grids (`byte[9][9]`, `[[i8; 9]; 9]`, `[9][9]int8`) are one array of 81 cells in row-major order, and their bytes are unbounded integers.
- lang/cpp/src/main.cpp is not part of this model.
- Backtracking.Solve: grids holding values outside 0..9 are not modelled. The readers store such values for other characters of a 9-character line (`A` gives 17, `-` gives -3). `PlainSolverInput` shows that a file of digits, dots and spaces gives a grid the model covers.
- Dynamic.Solve: only nine-bit masks are modelled. The reader's 16-bit values for characters other than digits and `.` are not (`:` gives 512, `@` gives -32768). `PlainSolverInput` shows that a file of digits, dots and spaces gives values 0..511, which convert to masks unchanged. The same holds for `Dynamic.Constrain`.
- Dynamic.Constrain: when `lastIndex` is given, the caller must guarantee `OnlyChanged`: that cell is determined and every other determined cell is settled. `sudSolve`'s recursive call guarantees this (`Branch`), and the top-level call passes no index. The no-overflow proof needs it.
- Dynamic.Solve: the model returns the solution instead of printing it. It does not say which solution is found, beyond the lowest-digit choice at each branch cell (`TryCandidates`).
- Text.Step: the length test counts characters (Unicode code points), and a kept row is filled one character per cell.
  - Java counts UTF-16 units.
  - Rust and Go count UTF-8 bytes, and Go fills cells by byte offset.
  - `AsciiLengths` and `AsciiRemoveSpaces` show that all counts agree on ASCII lines. `AccentLength` and `EmojiLength` show lines where they do not.
  - `StepsAgree` and `PortsAgree` therefore state agreement between the model's readers. For the programs, that agreement holds on ASCII lines.
- Text.ReadLines: counts characters as `Text.Step` does, so the same difference from the programs applies to lines outside ASCII.
- Text.RustDigit: uses the wrapping `i8` subtraction of a release build. A debug build panics where the subtraction overflows, for example on `©`. No ASCII character overflows.

## Findings

| source | as written | input that shows it | evidently intended | confidence | as-written member | corrected member |
|---|---|---|---|---|---|---|
| lang/java/Backtracking.java:103-104 | the conditional appended for a cell mixes the `char` `.` with the `byte` value, so it has type `int`: a blank appends the code of `.`, the text "46" | the empty puzzle: its first printed line is "464646 464646 464646", eighteen digits, and every reader rejects it at line 1 | a blank prints as `.`, so a printed grid reads back as itself | not executed | RoundTrip.AsWrittenUnreadable | RoundTrip.JavaRoundTrip |
