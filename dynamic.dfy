/**
 * The constraint-propagation solver (lang/java/Dynamic.java): a grid is an
 * array of 81 nine-bit candidate masks; `Constrain` removes the digit of
 * every determined cell from its 20 peers through a worklist, and `Solve`
 * propagates, picks the most constrained open cell and tries its candidates
 * lowest first on copies of the grid.
 */
module Dynamic {
  import opened Board
  import opened Masks

  datatype Option<T> = None | Some(value: T)

  // ---------------------------------------------------------------------------
  // The peer list built for one cell.

  /** The k-th of the six rows (or columns) 0..8 outside the block starting at `b`. */
  function OutsideBlock(b: int, k: int): int
  {
    if k < b then k else k + 3
  }

  /** The k-th of the eight cells of the block at (br, bc), skipping block position `skip`. */
  function BlockCell(br: int, bc: int, skip: int, k: int): int
  {
    var t := if k < skip then k else k + 1;
    9 * (br + t / 3) + bc + t % 3
  }

  /** Upper-left row and column of the block holding `index`. */
  function BlockRow(index: int): int { 3 * (Row(index) / 3) }
  function BlockCol(index: int): int { 3 * (Col(index) / 3) }

  /** Position of `index` inside its block, 0..8 row by row. */
  function BlockPos(index: int): int { 3 * (Row(index) - BlockRow(index)) + (Col(index) - BlockCol(index)) }

  /**
   * Entry k of the peer list in the order the solver builds it: the column
   * outside the block top to bottom (k < 6), the row outside the block left
   * to right (k < 12), then the other eight cells of the block row by row.
   */
  function PeerAt(index: int, k: int): int
  {
    if k < 6 then 9 * OutsideBlock(BlockRow(index), k) + Col(index)
    else if k < 12 then 9 * Row(index) + OutsideBlock(BlockCol(index), k - 6)
    else BlockCell(BlockRow(index), BlockCol(index), BlockPos(index), k - 12)
  }

  /** The 20 peer indexes of `index`, in the solver's order. */
  function PeerList(index: int): seq<int>
  {
    seq(20, k => PeerAt(index, k))
  }

  lemma DivMod3(x: int, y: int)
    requires 0 <= y < 3
    ensures (3 * x + y) / 3 == x && (3 * x + y) % 3 == y
  {
  }

  lemma BlockOf(index: int)
    requires 0 <= index < 81
    ensures 0 <= Row(index) - BlockRow(index) < 3 && 0 <= Col(index) - BlockCol(index) < 3
    ensures BlockRow(index) == 0 || BlockRow(index) == 3 || BlockRow(index) == 6
    ensures BlockCol(index) == 0 || BlockCol(index) == 3 || BlockCol(index) == 6
    ensures 0 <= BlockPos(index) < 9
  {
    IndexOf(index);
  }

  lemma ColumnPeerAt(index: int, k: int)
    requires 0 <= index < 81 && 0 <= k < 6
    ensures var p := PeerAt(index, k);
      0 <= p < 81 && Col(p) == Col(index) && Row(p) == OutsideBlock(BlockRow(index), k)
      && (Row(p) < BlockRow(index) || BlockRow(index) + 3 <= Row(p))
  {
    BlockOf(index);
    IndexOf(index);
    RowColOf(OutsideBlock(BlockRow(index), k), Col(index));
  }

  lemma RowPeerAt(index: int, k: int)
    requires 0 <= index < 81 && 6 <= k < 12
    ensures var p := PeerAt(index, k);
      0 <= p < 81 && Row(p) == Row(index) && Col(p) == OutsideBlock(BlockCol(index), k - 6)
      && (Col(p) < BlockCol(index) || BlockCol(index) + 3 <= Col(p))
  {
    BlockOf(index);
    IndexOf(index);
    RowColOf(Row(index), OutsideBlock(BlockCol(index), k - 6));
  }

  /** Row and column of position `t` inside a block. */
  lemma Thirds(t: int) returns (q: int, r: int)
    requires 0 <= t < 9
    ensures 0 <= q < 3 && 0 <= r < 3 && t == 3 * q + r
  {
    q := if t < 3 then 0 else if t < 6 then 1 else 2;
    r := t - 3 * q;
  }

  /** Cell `j` of block (a, b) without position `skip` lies in that block, at position `t`. */
  lemma BlockCellAt(a: int, b: int, skip: int, j: int)
    requires 0 <= a < 3 && 0 <= b < 3
    requires 0 <= skip < 9 && 0 <= j < 8
    ensures var p := BlockCell(3 * a, 3 * b, skip, j);
      var t := if j < skip then j else j + 1;
      && 0 <= p < 81 && 0 <= t < 9 && t != skip
      && 0 <= Row(p) - 3 * a < 3 && 0 <= Col(p) - 3 * b < 3
      && 3 * (Row(p) - 3 * a) + (Col(p) - 3 * b) == t
      && Row(p) / 3 == a && Col(p) / 3 == b
  {
    var t := if j < skip then j else j + 1;
    var tr, tc := Thirds(t);
    DivMod3(tr, tc);
    assert BlockCell(3 * a, 3 * b, skip, j) == 9 * (3 * a + tr) + 3 * b + tc;
    RowColOf(3 * a + tr, 3 * b + tc);
    DivMod3(a, tr);
    DivMod3(b, tc);
  }

  lemma BlockPeerAt(index: int, k: int)
    requires 0 <= index < 81 && 12 <= k < 20
    ensures var p := PeerAt(index, k);
      var t := if k - 12 < BlockPos(index) then k - 12 else k - 11;
      && 0 <= p < 81 && p != index && 0 <= t < 9 && t != BlockPos(index)
      && 0 <= Row(p) - BlockRow(index) < 3 && 0 <= Col(p) - BlockCol(index) < 3
      && 3 * (Row(p) - BlockRow(index)) + (Col(p) - BlockCol(index)) == t
      && Row(p) / 3 == Row(index) / 3 && Col(p) / 3 == Col(index) / 3
  {
    IndexOf(index);
    BlockOf(index);
    BlockCellAt(Row(index) / 3, Col(index) / 3, BlockPos(index), k - 12);
  }

  /** Every entry of the peer list is a peer. */
  lemma PeerListPeers(index: int)
    requires 0 <= index < 81
    ensures |PeerList(index)| == 20
    ensures forall k :: 0 <= k < 20 ==> IsPeer(index, PeerList(index)[k])
  {
    forall k | 0 <= k < 20 ensures IsPeer(index, PeerList(index)[k]) {
      if k < 6 {
        ColumnPeerAt(index, k);
      } else if k < 12 {
        RowPeerAt(index, k);
      } else {
        BlockPeerAt(index, k);
      }
    }
  }

  lemma PeerPairDistinct(index: int, a: int, b: int)
    requires 0 <= index < 81 && 0 <= a < b < 20
    ensures PeerList(index)[a] != PeerList(index)[b]
  {
    var p, q := PeerAt(index, a), PeerAt(index, b);
    BlockOf(index);
    if a < 6 {
      ColumnPeerAt(index, a);
      if b < 6 {
        ColumnPeerAt(index, b);
        assert Row(p) != Row(q);
      } else if b < 12 {
        RowPeerAt(index, b);
        assert Col(p) != Col(q);
      } else {
        BlockPeerAt(index, b);
        assert Row(p) != Row(q);
      }
    } else if a < 12 {
      RowPeerAt(index, a);
      if b < 12 {
        RowPeerAt(index, b);
        assert Col(p) != Col(q);
      } else {
        BlockPeerAt(index, b);
        assert Col(p) != Col(q);
      }
    } else {
      BlockPeerAt(index, a);
      BlockPeerAt(index, b);
      assert Row(p) != Row(q) || Col(p) != Col(q);
    }
    assert PeerList(index)[a] == p && PeerList(index)[b] == q;
  }

  /** The 20 entries are pairwise distinct. */
  lemma PeerListDistinct(index: int)
    requires 0 <= index < 81
    ensures |PeerList(index)| == 20
    ensures forall a, b :: 0 <= a < b < 20 ==> PeerList(index)[a] != PeerList(index)[b]
  {
    forall a, b | 0 <= a < b < 20 ensures PeerList(index)[a] != PeerList(index)[b] {
      PeerPairDistinct(index, a, b);
    }
  }

  lemma PeerListInRange(index: int)
    requires 0 <= index < 81
    ensures |PeerList(index)| == 20 && InRange(PeerList(index))
  {
    PeerListPeers(index);
  }

  /** Every peer appears in the peer list. */
  lemma PeerListComplete(index: int, p: int)
    requires IsPeer(index, p)
    ensures p in PeerList(index)
  {
    var br, bc := BlockRow(index), BlockCol(index);
    var r, c := Row(p), Col(p);
    IndexOf(p);
    IndexOf(index);
    BlockOf(index);
    assert p == 9 * r + c;
    if c == Col(index) && (r < br || br + 3 <= r) {
      ColumnEntry(index, r);
      Listed(index, if r < br then r else r - 3, p);
    } else if r == Row(index) && (c < bc || bc + 3 <= c) {
      RowEntry(index, c);
      Listed(index, 6 + if c < bc then c else c - 3, p);
    } else {
      assert br <= r < br + 3 && bc <= c < bc + 3;
      BlockListed(index, r, c);
    }
  }

  lemma BlockListed(index: int, r: int, c: int)
    requires 0 <= index < 81
    requires BlockRow(index) <= r < BlockRow(index) + 3 && BlockCol(index) <= c < BlockCol(index) + 3
    requires r != Row(index) || c != Col(index)
    ensures 9 * r + c in PeerList(index)
  {
    BlockEntry(index, r, c);
    var t := 3 * (r - BlockRow(index)) + (c - BlockCol(index));
    Listed(index, 12 + if t < BlockPos(index) then t else t - 1, 9 * r + c);
  }

  lemma Listed(index: int, k: int, p: int)
    requires 0 <= k < 20 && PeerAt(index, k) == p
    ensures p in PeerList(index)
  {
    assert PeerList(index)[k] == p;
  }

  /** Where the solver's loops find each peer in the peer list. */
  lemma ColumnEntry(index: int, r: int)
    requires 0 <= index < 81 && 0 <= r < 9 && (r < BlockRow(index) || BlockRow(index) + 3 <= r)
    ensures var k := if r < BlockRow(index) then r else r - 3;
      0 <= k < 6 && PeerAt(index, k) == 9 * r + Col(index)
  {
    BlockOf(index);
    var k := if r < BlockRow(index) then r else r - 3;
  }

  lemma RowEntry(index: int, c: int)
    requires 0 <= index < 81 && 0 <= c < 9 && (c < BlockCol(index) || BlockCol(index) + 3 <= c)
    ensures var k := 6 + if c < BlockCol(index) then c else c - 3;
      6 <= k < 12 && PeerAt(index, k) == 9 * Row(index) + c
  {
    BlockOf(index);
    var k := 6 + if c < BlockCol(index) then c else c - 3;
  }

  /** Offset (dr, dc) of block (a, b) is entry `j` of the block part when it is not position `skip`. */
  lemma BlockSlot(a: int, b: int, dr: int, dc: int, skip: int)
    requires 0 <= a < 3 && 0 <= b < 3 && 0 <= dr < 3 && 0 <= dc < 3
    requires 0 <= skip < 9 && 3 * dr + dc != skip
    ensures var t := 3 * dr + dc;
      var j := if t < skip then t else t - 1;
      0 <= j < 8 && BlockCell(3 * a, 3 * b, skip, j) == 9 * (3 * a + dr) + 3 * b + dc
  {
    DivMod3(dr, dc);
  }

  lemma BlockEntry(index: int, r: int, c: int)
    requires 0 <= index < 81
    requires BlockRow(index) <= r < BlockRow(index) + 3 && BlockCol(index) <= c < BlockCol(index) + 3
    requires r != Row(index) || c != Col(index)
    ensures var t := 3 * (r - BlockRow(index)) + (c - BlockCol(index));
      var k := 12 + if t < BlockPos(index) then t else t - 1;
      t != BlockPos(index) && 12 <= k < 20 && PeerAt(index, k) == 9 * r + c
  {
    IndexOf(index);
    BlockOf(index);
    var a, b := Row(index) / 3, Col(index) / 3;
    assert 3 * (r - 3 * a) + (c - 3 * b) != BlockPos(index) by {
      DivMod3(r - 3 * a, c - 3 * b);
      DivMod3(Row(index) - 3 * a, Col(index) - 3 * b);
    }
    BlockSlot(a, b, r - 3 * a, c - 3 * b, BlockPos(index));
  }

  /** The solver's first loop: the column of `index` outside its block, into entries 0..5. */
  method AddColumnPeers(others: array<int>, index: int)
    requires 0 <= index < 81 && others.Length == 20
    modifies others
    ensures forall k :: 0 <= k < 6 ==> others[k] == PeerAt(index, k)
    ensures forall k :: 6 <= k < 20 ==> others[k] == old(others[k])
  {
    var col := index % 9;
    var blockULRow := 3 * (index / 9 / 3);
    assert col == Col(index) && blockULRow == BlockRow(index);
    assert blockULRow == 0 || blockULRow == 3 || blockULRow == 6 by { BlockOf(index); }
    var other := 0;
    var r := 0;
    while r < 9
      invariant 0 <= r <= 9
      invariant other == if r <= blockULRow then r else if r <= blockULRow + 3 then blockULRow else r - 3
      invariant forall k :: 0 <= k < other ==> others[k] == PeerAt(index, k)
      invariant forall k :: 6 <= k < 20 ==> others[k] == old(others[k])
    {
      if r < blockULRow || r >= blockULRow + 3 {
        assert PeerAt(index, other) == 9 * r + col by { ColumnEntry(index, r); }
        others[other] := 9 * r + col;
        other := other + 1;
      }
      r := r + 1;
    }
  }

  /** The solver's second loop: the row of `index` outside its block, into entries 6..11. */
  method AddRowPeers(others: array<int>, index: int)
    requires 0 <= index < 81 && others.Length == 20
    modifies others
    ensures forall k :: 6 <= k < 12 ==> others[k] == PeerAt(index, k)
    ensures forall k :: 0 <= k < 6 ==> others[k] == old(others[k])
    ensures forall k :: 12 <= k < 20 ==> others[k] == old(others[k])
  {
    var row := index / 9;
    var blockULCol := 3 * (index % 9 / 3);
    assert row == Row(index) && blockULCol == BlockCol(index);
    assert blockULCol == 0 || blockULCol == 3 || blockULCol == 6 by { BlockOf(index); }
    var other := 6;
    var c := 0;
    while c < 9
      invariant 0 <= c <= 9
      invariant other == 6 + if c <= blockULCol then c else if c <= blockULCol + 3 then blockULCol else c - 3
      invariant forall k :: 6 <= k < other ==> others[k] == PeerAt(index, k)
      invariant forall k :: 0 <= k < 6 ==> others[k] == old(others[k])
      invariant forall k :: 12 <= k < 20 ==> others[k] == old(others[k])
    {
      if c < blockULCol || c >= blockULCol + 3 {
        assert PeerAt(index, other) == 9 * row + c by { RowEntry(index, c); }
        others[other] := 9 * row + c;
        other := other + 1;
      }
      c := c + 1;
    }
  }

  /** How many of the first `t` block positions are listed when position `skip` is left out. */
  function Skipping(t: int, skip: int): int
  {
    if t <= skip then t else t - 1
  }

  /** Cell (r, c) of the block of `index` is at block position `t`; unless it is `index` itself, it is listed. */
  lemma BlockSlotOf(index: int, r: int, c: int)
    requires 0 <= index < 81
    requires BlockRow(index) <= r < BlockRow(index) + 3 && BlockCol(index) <= c < BlockCol(index) + 3
    ensures var t := 3 * (r - BlockRow(index)) + (c - BlockCol(index));
      && ((r != Row(index) || c != Col(index)) <==> t != BlockPos(index))
      && (t != BlockPos(index) ==> PeerAt(index, 12 + Skipping(t, BlockPos(index))) == 9 * r + c)
  {
    BlockOf(index);
    DivMod3(r - BlockRow(index), c - BlockCol(index));
    DivMod3(Row(index) - BlockRow(index), Col(index) - BlockCol(index));
    if r != Row(index) || c != Col(index) {
      BlockEntry(index, r, c);
    }
  }

  /** One row `r` of the block of `index`: the inner loop of the solver's third loop. */
  method AddBlockRowPeers(others: array<int>, index: int, r: int, other0: int) returns (other: int)
    requires 0 <= index < 81 && others.Length == 20
    requires BlockRow(index) <= r < BlockRow(index) + 3
    requires other0 == 12 + Skipping(3 * (r - BlockRow(index)), BlockPos(index))
    modifies others
    ensures other == 12 + Skipping(3 * (r + 1 - BlockRow(index)), BlockPos(index))
    ensures forall k :: 12 <= k < other ==> others[k] == if k < other0 then old(others[k]) else PeerAt(index, k)
    ensures forall k :: 0 <= k < 20 && !(other0 <= k < other) ==> others[k] == old(others[k])
  {
    var row := index / 9;
    var col := index % 9;
    var blockULRow := 3 * (row / 3);
    var blockULCol := 3 * (col / 3);
    ghost var skip := BlockPos(index);
    BlockOf(index);
    assert 0 <= row - blockULRow < 3 && 0 <= col - blockULCol < 3;
    assert skip == 3 * (row - blockULRow) + (col - blockULCol);
    other := other0;
    var c := blockULCol;
    while c < blockULCol + 3
      invariant blockULCol <= c <= blockULCol + 3
      invariant other == 12 + Skipping(3 * (r - blockULRow) + (c - blockULCol), skip)
      invariant forall k :: other0 <= k < other ==> others[k] == PeerAt(index, k)
      invariant forall k :: 0 <= k < 20 && !(other0 <= k < other) ==> others[k] == old(others[k])
    {
      BlockSlotOf(index, r, c);
      if r != row || c != col {
        others[other] := 9 * r + c;
        other := other + 1;
      }
      c := c + 1;
    }
  }

  /** The solver's third loop: the rest of the block of `index`, into entries 12..19. */
  method AddBlockPeers(others: array<int>, index: int)
    requires 0 <= index < 81 && others.Length == 20
    modifies others
    ensures forall k :: 12 <= k < 20 ==> others[k] == PeerAt(index, k)
    ensures forall k :: 0 <= k < 12 ==> others[k] == old(others[k])
  {
    var blockULRow := 3 * (index / 9 / 3);
    BlockOf(index);
    var other := 12;
    var r := blockULRow;
    while r < blockULRow + 3
      invariant blockULRow <= r <= blockULRow + 3
      invariant other == 12 + Skipping(3 * (r - blockULRow), BlockPos(index))
      invariant forall k :: 12 <= k < other ==> others[k] == PeerAt(index, k)
      invariant forall k :: 0 <= k < 12 ==> others[k] == old(others[k])
    {
      other := AddBlockRowPeers(others, index, r, other);
      r := r + 1;
    }
  }

  /**
   * The list of the 20 cells constrained by `index`, built with the solver's
   * three loops: the column outside the block, the row outside the block, then
   * the block itself.
   */
  method PeerIndexes(index: int) returns (others: array<int>)
    requires 0 <= index < 81
    ensures fresh(others) && others.Length == 20 && others[..] == PeerList(index)
  {
    others := new int[20];
    AddColumnPeers(others, index);
    AddRowPeers(others, index);
    AddBlockPeers(others, index);
    assert others[..] == PeerList(index);
  }

  // ---------------------------------------------------------------------------
  // Grids of candidate masks, and what propagation establishes about them.

  /** Cell i is determined and its digit is a candidate of none of its peers. */
  ghost predicate Settled(s: seq<Mask>, i: int)
  {
    && |s| == 81 && 0 <= i < 81 && IsSingle(s[i])
    && forall p :: IsPeer(i, p) ==> s[p] & s[i] == 0
  }

  /** Every determined cell is settled: propagation has nothing left to remove. */
  ghost predicate FixedPoint(s: seq<Mask>)
  {
    |s| == 81 && forall i :: 0 <= i < 81 && IsSingle(s[i]) ==> Settled(s, i)
  }

  /** Every cell of `t` keeps only candidates it had in `s`. */
  ghost predicate Shrunk(t: seq<Mask>, s: seq<Mask>)
  {
    |t| == 81 && |s| == 81 && forall i :: 0 <= i < 81 ==> SubMask(t[i], s[i])
  }

  /** The complete solution `sol` is still possible in grid `s`. */
  ghost predicate Allows(s: seq<Mask>, sol: seq<int>)
  {
    |s| == 81 && |sol| == 81 && forall i :: 0 <= i < 81 ==> Has(s[i], sol[i])
  }

  /**
   * What a caller promises when it names `last` as the only cell changed
   * recently: that cell is determined and every other determined cell is settled.
   */
  ghost predicate OnlyChanged(s: seq<Mask>, last: int)
  {
    && |s| == 81 && 0 <= last < 81 && IsSingle(s[last])
    && forall i :: 0 <= i < 81 && i != last && IsSingle(s[i]) ==> Settled(s, i)
  }

  /** No complete solution is possible in grid `s`. */
  ghost predicate NoSolution(s: seq<Mask>)
  {
    forall sol :: IsSolution(sol) ==> !Allows(s, sol)
  }

  /** Every cell is determined. */
  ghost predicate AllSingle(s: seq<Mask>)
  {
    forall i :: 0 <= i < |s| ==> IsSingle(s[i])
  }

  /** Total number of candidates over the grid, the measure that propagation and search decrease. */
  function TotalPop(s: seq<Mask>): nat
  {
    if s == [] then 0 else TotalPop(s[..|s| - 1]) + PopCount(s[|s| - 1])
  }

  /** The digits of a grid, the lowest candidate of each cell. */
  function Digits(s: seq<Mask>): (d: seq<int>)
    ensures |d| == |s|
  {
    seq(|s|, i requires 0 <= i < |s| => Lowest(s[i]))
  }

  /**
   * The worklist state: `list` holds distinct cell indexes, those before `done`
   * are settled, the rest are determined, and every determined cell is settled
   * or still listed from `done` on.
   */
  ghost predicate Worklist(s: seq<Mask>, list: seq<int>, done: int)
  {
    && |s| == 81 && 0 <= done <= |list| <= 81
    && (forall k :: 0 <= k < |list| ==> 0 <= list[k] < 81)
    && (forall a, b :: 0 <= a < b < |list| ==> list[a] != list[b])
    && (forall k :: 0 <= k < done ==> Settled(s, list[k]))
    && (forall k :: done <= k < |list| ==> IsSingle(s[list[k]]))
    && (forall i :: 0 <= i < 81 && IsSingle(s[i]) ==> Settled(s, i) || i in list[done..])
  }

  lemma {:induction false} TotalPopUpdate(s: seq<Mask>, i: int, m: Mask)
    requires 0 <= i < |s|
    ensures TotalPop(s[i := m]) == TotalPop(s) - PopCount(s[i]) + PopCount(m)
    decreases |s|
  {
    var n := |s| - 1;
    if i < n {
      assert s[i := m][..n] == s[..n][i := m];
      TotalPopUpdate(s[..n], i, m);
    } else {
      assert s[i := m][..n] == s[..n];
    }
  }

  /** A list of distinct indexes below n has at most n entries. */
  lemma {:induction false} DistinctBound(list: seq<int>, n: nat)
    requires forall k :: 0 <= k < |list| ==> 0 <= list[k] < n
    requires forall a, b :: 0 <= a < b < |list| ==> list[a] != list[b]
    ensures |list| <= n
    decreases n
  {
    if |list| == 0 {
    } else if k :| 0 <= k < |list| && list[k] == n - 1 {
      var rest := list[..k] + list[k + 1..];
      assert forall j :: 0 <= j < |rest| ==> rest[j] == if j < k then list[j] else list[j + 1];
      DistinctBound(rest, n - 1);
    } else {
      assert 0 <= list[0] < n;
      DistinctBound(list, n - 1);
    }
  }

  /** A settled cell stays settled while it keeps its mask and every other cell only loses candidates. */
  lemma SettledShrink(s: seq<Mask>, t: seq<Mask>, i: int)
    requires Settled(s, i) && Shrunk(t, s) && t[i] == s[i]
    ensures Settled(t, i)
  {
    forall p | IsPeer(i, p) ensures t[p] & t[i] == 0 {
      assert t[p] & s[p] == t[p];
      assert s[p] & s[i] == 0;
    }
  }

  lemma ShrunkTransitive(a: seq<Mask>, b: seq<Mask>, c: seq<Mask>)
    requires Shrunk(a, b) && Shrunk(b, c)
    ensures Shrunk(a, c)
  {
    forall i | 0 <= i < 81 ensures SubMask(a[i], c[i]) {
      SubMaskTransitive(a[i], b[i], c[i]);
    }
  }

  /** Solutions still possible in a grid are still possible in a grid that keeps their candidates. */
  lemma AllowsShrunk(t: seq<Mask>, s: seq<Mask>, sol: seq<int>)
    requires Allows(t, sol) && Shrunk(t, s)
    ensures Allows(s, sol)
  {
    forall i | 0 <= i < 81 ensures Has(s[i], sol[i]) {
      SubMaskHas(t[i], s[i]);
    }
  }

  /**
   * Removing the digit of a determined cell from one of its peers keeps every
   * solution the grid allowed.
   */
  lemma ClearPeerAllows(s: seq<Mask>, sol: seq<int>, index: int, c: int)
    requires Allows(s, sol) && IsSolution(sol) && IsPeer(index, c) && IsSingle(s[index])
    ensures Allows(s[c := !s[index] & s[c]], sol)
  {
    ClearPeerKeeps(s, sol, index, c);
  }

  lemma ClearPeerKeeps(s: seq<Mask>, sol: seq<int>, index: int, c: int)
    requires Allows(s, sol) && IsSolution(sol) && IsPeer(index, c) && IsSingle(s[index])
    ensures Has(!s[index] & s[c], sol[c])
  {
    var d := Lowest(s[index]);
    SingleHas(s[index], sol[index]);
    SingleIsBit(s[index]);
    assert sol[c] != d;
    ClearBit(s[c], d);
    assert !s[index] & s[c] == s[c] & !Bit(d);
  }

  /**
   * A fully determined grid is a fixed point exactly when its digits form a
   * solution: no two peers hold the same digit.
   */
  lemma FixedPointIsSolution(s: seq<Mask>)
    requires |s| == 81 && AllSingle(s)
    ensures FixedPoint(s) <==> IsSolution(Digits(s))
  {
    if FixedPoint(s) {
      FixedPointDistinct(s);
    }
    if IsSolution(Digits(s)) {
      DistinctFixedPoint(s);
    }
  }

  /** Each digit of a fully determined grid is a digit whose bit is the cell's mask. */
  lemma DigitsOfSingles(s: seq<Mask>)
    requires |s| == 81 && AllSingle(s)
    ensures forall i :: 0 <= i < 81 ==> 1 <= Digits(s)[i] <= 9 && s[i] == Bit(Digits(s)[i])
  {
    forall i | 0 <= i < 81 ensures 1 <= Digits(s)[i] <= 9 && s[i] == Bit(Digits(s)[i]) {
      SingleIsBit(s[i]);
    }
  }

  /** At a fixed point, peers hold different digits. */
  lemma FixedPointDistinct(s: seq<Mask>)
    requires |s| == 81 && AllSingle(s) && FixedPoint(s)
    ensures IsSolution(Digits(s))
  {
    var d := Digits(s);
    DigitsOfSingles(s);
    forall i, p | IsPeer(i, p) ensures d[i] != d[p] {
      assert Settled(s, i);
      assert s[p] & s[i] == 0;
      BitHas(d[i], d[i]);
    }
  }

  /** When peers hold different digits, every cell is settled. */
  lemma DistinctFixedPoint(s: seq<Mask>)
    requires |s| == 81 && AllSingle(s) && IsSolution(Digits(s))
    ensures FixedPoint(s)
  {
    var d := Digits(s);
    DigitsOfSingles(s);
    forall i | 0 <= i < 81 && IsSingle(s[i]) ensures Settled(s, i) {
      forall p | IsPeer(i, p) ensures s[p] & s[i] == 0 {
        assert d[p] != d[i];
        BitValues();
        BitHas(d[i], d[p]);
        BitHas(d[p], d[i]);
        DistinctBits(d[i], d[p]);
      }
    }
  }

  lemma DistinctBits(d: int, e: int)
    requires 1 <= d <= 9 && 1 <= e <= 9 && d != e
    ensures Bit(d) & Bit(e) == 0
  {
    BitValues();
    if d == 1 {} else if d == 2 {} else if d == 3 {} else if d == 4 {} else if d == 5 {}
    else if d == 6 {} else if d == 7 {} else if d == 8 {} else {}
  }

  /** The digits of a determined grid are allowed by every grid it was narrowed from. */
  lemma DigitsAllowed(t: seq<Mask>, s: seq<Mask>)
    requires Shrunk(t, s) && AllSingle(t)
    ensures Allows(s, Digits(t))
  {
    forall i | 0 <= i < 81 ensures Has(t[i], Digits(t)[i]) {
      SingleHas(t[i], Lowest(t[i]));
    }
    AllowsShrunk(t, s, Digits(t));
  }

  /** A cell that loses some but not all of its candidates was undetermined, so it is not listed. */
  lemma WriteNotListed(s: seq<Mask>, list: seq<int>, done: int, c: int, m: Mask)
    requires Worklist(s, list, done) && 0 <= c < 81
    requires SubMask(m, s[c]) && m != 0 && m != s[c]
    ensures !IsSingle(s[c]) && c !in list
  {
    if IsSingle(s[c]) {
      SubMaskOfSingle(m, s[c]);
    }
    forall k | 0 <= k < |list| ensures list[k] != c {
      if k < done {
        assert Settled(s, list[k]);
      }
    }
  }

  /** After the write, every determined cell is settled or still waiting in the list. */
  lemma WriteCovers(s: seq<Mask>, list: seq<int>, done: int, c: int, m: Mask)
    requires Worklist(s, list, done) && 0 <= c < 81 && SubMask(m, s[c]) && c !in list
    ensures var list' := if IsSingle(m) then list + [c] else list;
      forall i :: 0 <= i < 81 && IsSingle(s[c := m][i]) ==> Settled(s[c := m], i) || i in list'[done..]
  {
    var t := s[c := m];
    var list' := if IsSingle(m) then list + [c] else list;
    assert Shrunk(t, s);
    forall i | 0 <= i < 81 && IsSingle(t[i]) ensures Settled(t, i) || i in list'[done..] {
      if i != c {
        if Settled(s, i) {
          SettledShrink(s, t, i);
        } else {
          assert i in list[done..];
          assert list[done..] <= list'[done..];
        }
      } else {
        assert list'[done..] == list[done..] + [c];
      }
    }
  }

  /** The write keeps the settled prefix settled and the waiting entries determined. */
  lemma WriteKeepsEntries(s: seq<Mask>, list: seq<int>, done: int, c: int, m: Mask)
    requires Worklist(s, list, done) && 0 <= c < 81 && SubMask(m, s[c]) && c !in list
    ensures Shrunk(s[c := m], s)
    ensures forall k :: 0 <= k < done ==> Settled(s[c := m], list[k])
    ensures forall k :: done <= k < |list| ==> IsSingle(s[c := m][list[k]])
  {
    var t := s[c := m];
    assert Shrunk(t, s);
    forall k | 0 <= k < done ensures Settled(t, list[k]) {
      assert Settled(s, list[k]);
      SettledShrink(s, t, list[k]);
    }
  }

  /** Appending a new determined cell keeps the list distinct, in range and within 81 entries. */
  lemma AppendEntry(t: seq<Mask>, list: seq<int>, done: int, c: int)
    requires |t| == 81 && 0 <= done <= |list| && 0 <= c < 81 && c !in list && IsSingle(t[c])
    requires forall k :: 0 <= k < |list| ==> 0 <= list[k] < 81
    requires forall a, b :: 0 <= a < b < |list| ==> list[a] != list[b]
    requires forall k :: done <= k < |list| ==> IsSingle(t[list[k]])
    ensures var list' := list + [c];
      && |list'| <= 81
      && (forall k :: 0 <= k < |list'| ==> 0 <= list'[k] < 81)
      && (forall a, b :: 0 <= a < b < |list'| ==> list'[a] != list'[b])
      && (forall k :: done <= k < |list'| ==> IsSingle(t[list'[k]]))
  {
    var list' := list + [c];
    assert forall k :: 0 <= k < |list'| ==> 0 <= list'[k] < 81;
    assert forall a, b :: 0 <= a < b < |list'| ==> list'[a] != list'[b] by {
      forall a, b | 0 <= a < b < |list'| ensures list'[a] != list'[b] {
        if b == |list| {
          assert list'[a] == list[a];
        }
      }
    }
    DistinctBound(list', 81);
  }

  /** A write that leaves the cell undetermined keeps the list as it is. */
  lemma WriteKeepsList(s: seq<Mask>, list: seq<int>, done: int, c: int, m: Mask)
    requires Worklist(s, list, done) && 0 <= c < 81 && SubMask(m, s[c]) && c !in list && !IsSingle(m)
    ensures Worklist(s[c := m], list, done)
  {
    WriteKeepsEntries(s, list, done, c, m);
    WriteCovers(s, list, done, c, m);
  }

  /** A write that determines the cell appends it to the list. */
  lemma WriteAppends(s: seq<Mask>, list: seq<int>, done: int, c: int, m: Mask)
    requires Worklist(s, list, done) && 0 <= c < 81 && SubMask(m, s[c]) && c !in list && IsSingle(m)
    ensures |list + [c]| <= 81 && Worklist(s[c := m], list + [c], done)
  {
    var list' := list + [c];
    WriteKeepsEntries(s, list, done, c, m);
    WriteCovers(s, list, done, c, m);
    AppendEntry(s[c := m], list, done, c);
    assert forall k :: 0 <= k < done ==> list'[k] == list[k];
  }

  /**
   * One write of the propagation loop: cell `c` loses some but not all of its
   * candidates. It was undetermined, so it is not listed yet; it is appended
   * when it becomes determined, and the list still fits in 81 entries.
   */
  lemma WriteKeepsWorklist(s: seq<Mask>, list: seq<int>, done: int, c: int, m: Mask, list': seq<int>)
    requires Worklist(s, list, done) && 0 <= c < 81
    requires SubMask(m, s[c]) && m != 0 && m != s[c]
    requires list' == if IsSingle(m) then list + [c] else list
    ensures !IsSingle(s[c]) && c !in list
    ensures |list'| <= 81 && Worklist(s[c := m], list', done)
    ensures Shrunk(s[c := m], s)
  {
    WriteNotListed(s, list, done, c, m);
    WriteKeepsEntries(s, list, done, c, m);
    if IsSingle(m) {
      WriteAppends(s, list, done, c, m);
    } else {
      WriteKeepsList(s, list, done, c, m);
    }
  }

  /** `peers` lists 20 distinct peers of `index`. */
  ghost predicate PeerArray(index: int, peers: seq<int>)
  {
    && 0 <= index < 81 && |peers| == 20
    && (forall k :: 0 <= k < 20 ==> IsPeer(index, peers[k]))
    && (forall a, b :: 0 <= a < b < 20 ==> peers[a] != peers[b])
  }

  /** The first `j` peers no longer have any candidate of mask `v`. */
  ghost predicate Cleared(s: seq<Mask>, v: Mask, peers: seq<int>, j: int)
  {
    |s| == 81 && 0 <= j <= |peers| && forall k :: 0 <= k < j ==> 0 <= peers[k] < 81 && s[peers[k]] & v == 0
  }

  /** Cells of `t` only lost candidates of `s`, and determined cells of `s` kept their digit. */
  ghost predicate Narrowed(t: seq<Mask>, s: seq<Mask>)
  {
    Shrunk(t, s) && forall c :: 0 <= c < 81 && IsSingle(s[c]) ==> t[c] == s[c]
  }

  /** Every solution `s` allowed is still allowed by `t`. */
  ghost predicate KeepsSolutions(t: seq<Mask>, s: seq<Mask>)
  {
    forall sol :: IsSolution(sol) && Allows(s, sol) ==> Allows(t, sol)
  }

  /**
   * The state of the propagation loop while the digit of `index` (its mask in
   * `s0`, the grid before this step) is being removed from its peer list
   * `peers`: the first `j` peers no longer have it, the worklist invariant
   * holds with `index` itself not yet settled, cells only lost candidates and
   * determined cells kept their digit, every lost candidate is paid for in the
   * total count (appending to the list from length `start` on costs one each),
   * and every solution `s0` allowed is still allowed.
   */
  ghost predicate Clearing(s: seq<Mask>, s0: seq<Mask>, list: seq<int>, done: int, start: int,
                           index: int, peers: seq<int>, j: int)
  {
    // The two halves are named so that each is checked as a whole wherever the state is required.
    var frame := ClearingFrame(s, s0, list, done, start, index, peers, j);
    var gain := ClearingGain(s, s0, list, start);
    frame && gain
  }

  /** The worklist and peer-list part of the propagation state. */
  ghost predicate ClearingFrame(s: seq<Mask>, s0: seq<Mask>, list: seq<int>, done: int, start: int,
                                index: int, peers: seq<int>, j: int)
  {
    && |s0| == 81 && PeerArray(index, peers) && 0 <= j <= 20
    && Worklist(s, list, done) && 0 <= start <= |list|
    && IsSingle(s0[index]) && s[index] == s0[index]
    && Cleared(s, s0[index], peers, j)
  }

  /** What the propagation state gained over `s0`: fewer candidates, paid-for entries, no solution lost. */
  ghost predicate ClearingGain(s: seq<Mask>, s0: seq<Mask>, list: seq<int>, start: int)
  {
    && Narrowed(s, s0)
    && TotalPop(s) + (|list| - start) <= TotalPop(s0)
    && KeepsSolutions(s, s0)
  }

  /**
   * How clearing from a state of the loop may end: never by overflowing the
   * worklist, stuck only when no solution was possible (cells having only lost
   * candidates), and otherwise in the loop state for the first `j` peers.
   */
  ghost predicate ClearOutcome(r: Outcome, s0: seq<Mask>, done: int, start: int, index: int, peers: seq<int>, j: int)
  {
    && !r.Overflow?
    && (r.Stuck? ==> Shrunk(r.grid, s0) && NoSolution(s0))
    && (r.Done? ==> Clearing(r.grid, s0, r.list, done, start, index, peers, j))
  }

  /** A peer that already lacks the digit is left as it is. */
  lemma ClearKeep(s: seq<Mask>, s0: seq<Mask>, list: seq<int>, done: int, start: int,
                  index: int, peers: seq<int>, j: int)
    requires Clearing(s, s0, list, done, start, index, peers, j) && j < 20
    requires !s0[index] & s[peers[j]] == s[peers[j]]
    ensures ClearOutcome(ClearCell(s, !s0[index], peers[j], list), s0, done, start, index, peers, j + 1)
  {
    assert IsPeer(index, peers[j]);
    assert ClearCell(s, !s0[index], peers[j], list) == Done(s, list);
    ClearedKept(s, s0[index], peers, j);
    ClearingNext(s, s0, list, done, start, index, peers, j);
  }

  lemma ClearedKept(s: seq<Mask>, v: Mask, peers: seq<int>, j: int)
    requires Cleared(s, v, peers, j) && j < |peers| && 0 <= peers[j] < 81 && !v & s[peers[j]] == s[peers[j]]
    ensures Cleared(s, v, peers, j + 1)
  {
  }

  /** The loop state moves on to the next peer once that peer lacks the digit. */
  lemma ClearingNext(s: seq<Mask>, s0: seq<Mask>, list: seq<int>, done: int, start: int,
                     index: int, peers: seq<int>, j: int)
    requires Clearing(s, s0, list, done, start, index, peers, j) && j < 20
    requires Cleared(s, s0[index], peers, j + 1)
    ensures Clearing(s, s0, list, done, start, index, peers, j + 1)
  {
  }

  lemma NarrowedWrite(s: seq<Mask>, s0: seq<Mask>, c: int, m: Mask)
    requires Narrowed(s, s0) && 0 <= c < 81 && SubMask(m, s[c]) && !IsSingle(s[c])
    ensures Narrowed(s[c := m], s0)
  {
    var t := s[c := m];
    assert Shrunk(t, s);
    ShrunkTransitive(t, s, s0);
  }

  lemma ClearedWrite(s: seq<Mask>, v: Mask, peers: seq<int>, j: int, m: Mask)
    requires Cleared(s, v, peers, j) && j < |peers| && 0 <= peers[j] < 81 && m & v == 0
    requires forall k :: 0 <= k < j ==> peers[k] != peers[j]
    ensures Cleared(s[peers[j] := m], v, peers, j + 1)
  {
  }

  lemma KeepsWrite(s: seq<Mask>, s0: seq<Mask>, index: int, c: int)
    requires KeepsSolutions(s, s0) && |s| == 81 && IsPeer(index, c) && IsSingle(s[index])
    ensures KeepsSolutions(s[c := !s[index] & s[c]], s0)
  {
    forall sol | IsSolution(sol) && Allows(s0, sol) ensures Allows(s[c := !s[index] & s[c]], sol) {
      ClearPeerAllows(s, sol, index, c);
    }
  }

  /**
   * A peer `c` that loses the digit and keeps some candidate `m` is written,
   * and appended to the worklist (`list'`) once determined.
   */
  lemma ClearWrite(s: seq<Mask>, s0: seq<Mask>, list: seq<int>, done: int, start: int,
                   index: int, peers: seq<int>, j: int, c: int, m: Mask, list': seq<int>)
    requires Clearing(s, s0, list, done, start, index, peers, j) && j < 20
    requires c == peers[j] && m == !s0[index] & s[c] && m != s[c] && m != 0
    requires list' == if IsSingle(m) then list + [c] else list
    ensures ClearOutcome(ClearCell(s, !s0[index], c, list), s0, done, start, index, peers, j + 1)
  {
    ClearWriteState(s, s0, list, done, start, index, peers, j, c, m, list');
    ClearCellWritten(s, !s0[index], c, list, m);
  }

  /** A cell that loses some but not all candidates is written, and appended when determined. */
  lemma ClearCellWritten(s: seq<Mask>, v: Mask, c: int, list: seq<int>, m: Mask)
    requires |s| == 81 && 0 <= c < 81 && |list| <= 81 && InRange(list)
    requires m == v & s[c] && m != s[c] && m != 0
    ensures ClearCell(s, v, c, list) ==
      if IsSingle(m) && |list| == 81 then Overflow
      else Done(s[c := m], if IsSingle(m) then list + [c] else list)
  {
    EmptyMask(m);
  }

  /** The write keeps the worklist and peer-list part of the state. */
  lemma ClearWriteFrame(s: seq<Mask>, s0: seq<Mask>, list: seq<int>, done: int, start: int,
                        index: int, peers: seq<int>, j: int, c: int, m: Mask, list': seq<int>)
    requires Clearing(s, s0, list, done, start, index, peers, j) && j < 20
    requires c == peers[j] && m == !s0[index] & s[c] && m != s[c] && m != 0
    requires list' == if IsSingle(m) then list + [c] else list
    ensures |list'| <= 81 && ClearingFrame(s[c := m], s0, list', done, start, index, peers, j + 1)
    ensures IsPeer(index, c) && !IsSingle(s[c]) && SubMask(m, s[c])
  {
    assert IsPeer(index, c);
    WriteKeepsWorklist(s, list, done, c, m, list');
    ClearedWrite(s, s0[index], peers, j, m);
  }

  /**
   * The write leads to the loop state for one more peer; it keeps what the
   * state gained, as a candidate is removed for the entry it may append.
   */
  lemma ClearWriteState(s: seq<Mask>, s0: seq<Mask>, list: seq<int>, done: int, start: int,
                        index: int, peers: seq<int>, j: int, c: int, m: Mask, list': seq<int>)
    requires Clearing(s, s0, list, done, start, index, peers, j) && j < 20
    requires c == peers[j] && m == !s0[index] & s[c] && m != s[c] && m != 0
    requires list' == if IsSingle(m) then list + [c] else list
    ensures |list'| <= 81 && Clearing(s[c := m], s0, list', done, start, index, peers, j + 1)
  {
    ClearWriteFrame(s, s0, list, done, start, index, peers, j, c, m, list');
    NarrowedWrite(s, s0, c, m);
    KeepsWrite(s, s0, index, c);
    TotalPopUpdate(s, c, m);
    SubMaskStrict(m, s[c]);
  }

  /** A peer that loses its last candidate: no solution was possible. */
  lemma ClearEmpty(s: seq<Mask>, s0: seq<Mask>, list: seq<int>, done: int, start: int,
                   index: int, peers: seq<int>, j: int)
    requires Clearing(s, s0, list, done, start, index, peers, j) && j < 20
    requires var m := !s0[index] & s[peers[j]]; m != s[peers[j]] && m == 0
    ensures ClearOutcome(ClearCell(s, !s0[index], peers[j], list), s0, done, start, index, peers, j + 1)
  {
    var c := peers[j];
    assert IsPeer(index, c);
    assert SubMask(s[c], s0[c]);
    EmptyMask(!s0[index] & s[c]);
    assert Shrunk(s[c := 0], s0) by {
      assert Shrunk(s[c := 0], s);
      ShrunkTransitive(s[c := 0], s, s0);
    }
    forall sol | IsSolution(sol) ensures !Allows(s0, sol) {
      if Allows(s0, sol) {
        ClearPeerKeeps(s, sol, index, c);
        assert false;
      }
    }
  }

  /** After all 20 peers, `index` is settled and the worklist invariant holds with it done. */
  lemma ClearDone(s: seq<Mask>, s0: seq<Mask>, list: seq<int>, done: int, start: int,
                  index: int, peers: seq<int>)
    requires Clearing(s, s0, list, done, start, index, peers, 20)
    requires done < |list| && list[done] == index && peers == PeerList(index)
    ensures Worklist(s, list, done + 1)
  {
    assert Settled(s, index) by {
      forall p | IsPeer(index, p) ensures s[p] & s[index] == 0 {
        PeerListComplete(index, p);
        var k :| 0 <= k < 20 && peers[k] == p;
      }
    }
    forall i | 0 <= i < 81 && IsSingle(s[i]) ensures Settled(s, i) || i in list[done + 1..] {
      if !Settled(s, i) {
        assert i in list[done..];
        var k :| done <= k < |list| && list[k] == i;
        assert k != done;
        assert list[k] == list[done + 1..][k - done - 1];
      }
    }
  }

  // ---------------------------------------------------------------------------
  // Propagation as functions on values: the specification of `Constrain`.

  /** Every entry of `list` is a cell index. */
  predicate InRange(list: seq<int>)
  {
    forall k :: 0 <= k < |list| ==> 0 <= list[k] < 81
  }

  /** How a propagation run ends. */
  datatype Outcome =
    | Done(grid: seq<Mask>, list: seq<int>)   // nothing left to propagate
    | Stuck(grid: seq<Mask>, cell: int)       // `cell` was left with no candidate
    | Overflow                                // an 82nd entry would be appended to the worklist

  /**
   * Removing the candidates outside `v` from cell `c`: a cell that keeps all
   * of them is left alone, one left with none stops the step, and one left
   * with a single candidate is appended to `list`, which has room for 81
   * entries.
   */
  function ClearCell(s: seq<Mask>, v: Mask, c: int, list: seq<int>): (r: Outcome)
    requires |s| == 81 && 0 <= c < 81 && |list| <= 81 && InRange(list)
    ensures !r.Overflow? ==> |r.grid| == 81
    ensures r.Done? ==> list <= r.list && |r.list| <= 81 && InRange(r.list)
  {
    var m := v & s[c];
    if m == s[c] then Done(s, list)
    else if PopCount(m) == 0 then Stuck(s[c := m], c)
    else if PopCount(m) != 1 then Done(s[c := m], list)
    else if |list| < 81 then Done(s[c := m], list + [c])
    else Overflow
  }

  /** The rest of one propagation step, from peer `j` on. */
  function ClearFrom(s: seq<Mask>, v: Mask, peers: seq<int>, list: seq<int>, j: nat): (r: Outcome)
    requires |s| == 81 && j <= |peers| && InRange(peers) && |list| <= 81 && InRange(list)
    ensures !r.Overflow? ==> |r.grid| == 81
    ensures r.Done? ==> list <= r.list && |r.list| <= 81 && InRange(r.list)
    decreases |peers| - j
  {
    if j == |peers| then Done(s, list)
    else
      var o := ClearCell(s, v, peers[j], list);
      if o.Done? then ClearFrom(o.grid, v, peers, o.list, j + 1) else o
  }

  /** The rest of a step from peer `j` is the clearing of that peer followed by the rest from `j + 1`. */
  lemma ClearFromNext(s: seq<Mask>, v: Mask, peers: seq<int>, list: seq<int>, j: nat)
    requires |s| == 81 && j < |peers| && InRange(peers) && |list| <= 81 && InRange(list)
    ensures var o := ClearCell(s, v, peers[j], list);
      && (o.Done? ==> ClearFrom(s, v, peers, list, j) == ClearFrom(o.grid, v, peers, o.list, j + 1))
      && (!o.Done? ==> ClearFrom(s, v, peers, list, j) == o)
  {
  }

  /**
   * One propagation step for the determined cell `index`: its digit is removed
   * from its 20 peers in the solver's order. The cell itself and every cell
   * that is not its peer keep their masks.
   */
  function Propagate(s: seq<Mask>, list: seq<int>, index: int): (r: Outcome)
    requires |s| == 81 && 0 <= index < 81 && |list| <= 81 && InRange(list)
    ensures !r.Overflow? ==> |r.grid| == 81
    ensures r.Done? ==> list <= r.list && |r.list| <= 81 && InRange(r.list)
  {
    PeerListInRange(index);
    ClearFrom(s, !s[index], PeerList(index), list, 0)
  }

  /** Propagation from position `done` of the worklist `list` on, until the list is exhausted. */
  function ConstrainFrom(s: seq<Mask>, list: seq<int>, done: nat): (r: Outcome)
    requires |s| == 81 && |list| <= 81 && InRange(list) && done <= |list|
    ensures !r.Overflow? ==> |r.grid| == 81
    decreases 81 - done
  {
    if done == |list| then Done(s, list)
    else
      var p := Propagate(s, list, list[done]);
      if p.Done? then ConstrainFrom(p.grid, p.list, done + 1) else p
  }

  /** The determined cells among the first `n`, in index order. */
  function Singletons(s: seq<Mask>, n: nat): (list: seq<int>)
    requires |s| == 81 && n <= 81
    ensures |list| <= n && InRange(list)
  {
    if n == 0 then [] else Singletons(s, n - 1) + (if IsSingle(s[n - 1]) then [n - 1] else [])
  }

  /** The worklist propagation starts from: the cell the caller names, or every determined cell. */
  function Seed(s: seq<Mask>, lastIndex: Option<int>): (list: seq<int>)
    requires |s| == 81 && (lastIndex.Some? ==> 0 <= lastIndex.value < 81)
    ensures |list| <= 81 && InRange(list)
  {
    match lastIndex
    case Some(last) => [last]
    case None => Singletons(s, 81)
  }

  /** What `Constrain` computes. */
  function Constrained(s: seq<Mask>, lastIndex: Option<int>): Outcome
    requires |s| == 81 && (lastIndex.Some? ==> 0 <= lastIndex.value < 81)
  {
    ConstrainFrom(s, Seed(s, lastIndex), 0)
  }

  /** Clearing a cell writes its narrowed mask, which is the old one when nothing was removed. */
  lemma ClearCellGrid(s: seq<Mask>, v: Mask, c: int, list: seq<int>)
    requires |s| == 81 && 0 <= c < 81 && |list| <= 81 && InRange(list)
    ensures var r := ClearCell(s, v, c, list);
      && (!r.Overflow? ==> r.grid == s[c := v & s[c]])
      && (r.Stuck? ==> r.cell == c && v & s[c] == 0 && s[c] != 0)
  {
    var m := v & s[c];
    if m == s[c] {
      assert s[c := m] == s;
    } else {
      EmptyMask(m);
    }
  }

  /** Only the peers still to be processed change. */
  lemma {:induction false} ClearFromKeeps(s: seq<Mask>, v: Mask, peers: seq<int>, list: seq<int>, j: nat)
    requires |s| == 81 && j <= |peers| && InRange(peers) && |list| <= 81 && InRange(list)
    ensures var r := ClearFrom(s, v, peers, list, j);
      !r.Overflow? ==> forall c :: 0 <= c < 81 && c !in peers[j..] ==> r.grid[c] == s[c]
    decreases |peers| - j
  {
    if j < |peers| {
      var o := ClearCell(s, v, peers[j], list);
      ClearCellGrid(s, v, peers[j], list);
      assert peers[j..] == [peers[j]] + peers[j + 1..];
      if o.Done? {
        ClearFromKeeps(o.grid, v, peers, o.list, j + 1);
      }
    }
  }

  /** A run that is stuck stops at a peer still to be processed, which had a candidate and has none now. */
  lemma {:induction false} ClearFromStuck(s: seq<Mask>, v: Mask, peers: seq<int>, list: seq<int>, j: nat)
    requires |s| == 81 && j <= |peers| && InRange(peers) && |list| <= 81 && InRange(list)
    ensures var r := ClearFrom(s, v, peers, list, j);
      r.Stuck? ==> r.cell in peers[j..] && r.grid[r.cell] == 0 && s[r.cell] != 0
    decreases |peers| - j
  {
    if j < |peers| {
      var o := ClearCell(s, v, peers[j], list);
      ClearCellGrid(s, v, peers[j], list);
      assert peers[j..] == [peers[j]] + peers[j + 1..];
      if o.Done? {
        ClearFromStuck(o.grid, v, peers, o.list, j + 1);
        var r := ClearFrom(o.grid, v, peers, o.list, j + 1);
        if r.Stuck? {
          assert o.grid[r.cell] != 0;
        }
      }
    }
  }

  /**
   * A propagation step for `index` changes only its peers: the cell itself
   * and every cell outside its row, column and box keep their masks. When it
   * is stuck, the cell left with no candidate is a peer that had one.
   */
  lemma PropagateFrame(s: seq<Mask>, list: seq<int>, index: int)
    requires |s| == 81 && 0 <= index < 81 && |list| <= 81 && InRange(list)
    ensures var r := Propagate(s, list, index);
      && (!r.Overflow? ==> r.grid[index] == s[index])
      && (!r.Overflow? ==> forall c :: 0 <= c < 81 && !IsPeer(index, c) ==> r.grid[c] == s[c])
      && (r.Stuck? ==> IsPeer(index, r.cell) && r.grid[r.cell] == 0 && s[r.cell] != 0)
  {
    PeerListPeers(index);
    ClearFromKeeps(s, !s[index], PeerList(index), list, 0);
    ClearFromStuck(s, !s[index], PeerList(index), list, 0);
    assert PeerList(index)[0..] == PeerList(index);
    forall c | c in PeerList(index) ensures IsPeer(index, c) {
      var k :| 0 <= k < 20 && PeerList(index)[k] == c;
    }
  }

  // ---------------------------------------------------------------------------
  // What propagation establishes.

  /**
   * Processing the remaining peers from a state of the loop never overflows
   * the worklist, and either finishes with the loop state for all 20 peers
   * and an extension of the list, or gets stuck on a cell that had a
   * candidate, when no solution was possible.
   */
  lemma {:induction false} ClearRest(s: seq<Mask>, s0: seq<Mask>, list: seq<int>, done: int, start: int,
                                     index: int, peers: seq<int>, j: nat)
    requires Clearing(s, s0, list, done, start, index, peers, j)
    ensures ClearOutcome(ClearFrom(s, !s0[index], peers, list, j), s0, done, start, index, peers, 20)
    decreases 20 - j
  {
    var v := !s0[index];
    if j == 20 {
      assert ClearFrom(s, v, peers, list, j) == Done(s, list);
    } else {
      ClearStep(s, s0, list, done, start, index, peers, j);
      ClearingRanges(s, s0, list, done, start, index, peers, j);
      ClearFromNext(s, v, peers, list, j);
      var o := ClearCell(s, v, peers[j], list);
      if o.Done? {
        ClearRest(o.grid, s0, o.list, done, start, index, peers, j + 1);
      } else {
        StuckOutcome(o, s0, done, start, index, peers, j + 1);
      }
    }
  }

  /** A loop that stopped early ends the same way whichever peer it was heading for. */
  lemma StuckOutcome(r: Outcome, s0: seq<Mask>, done: int, start: int, index: int, peers: seq<int>, j: int)
    requires ClearOutcome(r, s0, done, start, index, peers, j) && !r.Done?
    ensures ClearOutcome(r, s0, done, start, index, peers, 20)
  {
  }

  /** In a state of the loop, the peer list and the worklist hold cell indexes. */
  lemma ClearingRanges(s: seq<Mask>, s0: seq<Mask>, list: seq<int>, done: int, start: int,
                       index: int, peers: seq<int>, j: int)
    requires Clearing(s, s0, list, done, start, index, peers, j)
    ensures |s| == 81 && j <= |peers| && InRange(peers) && |list| <= 81 && InRange(list)
  {
    assert forall k :: 0 <= k < 20 ==> IsPeer(index, peers[k]);
  }

  /**
   * Clearing the next peer from a state of the loop never overflows the
   * worklist; it either reaches the loop state for one more peer or leaves
   * that peer with no candidate, when no solution was possible.
   */
  lemma ClearStep(s: seq<Mask>, s0: seq<Mask>, list: seq<int>, done: int, start: int,
                  index: int, peers: seq<int>, j: int)
    requires Clearing(s, s0, list, done, start, index, peers, j) && j < 20
    ensures ClearOutcome(ClearCell(s, !s0[index], peers[j], list), s0, done, start, index, peers, j + 1)
  {
    var c, m := peers[j], !s0[index] & s[peers[j]];
    if m == s[c] {
      ClearKeep(s, s0, list, done, start, index, peers, j);
    } else if m == 0 {
      ClearEmpty(s, s0, list, done, start, index, peers, j);
    } else {
      ClearWrite(s, s0, list, done, start, index, peers, j, c, m, if IsSingle(m) then list + [c] else list);
    }
  }

  /** The clearing loop's state before the first peer of the cell at position `done` of the worklist. */
  lemma ClearStart(s: seq<Mask>, list: seq<int>, done: nat)
    requires Worklist(s, list, done) && done < |list|
    ensures Clearing(s, s, list, done, |list|, list[done], PeerList(list[done]), 0)
  {
    var index := list[done];
    PeerListPeers(index);
    PeerListDistinct(index);
    assert Shrunk(s, s);
  }

  /**
   * How a propagation step from the worklist state (`s`, `list`, `done`) may
   * end: never by overflowing the worklist; stuck only when no solution was
   * possible (cells having only lost candidates); otherwise with the cell at
   * position `done` settled and the worklist state holding from the next
   * position, every appended entry paid for by a candidate removed, cells
   * having only lost candidates, determined cells keeping their digit and
   * every solution still allowed.
   */
  ghost predicate StepOutcome(r: Outcome, s: seq<Mask>, list: seq<int>, done: int)
  {
    && !r.Overflow?
    && (r.Stuck? ==> Shrunk(r.grid, s) && NoSolution(s))
    && (r.Done? ==> && Worklist(r.grid, r.list, done + 1)
                    && TotalPop(r.grid) + (|r.list| - |list|) <= TotalPop(s)
                    && Narrowed(r.grid, s) && KeepsSolutions(r.grid, s))
  }

  /** Every propagation step from a worklist state ends as `StepOutcome` says. */
  lemma PropagateSound(s: seq<Mask>, list: seq<int>, done: nat)
    requires Worklist(s, list, done) && done < |list|
    ensures StepOutcome(Propagate(s, list, list[done]), s, list, done)
  {
    var index := list[done];
    var peers := PeerList(index);
    ClearStart(s, list, done);
    ClearRest(s, s, list, done, |list|, index, peers, 0);
    var r := ClearFrom(s, !s[index], peers, list, 0);
    assert Propagate(s, list, index) == r;
    StepFromClearing(r, s, list, done, index);
  }

  /** The end of the peer loop is a step outcome: the cell taken from the list is now settled. */
  lemma StepFromClearing(r: Outcome, s: seq<Mask>, list: seq<int>, done: nat, index: int)
    requires 0 <= index < 81 && ClearOutcome(r, s, done, |list|, index, PeerList(index), 20)
    requires done < |list| && list[done] == index && (r.Done? ==> list <= r.list)
    ensures StepOutcome(r, s, list, done)
  {
    if r.Done? {
      assert r.list[done] == list[done];
      ClearDone(r.grid, s, r.list, done, |list|, index, PeerList(index));
    }
  }

  /**
   * Propagation from a worklist state never overflows the 81-entry worklist;
   * when it finishes, every determined cell is settled (a fixed point), every
   * cell taken from the worklist is settled, candidates were only removed,
   * determined cells kept their digit, no candidate was added to the total and
   * every solution is still allowed; when it is stuck, no solution was possible.
   */
  lemma {:induction false} ConstrainSound(s: seq<Mask>, list: seq<int>, done: nat)
    requires Worklist(s, list, done)
    ensures var r := ConstrainFrom(s, list, done);
      && !r.Overflow?
      && (r.Stuck? ==> Shrunk(r.grid, s) && forall sol :: IsSolution(sol) ==> !Allows(s, sol))
      && (r.Done? ==> && FixedPoint(r.grid) && (forall k :: 0 <= k < |r.list| ==> Settled(r.grid, r.list[k]))
                      && Narrowed(r.grid, s) && KeepsSolutions(r.grid, s) && TotalPop(r.grid) <= TotalPop(s))
    decreases 81 - done
  {
    if done == |list| {
      assert Shrunk(s, s);
    } else {
      PropagateSound(s, list, done);
      var p := Propagate(s, list, list[done]);
      if p.Done? {
        ConstrainSound(p.grid, p.list, done + 1);
        var r := ConstrainFrom(p.grid, p.list, done + 1);
        if r.Done? {
          ShrunkTransitive(r.grid, p.grid, s);
        } else if r.Stuck? {
          ShrunkTransitive(r.grid, p.grid, s);
        }
      }
    }
  }

  /** Only determined cells below `n` are listed. */
  lemma {:induction false} SingletonsSound(s: seq<Mask>, n: nat)
    requires |s| == 81 && n <= 81
    ensures forall k :: 0 <= k < |Singletons(s, n)| ==> Singletons(s, n)[k] < n && IsSingle(s[Singletons(s, n)[k]])
  {
    if n > 0 {
      SingletonsSound(s, n - 1);
      var prev := Singletons(s, n - 1);
      var list := Singletons(s, n);
      if IsSingle(s[n - 1]) {
        assert list == prev + [n - 1];
        forall k | 0 <= k < |list| ensures list[k] < n && IsSingle(s[list[k]]) {
          if k < |prev| {
            assert list[k] == prev[k];
          } else {
            assert list[k] == n - 1;
          }
        }
      } else {
        assert list == prev;
      }
    }
  }

  /** The listed cells are in increasing order. */
  lemma {:induction false} SingletonsSorted(s: seq<Mask>, n: nat)
    requires |s| == 81 && n <= 81
    ensures forall a, b :: 0 <= a < b < |Singletons(s, n)| ==> Singletons(s, n)[a] < Singletons(s, n)[b]
  {
    if n > 0 {
      SingletonsSorted(s, n - 1);
      SingletonsSound(s, n - 1);
      var prev := Singletons(s, n - 1);
      var list := Singletons(s, n);
      if IsSingle(s[n - 1]) {
        assert list == prev + [n - 1];
        forall a, b | 0 <= a < b < |list| ensures list[a] < list[b] {
          assert list[a] == prev[a];
          if b < |prev| {
            assert list[b] == prev[b];
          } else {
            assert list[b] == n - 1;
          }
        }
      } else {
        assert list == prev;
      }
    }
  }

  /** Every determined cell below `n` is listed. */
  lemma {:induction false} SingletonsComplete(s: seq<Mask>, n: nat)
    requires |s| == 81 && n <= 81
    ensures forall i :: 0 <= i < n && IsSingle(s[i]) ==> i in Singletons(s, n)
  {
    if n > 0 {
      SingletonsComplete(s, n - 1);
      var prev := Singletons(s, n - 1);
      var list := Singletons(s, n);
      assert prev <= list;
      forall i | 0 <= i < n && IsSingle(s[i]) ensures i in list {
        if i == n - 1 {
          assert list[|prev|] == i;
        } else {
          assert i in prev;
        }
      }
    }
  }

  /**
   * The seeded worklist satisfies the worklist invariant: every determined
   * cell is listed, or, when the caller names the only cell it changed, that
   * cell is listed and every other determined cell is already settled.
   */
  lemma SeedWorklist(s: seq<Mask>, lastIndex: Option<int>)
    requires |s| == 81
    requires lastIndex.Some? ==> OnlyChanged(s, lastIndex.value)
    ensures Worklist(s, Seed(s, lastIndex), 0)
  {
    if lastIndex.None? {
      SingletonsSound(s, 81);
      SingletonsSorted(s, 81);
      SingletonsComplete(s, 81);
    } else {
      var list := Seed(s, lastIndex);
      forall i | 0 <= i < 81 && IsSingle(s[i]) ensures Settled(s, i) || i in list[0..] {
        if i == lastIndex.value {
          assert list[0..][0] == i;
        }
      }
    }
  }

  /**
   * `Constrain` never overflows its 81-entry worklist. When it fails, no
   * solution was possible; when it succeeds, the grid is a fixed point of
   * propagation, cells only lost candidates, determined cells kept their
   * digit, the total candidate count did not grow and every solution is
   * still allowed.
   */
  lemma ConstrainedSound(s: seq<Mask>, lastIndex: Option<int>)
    requires |s| == 81
    requires lastIndex.Some? ==> OnlyChanged(s, lastIndex.value)
    ensures var r := Constrained(s, lastIndex);
      && !r.Overflow?
      && (r.Stuck? ==> forall sol :: IsSolution(sol) ==> !Allows(s, sol))
      && (r.Done? ==> && FixedPoint(r.grid) && Narrowed(r.grid, s) && KeepsSolutions(r.grid, s)
                      && TotalPop(r.grid) <= TotalPop(s))
  {
    SeedWorklist(s, lastIndex);
    ConstrainSound(s, Seed(s, lastIndex), 0);
  }

  /** The part of `ConstrainedSound` the propagation code relies on. */
  lemma ConstrainedFits(s: seq<Mask>, lastIndex: Option<int>)
    requires |s| == 81
    requires lastIndex.Some? ==> OnlyChanged(s, lastIndex.value)
    ensures !Constrained(s, lastIndex).Overflow?
  {
    ConstrainedSound(s, lastIndex);
  }

  // ---------------------------------------------------------------------------
  // The propagation code.

  /**
   * Constraint propagation on the grid `sud` in place. The worklist starts
   * with `lastIndex` when the caller names the only cell it changed, else
   * with every determined cell in index order; each listed cell's digit is
   * removed from its peers, newly determined peers are appended, and the
   * first peer left with no candidate stops propagation with failure, the
   * writes made so far staying in place.
   */
  method Constrain(sud: array<Mask>, lastIndex: Option<int>) returns (ok: bool)
    requires sud.Length == 81
    requires lastIndex.Some? ==> OnlyChanged(sud[..], lastIndex.value)
    modifies sud
    ensures var r := Constrained(old(sud[..]), lastIndex);
      !r.Overflow? && sud[..] == r.grid && ok == r.Done?
  {
    ghost var s0 := sud[..];
    ghost var result := Constrained(s0, lastIndex);
    ConstrainedFits(s0, lastIndex);
    var recent := new int[81];
    var riBegin := 0;
    var riEnd := SeedList(sud, lastIndex, recent);
    while riEnd > riBegin
      invariant 0 <= riBegin <= riEnd <= 81 && InRange(recent[..riEnd])
      invariant ConstrainFrom(sud[..], recent[..riEnd], riBegin) == result
      decreases 81 - riBegin
    {
      var index := recent[riBegin];
      riBegin := riBegin + 1;
      ok, riEnd := ClearPeers(sud, index, recent, riEnd);
      if !ok {
        return;
      }
    }
    ok := true;
  }

  /** Fills the worklist `recent[..riEnd]` with its first entries. */
  method SeedList(sud: array<Mask>, lastIndex: Option<int>, recent: array<int>) returns (riEnd: int)
    requires sud.Length == 81 && recent.Length == 81 && sud as object != recent
    requires lastIndex.Some? ==> 0 <= lastIndex.value < 81
    modifies recent
    ensures 0 <= riEnd <= 81 && recent[..riEnd] == Seed(sud[..], lastIndex)
  {
    riEnd := 0;
    if lastIndex.Some? {
      recent[riEnd] := lastIndex.value;
      riEnd := riEnd + 1;
      assert recent[..riEnd] == [lastIndex.value];
    } else {
      for i := 0 to 81
        invariant 0 <= riEnd <= i && recent[..riEnd] == Singletons(sud[..], i)
      {
        if PopCount(sud[i]) == 1 {
          recent[riEnd] := i;
          riEnd := riEnd + 1;
        }
      }
    }
  }

  /**
   * The body of the propagation loop for the cell `index` just taken from the
   * worklist `recent[..riEnd0]`: its digit is removed from each of its 20
   * peers; a peer left with no candidate ends the step with failure, a peer
   * left with one is appended to the worklist.
   */
  method ClearPeers(sud: array<Mask>, index: int, recent: array<int>, riEnd0: int)
    returns (ok: bool, riEnd: int)
    requires sud.Length == 81 && recent.Length == 81 && sud as object != recent
    requires 0 <= index < 81 && 0 <= riEnd0 <= 81 && InRange(recent[..riEnd0])
    requires !Propagate(sud[..], recent[..riEnd0], index).Overflow?
    modifies sud, recent
    ensures var r := Propagate(old(sud[..]), old(recent[..riEnd0]), index);
      && sud[..] == r.grid && ok == r.Done?
      && (ok ==> riEnd0 <= riEnd <= 81 && recent[..riEnd] == r.list)
  {
    var invMask := !sud[index];
    var otherIndexes := PeerIndexes(index);
    PeerListInRange(index);
    ok, riEnd := ClearPeerList(sud, recent, invMask, otherIndexes, riEnd0);
  }

  /**
   * The loop over the peer list `others`: each peer in turn loses the
   * candidates outside `invMask`, until one is left with none.
   */
  method ClearPeerList(sud: array<Mask>, recent: array<int>, invMask: Mask, others: array<int>, riEnd0: int)
    returns (ok: bool, riEnd: int)
    requires sud.Length == 81 && recent.Length == 81 && sud as object != recent && others != recent
    requires others.Length == 20 && InRange(others[..])
    requires 0 <= riEnd0 <= 81 && InRange(recent[..riEnd0])
    requires !ClearFrom(sud[..], invMask, others[..], recent[..riEnd0], 0).Overflow?
    modifies sud, recent
    ensures var r := ClearFrom(old(sud[..]), invMask, others[..], old(recent[..riEnd0]), 0);
      && sud[..] == r.grid && ok == r.Done?
      && (ok ==> riEnd0 <= riEnd <= 81 && recent[..riEnd] == r.list)
  {
    ghost var peers := others[..];
    ghost var r := ClearFrom(sud[..], invMask, peers, recent[..riEnd0], 0);
    riEnd := riEnd0;
    var j := 0;
    while j < 20
      invariant 0 <= j <= 20 && riEnd0 <= riEnd <= 81
      invariant others[..] == peers && InRange(recent[..riEnd])
      invariant ClearFrom(sud[..], invMask, peers, recent[..riEnd], j) == r
    {
      var otherIndex := others[j];
      ClearFromNext(sud[..], invMask, peers, recent[..riEnd], j);
      ok, riEnd := ClearPeer(sud, recent, invMask, otherIndex, riEnd);
      if !ok {
        return;
      }
      j := j + 1;
    }
    ok := true;
  }

  /**
   * One step of the propagation loop: removes the candidates outside
   * `invMask` from cell `otherIndex`; the step fails when the cell is left
   * with no candidate, and the cell is appended to the worklist
   * `recent[..riEnd]` when it is left with exactly one.
   */
  method ClearPeer(sud: array<Mask>, recent: array<int>, invMask: Mask, otherIndex: int, riEnd: int)
    returns (ok: bool, riEnd': int)
    requires sud.Length == 81 && recent.Length == 81 && sud as object != recent
    requires 0 <= otherIndex < 81 && 0 <= riEnd <= 81 && InRange(recent[..riEnd])
    requires !ClearCell(sud[..], invMask, otherIndex, recent[..riEnd]).Overflow?
    modifies sud, recent
    ensures var r := ClearCell(old(sud[..]), invMask, otherIndex, old(recent[..riEnd]));
      && sud[..] == r.grid && ok == r.Done?
      && (ok ==> riEnd <= riEnd' <= 81 && recent[..riEnd'] == r.list)
  {
    var changed, newVal := Narrow(sud, invMask, otherIndex);
    ok, riEnd' := true, riEnd;
    if changed {
      var newBitCount := PopCount(newVal);
      if newBitCount == 0 {
        ok := false;
      } else if newBitCount == 1 {
        riEnd' := Append(recent, riEnd, otherIndex);
      }
    }
  }

  /**
   * Keeps only the candidates of cell `c` that are in `invMask`, writing the
   * cell only when that changes it; reports whether it changed and its new mask.
   */
  method Narrow(sud: array<Mask>, invMask: Mask, c: int) returns (changed: bool, newVal: Mask)
    requires sud.Length == 81 && 0 <= c < 81
    modifies sud
    ensures var s := old(sud[..]);
      && newVal == invMask & s[c]
      && changed == (newVal != s[c])
      && sud[..] == s[c := newVal]
  {
    ghost var s := sud[..];
    var oldVal := sud[c];
    newVal := invMask & oldVal;
    changed := newVal != oldVal;
    if changed {
      sud[c] := newVal;
    }
    assert sud[..] == s[c := newVal];
  }

  /** Appends `x` to the list held in `recent[..riEnd]`. */
  method Append(recent: array<int>, riEnd: int, x: int) returns (riEnd': int)
    requires 0 <= riEnd < recent.Length
    modifies recent
    ensures riEnd' == riEnd + 1 && recent[..riEnd'] == old(recent[..riEnd]) + [x]
  {
    recent[riEnd] := x;
    riEnd' := riEnd + 1;
    assert recent[..riEnd'] == old(recent[..riEnd]) + [x];
  }

  // ---------------------------------------------------------------------------
  // The search.

  /**
   * The cell the search branches on, as `sudSolve` picks it: -1 when every
   * cell is determined; otherwise an undetermined cell, the first one with
   * exactly two candidates if there is one, else the first one with the
   * fewest candidates (a cell with none counts too).
   */
  ghost predicate Chosen(s: seq<Mask>, b: int)
  {
    && |s| == 81
    && (b == -1 ==> AllSingle(s))
    && (b != -1 ==> 0 <= b < 81 && !IsSingle(s[b]) && BestOf(s, b))
  }

  /** The undetermined cell `b` is the first pair, or, when there is no pair, the first cell with the fewest candidates. */
  ghost predicate BestOf(s: seq<Mask>, b: int)
    requires |s| == 81 && 0 <= b < 81
  {
    if PopCount(s[b]) == 2 then
      forall k :: 0 <= k < b ==> PopCount(s[k]) != 2
    else
      forall k :: 0 <= k < 81 && k != b && !IsSingle(s[k]) ==>
        && PopCount(s[k]) != 2
        && (k < b ==> PopCount(s[k]) > PopCount(s[b]))
        && (k > b ==> PopCount(s[k]) >= PopCount(s[b]))
  }

  /** The choice is determined by the grid: at most one cell is chosen. */
  lemma ChosenUnique(s: seq<Mask>, a: int, b: int)
    requires Chosen(s, a) && Chosen(s, b)
    ensures a == b
  {
  }

  /** Selects the cell to branch on. */
  method SelectCell(sud: array<Mask>) returns (bestIndex: int)
    requires sud.Length == 81
    ensures Chosen(sud[..], bestIndex)
  {
    var minBitCount := 10;
    bestIndex := -1;
    for i := 0 to 81
      invariant -1 <= bestIndex < i || (i == 0 && bestIndex == -1)
      invariant bestIndex == -1 ==> minBitCount == 10 && forall k :: 0 <= k < i ==> IsSingle(sud[k])
      invariant bestIndex != -1 ==> && 0 <= bestIndex < i && !IsSingle(sud[bestIndex])
                                    && minBitCount == PopCount(sud[bestIndex]) != 2
      invariant forall k :: 0 <= k < i && !IsSingle(sud[k]) ==> PopCount(sud[k]) != 2
      invariant bestIndex != -1 ==> forall k :: 0 <= k < i && k != bestIndex && !IsSingle(sud[k]) ==>
                  && (k < bestIndex ==> PopCount(sud[k]) > minBitCount)
                  && (k > bestIndex ==> PopCount(sud[k]) >= minBitCount)
    {
      var bitCount := PopCount(sud[i]);
      PopCountBound(sud[i]);
      if bitCount == 1 {
        continue;
      }
      if bitCount == 2 {
        bestIndex := i;
        break;
      }
      if bitCount < minBitCount {
        minBitCount := bitCount;
        bestIndex := i;
      }
    }
  }

  /** A fresh copy of the grid, as `Arrays.copyOf` makes it. */
  method CopyGrid(sud: array<Mask>) returns (cp: array<Mask>)
    ensures fresh(cp) && cp.Length == sud.Length && cp[..] == sud[..]
  {
    cp := new Mask[sud.Length];
    for i := 0 to sud.Length
      invariant cp[..i] == sud[..i]
    {
      cp[i] := sud[i];
    }
  }

  /**
   * Fixing candidate `val` of the undetermined cell `best` of a fixed point
   * gives a grid the recursive call may name `best` for, with fewer
   * candidates in total, that keeps every solution with `val` there.
   */
  lemma Branch(t: seq<Mask>, best: int, val: int)
    requires FixedPoint(t) && 0 <= best < 81 && !IsSingle(t[best]) && Has(t[best], val)
    ensures var u := t[best := Bit(val)];
      && OnlyChanged(u, best)
      && Shrunk(u, t)
      && TotalPop(u) < TotalPop(t)
      && (forall sol :: IsSolution(sol) && Allows(t, sol) && sol[best] == val ==> Allows(u, sol))
  {
    var u := t[best := Bit(val)];
    BitIsSingle(val);
    forall d ensures Has(Bit(val), d) <==> d == val {
      BitHas(val, d);
    }
    SubMaskHas(Bit(val), t[best]);
    assert Shrunk(u, t);
    forall i | 0 <= i < 81 && i != best && IsSingle(u[i]) ensures Settled(u, i) {
      assert Settled(t, i);
      forall p | IsPeer(i, p) ensures u[p] & u[i] == 0 {
        if p == best {
          assert t[p] & t[i] == 0;
        }
      }
    }
    EmptyMask(t[best]);
    TotalPopUpdate(t, best, Bit(val));
  }

  /**
   * After candidate `val` of `best` is ruled out, either because `t` does not
   * allow it or because no solution has it there, every solution `t` allows
   * has a larger digit there.
   */
  lemma NextCandidate(t: seq<Mask>, best: int, val: int)
    requires |t| == 81 && 0 <= best < 81 && 1 <= val <= 9
    requires forall sol :: IsSolution(sol) && Allows(t, sol) ==> sol[best] >= val
    requires Has(t[best], val) ==> forall sol :: IsSolution(sol) && Allows(t, sol) ==> sol[best] != val
    ensures forall sol :: IsSolution(sol) && Allows(t, sol) ==> sol[best] >= val + 1
  {
    forall sol | IsSolution(sol) && Allows(t, sol) ensures sol[best] != val {
      assert Has(t[best], sol[best]);
    }
  }

  /** While candidates remain, the low bit of the shifted mask says whether `val` is one of them. */
  lemma CandidateBit(m: Mask, val: int, mask: Mask)
    requires 1 <= val <= 10 && mask == Shr(m, val - 1) && mask != 0
    ensures val <= 9 && (1 & mask == 1) == Has(m, val) && mask >> 1 == Shr(m, val)
  {
    ShrZero(m, val - 1);
    ShrStep(m, val - 1);
  }

  /**
   * Once every candidate of `best` has been tried, no solution allowed by
   * `t` is left.
   */
  lemma Exhausted(t: seq<Mask>, best: int, val: int)
    requires |t| == 81 && 0 <= best < 81 && 1 <= val <= 10 && Shr(t[best], val - 1) == 0
    requires forall sol :: IsSolution(sol) && Allows(t, sol) ==> sol[best] >= val
    ensures forall sol :: IsSolution(sol) ==> !Allows(t, sol)
  {
    ShrZero(t[best], val - 1);
  }

  /**
   * Solves the grid by propagation and search, as `sudSolve` does. The grid
   * is left as propagation left it. On success, `solution` is the grid that
   * is printed: every cell determined, its digits a solution allowed by the
   * initial grid. On failure, the initial grid allowed no solution.
   */
  method Solve(sud: array<Mask>, lastIndex: Option<int>) returns (solved: bool, solution: seq<Mask>)
    requires sud.Length == 81
    requires lastIndex.Some? ==> OnlyChanged(sud[..], lastIndex.value)
    modifies sud
    ensures var r := Constrained(old(sud[..]), lastIndex); !r.Overflow? && sud[..] == r.grid
    ensures solved ==> && |solution| == 81 && AllSingle(solution) && FixedPoint(solution)
                       && IsSolution(Digits(solution)) && Allows(old(sud[..]), Digits(solution))
    ensures !solved ==> forall sol :: IsSolution(sol) ==> !Allows(old(sud[..]), sol)
    decreases TotalPop(sud[..]), 2
  {
    ghost var s0 := sud[..];
    ConstrainedSound(s0, lastIndex);
    var ok := Constrain(sud, lastIndex);
    if !ok {
      return false, [];
    }
    ghost var t := sud[..];
    var bestIndex := SelectCell(sud);
    if bestIndex == -1 {
      FixedPointIsSolution(t);
      DigitsAllowed(t, s0);
      return true, sud[..];
    }
    solved, solution := TryCandidates(sud, bestIndex);
    if solved {
      AllowsShrunk(t, s0, Digits(solution));
    }
  }

  /**
   * The branching loop of `sudSolve`: tries each candidate of the undetermined
   * cell `bestIndex` in increasing order on a copy of the grid, stopping at
   * the first that solves, so no solution the grid allows has a smaller
   * digit there. On failure, the grid allowed no solution.
   */
  method TryCandidates(sud: array<Mask>, bestIndex: int) returns (solved: bool, solution: seq<Mask>)
    requires sud.Length == 81 && FixedPoint(sud[..]) && 0 <= bestIndex < 81 && !IsSingle(sud[bestIndex])
    ensures solved ==> && |solution| == 81 && AllSingle(solution) && FixedPoint(solution)
                       && IsSolution(Digits(solution)) && Allows(sud[..], Digits(solution))
    ensures solved ==> forall sol :: IsSolution(sol) && Allows(sud[..], sol) ==> sol[bestIndex] >= Digits(solution)[bestIndex]
    ensures !solved ==> forall sol :: IsSolution(sol) ==> !Allows(sud[..], sol)
    decreases TotalPop(sud[..]), 1
  {
    ghost var t := sud[..];
    var mask := sud[bestIndex];
    var val := 1;
    while mask != 0
      invariant 1 <= val <= 10 && mask == Shr(t[bestIndex], val - 1)
      invariant forall sol :: IsSolution(sol) && Allows(t, sol) ==> sol[bestIndex] >= val
      decreases 10 - val
    {
      CandidateBit(t[bestIndex], val, mask);
      if 1 & mask == 1 {
        solved, solution := TryCandidate(sud, bestIndex, val);
        if solved {
          return;
        }
      }
      NextCandidate(t, bestIndex, val);
      mask := mask >> 1;
      val := val + 1;
    }
    Exhausted(t, bestIndex, val);
    return false, [];
  }

  /**
   * One branch of the search: solves a copy of the grid with candidate `val`
   * fixed in cell `bestIndex`. On success the solution has `val` there; on
   * failure, no solution allowed by the grid has `val` there.
   */
  method TryCandidate(sud: array<Mask>, bestIndex: int, val: int) returns (solved: bool, solution: seq<Mask>)
    requires sud.Length == 81 && FixedPoint(sud[..]) && 0 <= bestIndex < 81
    requires !IsSingle(sud[bestIndex]) && Has(sud[bestIndex], val)
    ensures solved ==> && |solution| == 81 && AllSingle(solution) && FixedPoint(solution)
                       && IsSolution(Digits(solution)) && Allows(sud[..], Digits(solution))
    ensures solved ==> Digits(solution)[bestIndex] == val
    ensures !solved ==> forall sol :: IsSolution(sol) && Allows(sud[..], sol) ==> sol[bestIndex] != val
    decreases TotalPop(sud[..]), 0
  {
    ghost var t := sud[..];
    Branch(t, bestIndex, val);
    var sudCP := CopyGrid(sud);
    sudCP[bestIndex] := Bit(val);
    ghost var u := sudCP[..];
    assert u == t[bestIndex := Bit(val)];
    solved, solution := Solve(sudCP, Some(bestIndex));
    if solved {
      AllowsShrunk(u, t, Digits(solution));
      assert Has(u[bestIndex], Digits(solution)[bestIndex]);
      BitHas(val, Digits(solution)[bestIndex]);
    }
  }
}
