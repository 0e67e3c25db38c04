/**
 * The game board of Game.java as a class: the flood fills dfsMark and
 * dfsKill, gravity (redCol, redRow), playing a move, detecting the end of
 * the game and the end-of-game score, each proved against the
 * specification in module Rules.
 */
module SameGame {
  import opened Flood
  import opened Columns
  import opened Rules

  // ---------------------------------------------------------------------
  // The game

  class Game {
    const xs: nat
    const ys: nat
    const colors: nat
    var board: seq<seq<int>>
    var mark: seq<seq<bool>>
    var score: int

    ghost predicate Valid()
      reads this`board, this`mark
    {
      && 0 < xs && 0 < ys
      && Painted(board, xs, ys, colors) && Grid(mark, xs, ys)
    }

    /** Loads the board from the logical board b, which lists the
        colours 1..colors column by column (entry x * ys + y is cell
        (x, y)); nothing is marked and the score is 0. */
    constructor(w: nat, h: nat, k: nat, b: seq<int>)
      requires 0 < w && 0 < h && |b| == w * h
      requires forall n :: 0 <= n < |b| ==> 1 <= b[n] <= k
      ensures xs == w && ys == h && colors == k && Valid()
      ensures Loaded(board, b, xs, ys) && NoneMarked(mark) && score == 0
    {
      var cols: seq<seq<int>> := [];
      for i := 0 to w
        invariant |cols| == i && forall x :: 0 <= x < i ==> |cols[x]| == h
        invariant Loaded(cols, b, i, h)
      {
        var base := i * h;
        IndexBound(Cell(i, h - 1), w, h);
        var col: seq<int> := [];
        for j := 0 to h
          invariant |col| == j && forall y :: 0 <= y < j ==> col[y] == b[base + y]
        {
          col := col + [b[base + j]];
        }
        LoadedPush(cols, col, b, i, h);
        cols := cols + [col];
      }
      forall x, y | 0 <= x < w && 0 <= y < h ensures 0 <= cols[x][y] <= k {
      }
      xs, ys, colors := w, h, k;
      board := cols;
      mark := seq(w, _ => Unlit(h));
      score := 0;
    }

    /** Gravity in column x: the blocks fall to the bottom of the column
        and keep their order. */
    method RedCol(x: int)
      requires Valid() && 0 <= x < xs
      modifies this`board
      ensures Valid()
      ensures board == old(board)[x := Settle(old(board)[x])]
    {
      var col := board[x];
      ghost var c0 := col;
      var i, cnt := ys - 1, 0;
      ColScanStart(c0);
      while i >= 0
        invariant ColScan(c0, i, cnt, col)
        invariant board == old(board)
        decreases i + 1
      {
        ColScanStep(c0, i, cnt, col);
        if col[i] == Bg {
          cnt := cnt + 1;
        } else if cnt > 0 {
          col := col[i + cnt := col[i]][i := Bg];
        }
        i := i - 1;
      }
      ColScanEnd(c0, cnt, col);
      SettleRange(c0, colors);
      PaintedColumn(board, xs, ys, colors, x, col);
      board := board[x := col];
    }

    /** Shifts the empty columns out to the right: every column whose
        bottom cell holds a block moves left past the empty ones. */
    method RedRow()
      requires Valid()
      modifies this`board
      ensures Valid()
      ensures board == Collapse(old(board), ys)
    {
      var cols := board;
      ghost var B0 := cols;
      var i, cnt := 0, 0;
      RowScanStart(B0, ys);
      while i < xs
        invariant RowScan(B0, i, cnt, cols, ys)
        invariant board == old(board)
      {
        RowScanLook(B0, i, cnt, cols, ys);
        assert |B0[i]| == ys;
        if cols[i][ys - 1] == Bg {
          RowSkip(B0, i, cnt, cols, ys);
          cnt := cnt + 1;
        } else if cnt > 0 {
          RowMove(B0, i, cnt, cols, ys);
          cols := cols[i - cnt := cols[i]][i := Blank(ys)];
        } else {
          RowKeep(B0, i, cnt, cols, ys);
        }
        i := i + 1;
      }
      RowScanEnd(B0, i, cnt, cols, ys);
      PaintedCollapse(B0, xs, ys, colors);
      board := cols;
    }

    /** Marks the not yet marked cells of colour prv that are 4-connected
        to (x, y) through such cells, and returns how many it marked. */
    method DfsMark(x: int, y: int, prv: int) returns (sum: int, ghost group: set<Cell>)
      requires Valid()
      modifies this`mark
      ensures Valid()
      ensures IsGroup(Unmarked(board, old(mark), prv), Cell(x, y), group)
      ensures MarkedFrom(mark, old(mark), group)
      ensures sum == |group|
      decreases |Unmarked(board, mark, prv)|
    {
      var p := Cell(x, y);
      if x < 0 || x >= xs || y < 0 || y >= ys || prv != board[x][y] || mark[x][y] {
        NotEligibleGroup(Unmarked(board, mark, prv), p);
        return 0, {};
      }
      ghost var M0 := mark;
      ghost var E := Unmarked(board, M0, prv);
      GridSet(mark, xs, ys, x, y, true);
      mark := mark[x := mark[x][y := true]];
      sum := 1;
      group := {p};
      var ns := Neighbours(p);
      GrowStart(E, p);
      for i := 0 to 4
        invariant Valid()
        invariant MarkFill(board, M0, mark, prv, p, group, ns[i..], sum)
      {
        MarkFillMeasure(board, M0, mark, prv, p, group, ns[i..], sum);
        ghost var M1 := mark;
        var s, g := DfsMark(ns[i].x, ns[i].y, prv);
        MarkFillStep(board, M0, M1, mark, prv, p, group, ns[i..], sum, s, g);
        assert ns[i..][1..] == ns[i + 1..];
        sum, group := sum + s, group + g;
      }
      GrowEnd(E, p, group);
    }

    /** Turns the 4-connected group of colour prv around (x, y) into Bg
        and returns its size. */
    method DfsKill(x: int, y: int, prv: int) returns (sum: int, ghost group: set<Cell>)
      requires Valid() && prv != Bg
      modifies this`board
      ensures Valid()
      ensures IsGroup(Colored(old(board), prv), Cell(x, y), group)
      ensures ErasedFrom(board, old(board), group)
      ensures sum == |group|
      decreases |Colored(board, prv)|
    {
      var p := Cell(x, y);
      if x < 0 || x >= xs || y < 0 || y >= ys || prv != board[x][y] {
        NotEligibleGroup(Colored(board, prv), p);
        return 0, {};
      }
      ghost var B0 := board;
      ghost var E := Colored(B0, prv);
      PaintedSet(board, xs, ys, colors, x, y, Bg);
      board := board[x := board[x][y := Bg]];
      sum := 1;
      group := {p};
      var ns := Neighbours(p);
      GrowStart(E, p);
      for i := 0 to 4
        invariant Valid()
        invariant KillFill(B0, board, prv, p, group, ns[i..], sum)
      {
        KillFillMeasure(B0, board, prv, p, group, ns[i..], sum);
        ghost var B1 := board;
        var s, g := DfsKill(ns[i].x, ns[i].y, prv);
        KillFillStep(B0, B1, board, prv, p, group, ns[i..], sum, s, g);
        assert ns[i..][1..] == ns[i + 1..];
        sum, group := sum + s, group + g;
      }
      GrowEnd(E, p, group);
    }

    /** makeMove's gravity loop: redCol on every column. */
    method Fall()
      requires Valid()
      modifies this`board
      ensures Valid() && board == SettleAll(old(board))
    {
      for i := 0 to xs
        invariant Valid() && |board| == |old(board)|
        invariant forall k :: 0 <= k < xs ==> board[k] == if k < i then Settle(old(board)[k]) else old(board)[k]
      {
        RedCol(i);
      }
      assert board == SettleAll(old(board));
    }

    /** Removes the group of the block at (x, y) when that is a legal move,
        then lets the blocks fall, shifts out the empty columns, and adds
        the end-of-game score when gameOver finds no move left; an illegal
        move leaves everything as it was. */
    method MakeMove(x: int, y: int) returns (legal: bool)
      requires Valid() && 0 <= x < xs && 0 <= y < ys
      modifies this`board, this`mark, this`score
      ensures Valid()
      ensures legal <==> Legal(old(board), Cell(x, y))
      ensures !legal ==> board == old(board) && mark == old(mark) && score == old(score)
      ensures legal ==> board == Played(old(board), ys, Cell(x, y))
      ensures legal ==> score == old(score) + Sq(|GroupAt(old(board), Cell(x, y))| - 2) +
                                 if HasFreeMove(board, old(mark)) then 0 else EndValue(board, ys, colors)
      ensures legal ==> if board[0][ys - 1] == Bg then mark == old(mark) else NoneMarked(mark)
    {
      ghost var c := Cell(x, y);
      if board[x][y] == Bg {
        return false;
      }
      ghost var B0 := board;
      var tmp := board[x][y];
      var sum, g := DfsKill(x, y, board[x][y]);
      KilledGroup(B0, c, g);
      if sum < 2 {
        RestoreCell(B0, board, c);
        board := board[x := board[x][y := tmp]];
        return false;
      }
      ErasedIs(board, B0, g);
      Resolve(sum);
      legal := true;
    }

    /** MakeMove with the marks cleared first, as gameOver's scan needs:
        the end-of-game score is added exactly when no move is left. */
    method PlayMove(x: int, y: int) returns (legal: bool)
      requires Valid() && 0 <= x < xs && 0 <= y < ys
      modifies this`board, this`mark, this`score
      ensures Valid() && NoneMarked(mark)
      ensures legal <==> Legal(old(board), Cell(x, y))
      ensures !legal ==> board == old(board) && score == old(score)
      ensures legal ==> board == Played(old(board), ys, Cell(x, y))
      ensures legal ==> score == old(score) + Sq(|GroupAt(old(board), Cell(x, y))| - 2) +
                                 if HasMove(board) then 0 else EndValue(board, ys, colors)
    {
      ClearMarks();
      ghost var M := mark;
      assert board == old(board) && score == old(score);
      legal := MakeMove(x, y);
      FreeMoveUnmarked(board, M, xs, ys);
    }

    /** The rest of a legal move that removed n blocks: scoring it, gravity,
        collapsing, and the end-of-game score when no move is left. */
    method Resolve(n: int)
      requires Valid()
      modifies this`board, this`mark, this`score
      ensures Valid() && board == Collapse(SettleAll(old(board)), ys)
      ensures score == old(score) + Sq(n - 2) +
                       if HasFreeMove(board, old(mark)) then 0 else EndValue(board, ys, colors)
      ensures if board[0][ys - 1] == Bg then mark == old(mark) else NoneMarked(mark)
    {
      score := score + Sq(n - 2);
      Fall();
      RedRow();
      Tidy(old(board), xs, ys, colors);
      ghost var M0 := mark;
      var over := GameOver();
      if over {
        ghost var M1 := mark;
        var e := EndScore();
        score := score + e;
        if board[0][ys - 1] == Bg {
          MarksKept(board, M0, M1, xs, ys);
        }
      }
    }

    /** Clears every mark, column by column. */
    method ClearMarks()
      requires Valid()
      modifies this`mark
      ensures Valid() && NoneMarked(mark)
    {
      for i := 0 to xs
        invariant Valid()
        invariant forall x, y :: 0 <= x < i && 0 <= y < ys ==> !mark[x][y]
      {
        mark := mark[i := Unlit(ys)];
      }
    }

    /** Scans the board for a block whose group, among the blocks not yet
        marked, has more than one block.  The blocks visited in the scan
        stay marked, so a group marked before the call is invisible to it. */
    method GameOver() returns (over: bool)
      requires Valid()
      modifies this`mark
      ensures Valid()
      ensures over <==> !HasFreeMove(board, old(mark))
      ensures !over ==> NoneMarked(mark)
      ensures over ==> forall x, y :: 0 <= x < xs && 0 <= y < ys ==>
                mark[x][y] == (old(mark)[x][y] || board[x][y] != Bg)
    {
      ghost var M0 := mark;
      for i := 0 to xs
        invariant Valid()
        invariant ScanMarked(board, M0, mark, xs, ys, i, 0) && NoFreeBefore(board, M0, i, 0)
      {
        for j := 0 to ys
          invariant Valid()
          invariant ScanMarked(board, M0, mark, xs, ys, i, j) && NoFreeBefore(board, M0, i, j)
        {
          if board[i][j] != Bg {
            ghost var M1 := mark;
            var a, g := DfsMark(i, j, board[i][j]);
            ScanLook(board, M0, M1, xs, ys, i, j, g);
            if a > 1 {
              ClearMarks();
              return false;
            }
            ScanMarkCell(board, M0, M1, mark, xs, ys, i, j, g);
          } else {
            ScanSkip(board, M0, mark, xs, ys, i, j);
          }
        }
        ScanRow(board, M0, mark, xs, ys, i);
      }
      ScanDone(board, M0, mark, xs, ys);
      return true;
    }

    /** endScore's inner loop over the colours: adds one to the count of
        colour v, kept at cnt[v - 1]. */
    static method Count(cnt: array<int>, v: int)
      modifies cnt
      ensures Bumped(old(cnt[..]), cnt[..], v)
    {
      for k := 0 to cnt.Length
        invariant forall t :: 0 <= t < cnt.Length ==>
          cnt[t] == old(cnt[t]) + if t < k && v == t + 1 then 1 else 0
      {
        if v == k + 1 {
          cnt[k] := cnt[k] + 1;
        }
      }
    }

    /** One cell of endScore's scan, the body of its double loop: a group
        of more than one block met for the first time scores Sq(n - 2),
        any other block counts as left over for its colour. */
    method ScoreCell(i: int, j: int, ans: int, cnt: array<int>, ghost V: set<Cell>)
      returns (ans2: int, ghost V2: set<Cell>)
      requires Valid() && 0 <= i < xs && 0 <= j < ys
      requires EndScan(board, mark, V, xs, ys, ans, cnt[..], i, j)
      modifies this`mark, cnt
      ensures Valid() && EndScan(board, mark, V2, xs, ys, ans2, cnt[..], i, j + 1)
    {
      if board[i][j] != Bg {
        ans2, V2 := ScoreBlock(i, j, ans, cnt, V);
      } else {
        ans2, V2 := ans, V;
        EndStep(board, mark, mark, V, V, xs, ys, ans, ans, cnt[..], cnt[..], i, j, {});
      }
    }

    /** ScoreCell at a block. */
    method ScoreBlock(i: int, j: int, ans: int, cnt: array<int>, ghost V: set<Cell>)
      returns (ans2: int, ghost V2: set<Cell>)
      requires Valid() && 0 <= i < xs && 0 <= j < ys && board[i][j] != Bg
      requires EndScan(board, mark, V, xs, ys, ans, cnt[..], i, j)
      modifies this`mark, cnt
      ensures Valid() && EndScan(board, mark, V2, xs, ys, ans2, cnt[..], i, j + 1)
    {
      ghost var M1, c0 := mark, cnt[..];
      var area, g := DfsMark(i, j, board[i][j]);
      V2 := V + g;
      if area > 1 {
        ans2 := ans + Sq(area - 2);
      } else {
        ans2 := ans;
        Count(cnt, board[i][j]);
      }
      EndStep(board, M1, mark, V, V2, xs, ys, ans, ans2, c0, cnt[..], i, j, g);
    }

    /** The double loop of endScore over clear marks: afterwards ans is
        what the credited groups score and cnt[t] is how many blocks of
        colour t + 1 are left over. */
    method Sweep(cnt: array<int>) returns (ans: int)
      requires Valid() && NoneMarked(mark)
      requires cnt.Length == colors && forall t :: 0 <= t < cnt.Length ==> cnt[t] == 0
      modifies this`mark, cnt
      ensures Valid() && board == old(board)
      ensures ans == Gained(board, ys, xs, 0) && Tallied(board, ys, cnt[..], xs, 0)
    {
      ans := 0;
      ghost var V: set<Cell> := {};
      SweepStart(board);
      for i := 0 to xs
        invariant Valid() && board == old(board)
        invariant EndScan(board, mark, V, xs, ys, ans, cnt[..], i, 0)
      {
        ans, V := SweepColumn(i, ans, cnt, V);
      }
    }

    /** Column i of endScore's scan, top to bottom. */
    method SweepColumn(i: int, ans: int, cnt: array<int>, ghost V: set<Cell>)
      returns (ans2: int, ghost V2: set<Cell>)
      requires Valid() && 0 <= i < xs
      requires EndScan(board, mark, V, xs, ys, ans, cnt[..], i, 0)
      modifies this`mark, cnt
      ensures Valid() && EndScan(board, mark, V2, xs, ys, ans2, cnt[..], i + 1, 0)
    {
      ans2, V2 := ans, V;
      for j := 0 to ys
        invariant Valid() && EndScan(board, mark, V2, xs, ys, ans2, cnt[..], i, j)
      {
        ans2, V2 := ScoreCell(i, j, ans2, cnt, V2);
      }
      EndStepRow(board, mark, V2, xs, ys, ans2, cnt[..], i);
    }

    /** The end-of-game score: 1000 when the bottom-left cell is empty, the
        marks left as they were; otherwise every group of n > 1 blocks
        scores Sq(n - 2) at its first cell in scan order, and every colour k
        pays Sq(m - 2), where m counts its other blocks: single blocks and
        the later cells of the credited groups. */
    method EndScore() returns (r: int)
      requires Valid()
      modifies this`mark
      ensures Valid()
      ensures r == EndValue(board, ys, colors)
      ensures board[0][ys - 1] == Bg ==> mark == old(mark)
      ensures board[0][ys - 1] != Bg ==> NoneMarked(mark)
    {
      if board[0][ys - 1] == Bg {
        return 1000;
      }
      var cnt := new int[colors](_ => 0);
      ClearMarks();
      var ans := Sweep(cnt);
      for t := 0 to colors
        invariant ans == Gained(board, ys, xs, 0) - Penalty(board, ys, t)
      {
        ans := ans - Sq(cnt[t] - 2);
      }
      EndValueOfScan(board, xs, ys, colors, ans);
      ClearMarks();
      r := ans;
    }
  }
}
