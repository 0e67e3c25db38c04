/**
 * The specification side of the SameGame rules of the interactive board
 * (Game.java): flood fills
 * that measure and remove a group, gravity inside a column, collapsing
 * empty columns to the left, playing a move, detecting the end of the
 * game and the end-of-game score.
 *
 * The board is a sequence of columns, board[x][y] with x the column
 * (0 = left) and y the row (0 = top, ys - 1 = bottom).  Colours are
 * 1..colors and Bg (0) is an empty cell.  Columns are values: the shared
 * all-empty column array of the original is the value Blank(ys).
 */
module Rules {
  import opened Flood
  import opened Columns

  /** The score of removing a group of n blocks is Sq(n - 2). */
  function Sq(n: int): int { n * n }

  // ---------------------------------------------------------------------
  // Boards as values

  ghost predicate Grid<T>(B: seq<seq<T>>, xs: nat, ys: nat) {
    |B| == xs && forall x :: 0 <= x < xs ==> |B[x]| == ys
  }

  /** An xs-by-ys grid of colours 0..colors. */
  ghost predicate Painted(B: seq<seq<int>>, xs: nat, ys: nat, colors: int) {
    Grid(B, xs, ys) && forall x, y :: 0 <= x < xs && 0 <= y < ys ==> 0 <= B[x][y] <= colors
  }

  lemma PaintedCollapse(B: seq<seq<int>>, xs: nat, ys: nat, colors: int)
    requires Painted(B, xs, ys, colors)
    ensures Painted(Collapse(B, ys), xs, ys, colors)
  {
    CollapseRange(B, ys, colors);
  }

  lemma PaintedColumn(B: seq<seq<int>>, xs: nat, ys: nat, colors: int, x: int, col: seq<int>)
    requires Painted(B, xs, ys, colors) && 0 <= x < xs && |col| == ys
    requires forall y :: 0 <= y < ys ==> 0 <= col[y] <= colors
    ensures Painted(B[x := col], xs, ys, colors)
  {
  }

  lemma PaintedSet(B: seq<seq<int>>, xs: nat, ys: nat, colors: int, x: int, y: int, v: int)
    requires Painted(B, xs, ys, colors) && 0 <= x < xs && 0 <= y < ys && 0 <= v <= colors
    ensures Painted(B[x := B[x][y := v]], xs, ys, colors)
  {
  }

  lemma GridSet<T>(M: seq<seq<T>>, xs: nat, ys: nat, x: int, y: int, v: T)
    requires Grid(M, xs, ys) && 0 <= x < xs && 0 <= y < ys
    ensures Grid(M[x := M[x][y := v]], xs, ys)
  {
  }

  predicate InGrid(c: Cell, xs: int, ys: int) {
    0 <= c.x < xs && 0 <= c.y < ys
  }

  /** The cells of colour k. */
  ghost function Colored(B: seq<seq<int>>, k: int): (S: set<Cell>)
    ensures forall c :: c in S <==> 0 <= c.x < |B| && 0 <= c.y < |B[c.x]| && B[c.x][c.y] == k
  {
    set x, y | 0 <= x < |B| && 0 <= y < |B[x]| && B[x][y] == k :: Cell(x, y)
  }

  /** The cells of colour k that are not marked. */
  ghost function Unmarked(B: seq<seq<int>>, M: seq<seq<bool>>, k: int): (S: set<Cell>)
    ensures forall c :: c in S <==>
      0 <= c.x < |B| && 0 <= c.y < |B[c.x]| && B[c.x][c.y] == k &&
      c.x < |M| && c.y < |M[c.x]| && !M[c.x][c.y]
  {
    set x, y | 0 <= x < |B| && 0 <= y < |B[x]| && B[x][y] == k && x < |M| && y < |M[x]| && !M[x][y] :: Cell(x, y)
  }

  /** B2 is B1 with the cells of S turned into Bg. */
  ghost predicate ErasedFrom(B2: seq<seq<int>>, B1: seq<seq<int>>, S: set<Cell>) {
    && |B2| == |B1|
    && (forall x :: 0 <= x < |B1| ==> |B2[x]| == |B1[x]|)
    && forall x, y :: 0 <= x < |B1| && 0 <= y < |B1[x]| ==>
         B2[x][y] == if Cell(x, y) in S then Bg else B1[x][y]
  }

  /** M2 is M1 with the cells of S marked. */
  ghost predicate MarkedFrom(M2: seq<seq<bool>>, M1: seq<seq<bool>>, S: set<Cell>) {
    && |M2| == |M1|
    && (forall x :: 0 <= x < |M1| ==> |M2[x]| == |M1[x]|)
    && forall x, y :: 0 <= x < |M1| && 0 <= y < |M1[x]| ==>
         M2[x][y] == (M1[x][y] || Cell(x, y) in S)
  }

  /** A column of ys cleared marks. */
  function Unlit(n: nat): (r: seq<bool>)
    ensures |r| == n && forall i :: 0 <= i < n ==> !r[i]
  {
    seq(n, _ => false)
  }

  ghost predicate NoneMarked(M: seq<seq<bool>>) {
    forall x, y :: 0 <= x < |M| && 0 <= y < |M[x]| ==> !M[x][y]
  }

  /** A move exists: some block has a neighbour of its own colour, that
      is, belongs to a group of at least two blocks. */
  ghost predicate HasMove(B: seq<seq<int>>) {
    exists c, d :: InGroupPair(B, c, d)
  }

  ghost predicate InGroupPair(B: seq<seq<int>>, c: Cell, d: Cell) {
    && 0 <= c.x < |B| && 0 <= c.y < |B[c.x]| && 0 <= d.x < |B| && 0 <= d.y < |B[d.x]|
    && B[c.x][c.y] != Bg && Adjacent(c, d) && B[d.x][d.y] == B[c.x][c.y]
  }

  predicate InBoard<T>(B: seq<seq<T>>, c: Cell) {
    0 <= c.x < |B| && 0 <= c.y < |B[c.x]|
  }

  /** A pair of adjacent same-colour blocks neither of which is marked in M:
      what gameOver's scan can find. */
  ghost predicate FreePair(B: seq<seq<int>>, M: seq<seq<bool>>, c: Cell, d: Cell) {
    && InGroupPair(B, c, d)
    && InBoard(M, c) && InBoard(M, d) && !M[c.x][c.y] && !M[d.x][d.y]
  }

  ghost predicate HasFreeMove(B: seq<seq<int>>, M: seq<seq<bool>>) {
    exists c, d :: FreePair(B, M, c, d)
  }

  /** With no marks, the moves gameOver can find are all the moves. */
  lemma FreeMoveUnmarked(B: seq<seq<int>>, M: seq<seq<bool>>, xs: nat, ys: nat)
    requires Grid(B, xs, ys) && Grid(M, xs, ys) && NoneMarked(M)
    ensures HasFreeMove(B, M) <==> HasMove(B)
  {
    if HasMove(B) {
      var c, d :| InGroupPair(B, c, d);
      assert FreePair(B, M, c, d);
    }
  }

  /** Scan order of gameOver and endScore: column by column, top to
      bottom; Before(c, i, j) says c comes before cell (i, j). */
  predicate Before(c: Cell, i: int, j: int) {
    c.x < i || (c.x == i && c.y < j)
  }

  // ---------------------------------------------------------------------
  // Proof states of the two flood fills

  lemma UnmarkedAfter(B: seq<seq<int>>, M1: seq<seq<bool>>, M2: seq<seq<bool>>, S: set<Cell>, k: int)
    requires MarkedFrom(M2, M1, S) && |B| == |M1|
    ensures Unmarked(B, M2, k) == Unmarked(B, M1, k) - S
  {
  }

  lemma ColoredAfter(B1: seq<seq<int>>, B2: seq<seq<int>>, S: set<Cell>, k: int)
    requires ErasedFrom(B2, B1, S) && k != Bg
    ensures Colored(B2, k) == Colored(B1, k) - S
  {
  }

  /** The state of dfsMark at p once the groups of some neighbours have
      been marked: what is marked beyond M0 is acc, and sum counts it. */
  ghost predicate MarkFill(B: seq<seq<int>>, M0: seq<seq<bool>>, M: seq<seq<bool>>, k: int,
                           p: Cell, acc: set<Cell>, pending: seq<Cell>, sum: int)
  {
    && |B| == |M0|
    && Growing(Unmarked(B, M0, k), p, acc, pending)
    && MarkedFrom(M, M0, acc)
    && sum == |acc|
  }

  lemma MarkFillMeasure(B: seq<seq<int>>, M0: seq<seq<bool>>, M: seq<seq<bool>>, k: int,
                        p: Cell, acc: set<Cell>, pending: seq<Cell>, sum: int)
    requires MarkFill(B, M0, M, k, p, acc, pending, sum)
    ensures Unmarked(B, M, k) == Unmarked(B, M0, k) - acc
    ensures |Unmarked(B, M, k)| < |Unmarked(B, M0, k)|
  {
    var E := Unmarked(B, M0, k);
    UnmarkedAfter(B, M0, M, acc, k);
    assert E - acc < E by { assert p in E && p !in E - acc; }
    SubsetCardStrict(E - acc, E);
  }

  lemma {:induction false} MarkFillStep(B: seq<seq<int>>, M0: seq<seq<bool>>, M1: seq<seq<bool>>, M2: seq<seq<bool>>,
                                        k: int, p: Cell, acc: set<Cell>, pending: seq<Cell>, sum: int,
                                        s: int, g: set<Cell>)
    requires MarkFill(B, M0, M1, k, p, acc, pending, sum) && pending != []
    requires IsGroup(Unmarked(B, M1, k), pending[0], g) && MarkedFrom(M2, M1, g) && s == |g|
    ensures MarkFill(B, M0, M2, k, p, acc + g, pending[1..], sum + s)
  {
    var E := Unmarked(B, M0, k);
    MarkFillMeasure(B, M0, M1, k, p, acc, pending, sum);
    GrowStep(E, p, acc, pending, g);
    assert acc * g == {};
    assert MarkedFrom(M2, M0, acc + g);
  }

  /** The state of dfsKill at p: what has become Bg since B0 is acc. */
  ghost predicate KillFill(B0: seq<seq<int>>, B: seq<seq<int>>, k: int,
                           p: Cell, acc: set<Cell>, pending: seq<Cell>, sum: int)
  {
    && k != Bg
    && Growing(Colored(B0, k), p, acc, pending)
    && ErasedFrom(B, B0, acc)
    && sum == |acc|
  }

  lemma KillFillMeasure(B0: seq<seq<int>>, B: seq<seq<int>>, k: int,
                        p: Cell, acc: set<Cell>, pending: seq<Cell>, sum: int)
    requires KillFill(B0, B, k, p, acc, pending, sum)
    ensures Colored(B, k) == Colored(B0, k) - acc
    ensures |Colored(B, k)| < |Colored(B0, k)|
  {
    var E := Colored(B0, k);
    ColoredAfter(B0, B, acc, k);
    assert E - acc < E by { assert p in E && p !in E - acc; }
    SubsetCardStrict(E - acc, E);
  }

  lemma {:induction false} KillFillStep(B0: seq<seq<int>>, B1: seq<seq<int>>, B2: seq<seq<int>>,
                                        k: int, p: Cell, acc: set<Cell>, pending: seq<Cell>, sum: int,
                                        s: int, g: set<Cell>)
    requires KillFill(B0, B1, k, p, acc, pending, sum) && pending != []
    requires IsGroup(Colored(B1, k), pending[0], g) && ErasedFrom(B2, B1, g) && s == |g|
    ensures KillFill(B0, B2, k, p, acc + g, pending[1..], sum + s)
  {
    var E := Colored(B0, k);
    KillFillMeasure(B0, B1, k, p, acc, pending, sum);
    GrowStep(E, p, acc, pending, g);
    assert acc * g == {};
    assert ErasedFrom(B2, B0, acc + g);
  }

  // ---------------------------------------------------------------------
  // Proof state of gameOver's scan

  /** Before cell (i, j) the scan has marked, on top of M0, every block it
      passed. */
  ghost predicate ScanMarked(B: seq<seq<int>>, M0: seq<seq<bool>>, M: seq<seq<bool>>,
                             xs: nat, ys: nat, i: int, j: int)
  {
    && Grid(B, xs, ys) && Grid(M0, xs, ys) && Grid(M, xs, ys)
    && forall x, y :: 0 <= x < xs && 0 <= y < ys ==>
         M[x][y] == (M0[x][y] || (Before(Cell(x, y), i, j) && B[x][y] != Bg))
  }

  /** No pair gameOver looks for starts before cell (i, j). */
  ghost predicate NoFreeBefore(B: seq<seq<int>>, M0: seq<seq<bool>>, i: int, j: int) {
    forall c, d :: FreePair(B, M0, c, d) ==> !Before(c, i, j)
  }

  lemma ScanSkip(B: seq<seq<int>>, M0: seq<seq<bool>>, M: seq<seq<bool>>, xs: nat, ys: nat, i: int, j: int)
    requires ScanMarked(B, M0, M, xs, ys, i, j) && NoFreeBefore(B, M0, i, j)
    requires 0 <= i < xs && 0 <= j < ys && B[i][j] == Bg
    ensures ScanMarked(B, M0, M, xs, ys, i, j + 1) && NoFreeBefore(B, M0, i, j + 1)
  {
  }

  /** At a block (i, j), dfsMark over what is unmarked finds more than one
      block exactly when a pair starts at (i, j); otherwise it marks at
      most (i, j) itself. */
  lemma {:induction false} ScanLook(B: seq<seq<int>>, M0: seq<seq<bool>>, M: seq<seq<bool>>,
                                    xs: nat, ys: nat, i: int, j: int, g: set<Cell>)
    requires ScanMarked(B, M0, M, xs, ys, i, j) && NoFreeBefore(B, M0, i, j)
    requires 0 <= i < xs && 0 <= j < ys && B[i][j] != Bg
    requires IsGroup(Unmarked(B, M, B[i][j]), Cell(i, j), g)
    ensures |g| > 1 ==> HasFreeMove(B, M0)
    ensures |g| <= 1 ==> NoFreeBefore(B, M0, i, j + 1)
    ensures |g| <= 1 ==> g <= {Cell(i, j)} && (M[i][j] || Cell(i, j) in g)
  {
    var c, k := Cell(i, j), B[i][j];
    var E := Unmarked(B, M, k);
    if |g| > 1 {
      BigGroupHasNeighbour(E, c, g);
      var d :| d in E && Adjacent(c, d);
      assert FreePair(B, M0, c, d);
    } else {
      forall c', d | FreePair(B, M0, c', d)
        ensures !Before(c', i, j + 1)
      {
        if c' == c {
          assert FreePair(B, M0, d, c);
          assert c in E && d in E;
          NeighbourInGroup(E, c, g, d);
        }
      }
      if c in E {
        assert c in g;
        forall e | e in g
          ensures e == c
        {
          if e != c {
            SubsetCard({c, e}, g);
          }
        }
      } else {
        NotEligibleGroup(E, c);
        GroupUnique(E, c, g, {});
      }
    }
  }

  lemma ScanMarkCell(B: seq<seq<int>>, M0: seq<seq<bool>>, M: seq<seq<bool>>, M2: seq<seq<bool>>,
                     xs: nat, ys: nat, i: int, j: int, g: set<Cell>)
    requires ScanMarked(B, M0, M, xs, ys, i, j)
    requires 0 <= i < xs && 0 <= j < ys && B[i][j] != Bg
    requires MarkedFrom(M2, M, g) && g <= {Cell(i, j)} && (M[i][j] || Cell(i, j) in g)
    ensures ScanMarked(B, M0, M2, xs, ys, i, j + 1)
  {
  }

  lemma ScanRow(B: seq<seq<int>>, M0: seq<seq<bool>>, M: seq<seq<bool>>, xs: nat, ys: nat, i: int)
    requires ScanMarked(B, M0, M, xs, ys, i, ys) && NoFreeBefore(B, M0, i, ys)
    ensures ScanMarked(B, M0, M, xs, ys, i + 1, 0) && NoFreeBefore(B, M0, i + 1, 0)
  {
    forall c, d | FreePair(B, M0, c, d)
      ensures !Before(c, i + 1, 0)
    {
      assert !Before(c, i, ys);
    }
  }

  lemma ScanDone(B: seq<seq<int>>, M0: seq<seq<bool>>, M: seq<seq<bool>>, xs: nat, ys: nat)
    requires ScanMarked(B, M0, M, xs, ys, xs, 0) && NoFreeBefore(B, M0, xs, 0)
    ensures !HasFreeMove(B, M0)
    ensures forall x, y :: 0 <= x < xs && 0 <= y < ys ==> M[x][y] == (M0[x][y] || B[x][y] != Bg)
  {
    forall c, d | FreePair(B, M0, c, d)
      ensures Before(c, xs, 0)
    {
    }
  }

  // ---------------------------------------------------------------------
  // The end-of-game score

  /** The group of the block at c: the blocks of its colour 4-connected to it. */
  ghost function GroupAt(B: seq<seq<int>>, c: Cell): (G: set<Cell>)
    requires InBoard(B, c)
    ensures IsGroup(Colored(B, B[c.x][c.y]), c, G)
  {
    GroupOf(Colored(B, B[c.x][c.y]), c)
  }

  /** c is the first block of its group in scan order. */
  ghost predicate Leads(B: seq<seq<int>>, c: Cell)
    requires InBoard(B, c)
  {
    forall d :: d in GroupAt(B, c) ==> !Before(d, c.x, c.y)
  }

  /** endScore credits a group of more than one block once, at its first
      block. */
  ghost predicate Credited(B: seq<seq<int>>, c: Cell)
    requires InBoard(B, c)
  {
    B[c.x][c.y] != Bg && Leads(B, c) && |GroupAt(B, c)| > 1
  }

  /** The positions of the scan: a cell, a column's end, or past the last column. */
  predicate ScanPos(xs: int, ys: int, i: int, j: int) {
    (0 <= i < xs && 0 <= j <= ys) || (i == xs && j == 0)
  }

  /** What the scan adds to the score before cell (i, j): Sq(n - 2) for
      each credited group of n blocks. */
  ghost function Gained(B: seq<seq<int>>, ys: nat, i: int, j: int): int
    requires Grid(B, |B|, ys) && ScanPos(|B|, ys, i, j)
    decreases i, j
  {
    if j > 0 then
      var c := Cell(i, j - 1);
      Gained(B, ys, i, j - 1) + if Credited(B, c) then Sq(|GroupAt(B, c)| - 2) else 0
    else if i > 0 then Gained(B, ys, i - 1, ys)
    else 0
  }

  /** How many blocks of colour k the scan counts as left over before cell
      (i, j): those not credited as some group's first block. */
  ghost function Loose(B: seq<seq<int>>, ys: nat, k: int, i: int, j: int): int
    requires Grid(B, |B|, ys) && ScanPos(|B|, ys, i, j)
    decreases i, j
  {
    if j > 0 then
      var c := Cell(i, j - 1);
      Loose(B, ys, k, i, j - 1) + if B[i][j - 1] == k && !Credited(B, c) then 1 else 0
    else if i > 0 then Loose(B, ys, k, i - 1, ys)
    else 0
  }

  /** The sum of Sq(n - 2) over the colours 1..n, n the left-over count. */
  ghost function Penalty(B: seq<seq<int>>, ys: nat, n: nat): int
    requires Grid(B, |B|, ys)
  {
    if n == 0 then 0 else Penalty(B, ys, n - 1) + Sq(Loose(B, ys, n, |B|, 0) - 2)
  }

  /** The end-of-game score of a board: 1000 when its bottom-left cell is
      empty, otherwise the credited groups' scores minus the penalty. */
  ghost function EndValue(B: seq<seq<int>>, ys: nat, colors: nat): int
    requires Grid(B, |B|, ys) && 0 < |B| && 0 < ys
  {
    if B[0][ys - 1] == Bg then 1000 else Gained(B, ys, |B|, 0) - Penalty(B, ys, colors)
  }

  /** The value the scan computes is EndValue when the bottom-left cell holds a block. */
  lemma EndValueOfScan(B: seq<seq<int>>, xs: nat, ys: nat, colors: nat, ans: int)
    requires Grid(B, xs, ys) && 0 < xs && 0 < ys && B[0][ys - 1] != Bg
    requires ans == Gained(B, ys, xs, 0) - Penalty(B, ys, colors)
    ensures ans == EndValue(B, ys, colors)
  {
  }

  /** The proof state of endScore's scan before cell (i, j): V holds the
      blocks of the groups met so far, which are what is marked. */
  ghost predicate Swept(B: seq<seq<int>>, V: set<Cell>, i: int, j: int) {
    && (forall c :: c in V ==> InBoard(B, c) && B[c.x][c.y] != Bg)
    && forall c :: InBoard(B, c) && B[c.x][c.y] != Bg ==>
         (c in V <==> exists d :: d in GroupAt(B, c) && Before(d, i, j))
  }

  ghost predicate MarksAre(M: seq<seq<bool>>, V: set<Cell>, xs: nat, ys: nat) {
    Grid(M, xs, ys) && forall x, y :: 0 <= x < xs && 0 <= y < ys ==> (M[x][y] <==> Cell(x, y) in V)
  }

  lemma SweepStart(B: seq<seq<int>>)
    ensures Swept(B, {}, 0, 0)
  {
  }

  lemma MarksAfter(M: seq<seq<bool>>, M2: seq<seq<bool>>, V: set<Cell>, g: set<Cell>, xs: nat, ys: nat)
    requires MarksAre(M, V, xs, ys) && MarkedFrom(M2, M, g)
    ensures MarksAre(M2, V + g, xs, ys)
  {
  }

  lemma UnmarkedSwept(B: seq<seq<int>>, M: seq<seq<bool>>, V: set<Cell>, xs: nat, ys: nat, k: int)
    requires Grid(B, xs, ys) && MarksAre(M, V, xs, ys)
    ensures Unmarked(B, M, k) == Colored(B, k) - V
  {
  }

  /** Blocks of one group have the same group. */
  lemma SameGroup(B: seq<seq<int>>, c: Cell, e: Cell)
    requires InBoard(B, c) && e in GroupAt(B, c)
    ensures InBoard(B, e) && B[e.x][e.y] == B[c.x][c.y] && GroupAt(B, e) == GroupAt(B, c)
  {
    var E := Colored(B, B[c.x][c.y]);
    GroupShared(E, c, GroupAt(B, c), e, GroupAt(B, e));
  }

  /** V is closed within the blocks of colour k. */
  lemma {:induction false} SweptClosed(B: seq<seq<int>>, V: set<Cell>, i: int, j: int, k: int)
    requires Swept(B, V, i, j) && k != Bg
    ensures Closed(Colored(B, k), V * Colored(B, k))
  {
    var E := Colored(B, k);
    forall m, d | m in V * E && d in E && Adjacent(m, d)
      ensures d in V
    {
      var w :| w in GroupAt(B, m) && Before(w, i, j);
      assert Closed(E, GroupAt(B, m)) && m in GroupAt(B, m);
      SameGroup(B, m, d);
    }
  }

  /** One step of the scan at a block (i, j) not met yet: its group is
      what dfsMark finds among the unmarked blocks, and it leads. */
  lemma {:induction false} SweepFresh(B: seq<seq<int>>, V: set<Cell>, i: int, j: int)
    requires Swept(B, V, i, j) && InBoard(B, Cell(i, j)) && B[i][j] != Bg && Cell(i, j) !in V
    ensures Leads(B, Cell(i, j))
    ensures IsGroup(Colored(B, B[i][j]) - V, Cell(i, j), GroupAt(B, Cell(i, j)))
    ensures Swept(B, V + GroupAt(B, Cell(i, j)), i, j + 1)
  {
    var c, k := Cell(i, j), B[i][j];
    var E, G := Colored(B, k), GroupAt(B, Cell(i, j));
    SweptClosed(B, V, i, j, k);
    GroupAvoids(E, V * E, c, G);
    assert E - V * E == E - V;
    forall e | InBoard(B, e) && B[e.x][e.y] != Bg
      ensures e in V + G <==> exists d :: d in GroupAt(B, e) && Before(d, i, j + 1)
    {
      if e in G {
        SameGroup(B, c, e);
        assert c in GroupAt(B, e);
      }
      if w :| w in GroupAt(B, e) && Before(w, i, j + 1) {
        if !Before(w, i, j) {
          SameGroup(B, e, c);
        }
      }
    }
  }

  /** Swept, from its two directions. */
  lemma SweptIntro(B: seq<seq<int>>, V: set<Cell>, i: int, j: int)
    requires forall c :: c in V ==> InBoard(B, c) && B[c.x][c.y] != Bg
    requires forall e, u :: InBoard(B, e) && B[e.x][e.y] != Bg && u in GroupAt(B, e) && Before(u, i, j) ==> e in V
    requires forall e :: InBoard(B, e) && B[e.x][e.y] != Bg && e in V ==>
               exists d :: d in GroupAt(B, e) && Before(d, i, j)
    ensures Swept(B, V, i, j)
  {
  }

  /** A group met before cell (i, j) is met before (i, j + 1). */
  lemma {:induction false} SweptOn(B: seq<seq<int>>, V: set<Cell>, i: int, j: int)
    requires Swept(B, V, i, j)
    ensures forall e :: InBoard(B, e) && B[e.x][e.y] != Bg && e in V ==>
              exists d :: d in GroupAt(B, e) && Before(d, i, j + 1)
  {
    forall e | InBoard(B, e) && B[e.x][e.y] != Bg && e in V
      ensures exists d :: d in GroupAt(B, e) && Before(d, i, j + 1)
    {
      var u :| u in GroupAt(B, e) && Before(u, i, j);
      assert Before(u, i, j + 1);
    }
  }

  /** One step of the scan at a block (i, j) whose group was met before:
      nothing is found and it does not lead. */
  lemma {:induction false} SweepSeen(B: seq<seq<int>>, V: set<Cell>, i: int, j: int)
    requires Swept(B, V, i, j) && InBoard(B, Cell(i, j)) && B[i][j] != Bg && Cell(i, j) in V
    ensures !Leads(B, Cell(i, j))
    ensures Swept(B, V, i, j + 1)
  {
    var c := Cell(i, j);
    var w :| w in GroupAt(B, c) && Before(w, i, j);
    assert !Leads(B, c) by { assert Before(w, c.x, c.y); }
    forall e, u | InBoard(B, e) && B[e.x][e.y] != Bg && u in GroupAt(B, e) && Before(u, i, j + 1)
      ensures e in V
    {
      if !Before(u, i, j) {
        assert u == c;
        SameGroup(B, e, u);
        assert w in GroupAt(B, e);
      }
    }
    SweptOn(B, V, i, j);
    SweptIntro(B, V, i, j + 1);
  }

  lemma {:induction false} SweepSkip(B: seq<seq<int>>, V: set<Cell>, i: int, j: int)
    requires Swept(B, V, i, j) && InBoard(B, Cell(i, j)) && B[i][j] == Bg
    ensures Swept(B, V, i, j + 1)
  {
    forall e, d | InBoard(B, e) && B[e.x][e.y] != Bg && d in GroupAt(B, e)
      ensures d != Cell(i, j)
    {
      SameGroup(B, e, d);
    }
  }

  /** What dfsMark returns at a block of the scan, and what it marks. */
  lemma {:induction false} SweepMark(B: seq<seq<int>>, M: seq<seq<bool>>, V: set<Cell>,
                                     xs: nat, ys: nat, i: int, j: int, g: set<Cell>)
    requires Grid(B, xs, ys) && MarksAre(M, V, xs, ys) && Swept(B, V, i, j)
    requires 0 <= i < xs && 0 <= j < ys && B[i][j] != Bg
    requires IsGroup(Unmarked(B, M, B[i][j]), Cell(i, j), g)
    ensures |g| > 1 <==> Credited(B, Cell(i, j))
    ensures Credited(B, Cell(i, j)) ==> |g| == |GroupAt(B, Cell(i, j))|
    ensures Swept(B, V + g, i, j + 1)
  {
    var c, k := Cell(i, j), B[i][j];
    UnmarkedSwept(B, M, V, xs, ys, k);
    if c in V {
      SweepSeen(B, V, i, j);
      NotEligibleGroup(Colored(B, k) - V, c);
      GroupUnique(Colored(B, k) - V, c, g, {});
      assert V + g == V;
    } else {
      SweepFresh(B, V, i, j);
      GroupUnique(Colored(B, k) - V, c, g, GroupAt(B, c));
    }
  }

  /** cs[t] is the left-over count of colour t + 1 before cell (i, j). */
  ghost predicate Tallied(B: seq<seq<int>>, ys: nat, cs: seq<int>, i: int, j: int)
    requires Grid(B, |B|, ys) && ScanPos(|B|, ys, i, j)
  {
    forall t :: 0 <= t < |cs| ==> cs[t] == Loose(B, ys, t + 1, i, j)
  }

  /** The scan passes a block credited with its group's score. */
  lemma TallyCredited(B: seq<seq<int>>, ys: nat, ans: int, cs: seq<int>, i: int, j: int, n: int)
    requires Grid(B, |B|, ys) && 0 <= i < |B| && 0 <= j < ys
    requires ans == Gained(B, ys, i, j) && Tallied(B, ys, cs, i, j)
    requires Credited(B, Cell(i, j)) && n == |GroupAt(B, Cell(i, j))|
    ensures ans + Sq(n - 2) == Gained(B, ys, i, j + 1) && Tallied(B, ys, cs, i, j + 1)
  {
  }

  /** The scan passes a block it counts as left over: cs2 adds one at its colour. */
  lemma TallyLoose(B: seq<seq<int>>, ys: nat, ans: int, cs: seq<int>, cs2: seq<int>, i: int, j: int)
    requires Grid(B, |B|, ys) && 0 <= i < |B| && 0 <= j < ys
    requires ans == Gained(B, ys, i, j) && Tallied(B, ys, cs, i, j)
    requires !Credited(B, Cell(i, j)) && |cs2| == |cs|
    requires forall t :: 0 <= t < |cs| ==> cs2[t] == cs[t] + if B[i][j] == t + 1 then 1 else 0
    ensures ans == Gained(B, ys, i, j + 1) && Tallied(B, ys, cs2, i, j + 1)
  {
  }

  /** The scan passes an empty cell. */
  lemma TallyEmpty(B: seq<seq<int>>, ys: nat, ans: int, cs: seq<int>, i: int, j: int)
    requires Grid(B, |B|, ys) && 0 <= i < |B| && 0 <= j < ys && B[i][j] == Bg
    requires ans == Gained(B, ys, i, j) && Tallied(B, ys, cs, i, j)
    ensures ans == Gained(B, ys, i, j + 1) && Tallied(B, ys, cs, i, j + 1)
  {
  }

  lemma TallyRow(B: seq<seq<int>>, ys: nat, ans: int, cs: seq<int>, i: int)
    requires Grid(B, |B|, ys) && 0 <= i < |B|
    requires ans == Gained(B, ys, i, ys) && Tallied(B, ys, cs, i, ys)
    ensures ans == Gained(B, ys, i + 1, 0) && Tallied(B, ys, cs, i + 1, 0)
  {
  }

  /** The whole proof state of endScore's scan before cell (i, j). */
  ghost predicate EndScan(B: seq<seq<int>>, M: seq<seq<bool>>, V: set<Cell>, xs: nat, ys: nat,
                          ans: int, cs: seq<int>, i: int, j: int)
  {
    && Grid(B, xs, ys) && ScanPos(xs, ys, i, j)
    && Swept(B, V, i, j) && MarksAre(M, V, xs, ys)
    && ans == Gained(B, ys, i, j) && Tallied(B, ys, cs, i, j)
  }

  /** cs2 is cs with one more block of colour v counted, at cs2[v - 1]. */
  ghost predicate Bumped(cs: seq<int>, cs2: seq<int>, v: int) {
    |cs2| == |cs| && forall t :: 0 <= t < |cs| ==> cs2[t] == cs[t] + if v == t + 1 then 1 else 0
  }

  /** One cell of endScore's scan: an empty cell changes nothing; at a
      block, g is what dfsMark marks, and either the group is credited or
      the block is counted as left over. */
  lemma EndStep(B: seq<seq<int>>, M1: seq<seq<bool>>, M2: seq<seq<bool>>, V: set<Cell>, V2: set<Cell>,
                xs: nat, ys: nat, ans: int, ans2: int, cs: seq<int>, cs2: seq<int>, i: int, j: int, g: set<Cell>)
    requires EndScan(B, M1, V, xs, ys, ans, cs, i, j) && 0 <= i < xs && 0 <= j < ys
    requires B[i][j] == Bg ==> M2 == M1 && V2 == V && ans2 == ans && cs2 == cs
    requires B[i][j] != Bg ==> IsGroup(Unmarked(B, M1, B[i][j]), Cell(i, j), g) && MarkedFrom(M2, M1, g) && V2 == V + g
    requires B[i][j] != Bg && |g| > 1 ==> ans2 == ans + Sq(|g| - 2) && cs2 == cs
    requires B[i][j] != Bg && |g| <= 1 ==> ans2 == ans && Bumped(cs, cs2, B[i][j])
    ensures EndScan(B, M2, V2, xs, ys, ans2, cs2, i, j + 1)
  {
    if B[i][j] == Bg {
      SweepSkip(B, V, i, j);
      TallyEmpty(B, ys, ans, cs, i, j);
    } else {
      SweepMark(B, M1, V, xs, ys, i, j, g);
      MarksAfter(M1, M2, V, g, xs, ys);
      if |g| > 1 {
        TallyCredited(B, ys, ans, cs, i, j, |g|);
      } else {
        TallyLoose(B, ys, ans, cs, cs2, i, j);
      }
    }
  }

  lemma EndStepRow(B: seq<seq<int>>, M: seq<seq<bool>>, V: set<Cell>,
                   xs: nat, ys: nat, ans: int, cs: seq<int>, i: int)
    requires EndScan(B, M, V, xs, ys, ans, cs, i, ys) && 0 <= i < xs
    ensures EndScan(B, M, V, xs, ys, ans, cs, i + 1, 0)
  {
    SweepRow(B, V, xs, ys, i);
    TallyRow(B, ys, ans, cs, i);
  }

  lemma SweepRow(B: seq<seq<int>>, V: set<Cell>, xs: nat, ys: nat, i: int)
    requires Grid(B, xs, ys) && Swept(B, V, i, ys)
    ensures Swept(B, V, i + 1, 0)
  {
    forall e, d | InBoard(B, e) && B[e.x][e.y] != Bg && d in GroupAt(B, e)
      ensures Before(d, i, ys) == Before(d, i + 1, 0)
    {
      SameGroup(B, e, d);
    }
  }

  // ---------------------------------------------------------------------
  // Playing a move

  /** A move at c is legal when c holds a block whose group has more
      than one block. */
  ghost predicate Legal(B: seq<seq<int>>, c: Cell)
    requires InBoard(B, c)
  {
    B[c.x][c.y] != Bg && |GroupAt(B, c)| > 1
  }

  /** A move is legal exactly when the block has a neighbour of its own colour. */
  lemma LegalPair(B: seq<seq<int>>, c: Cell)
    requires InBoard(B, c)
    ensures Legal(B, c) <==> exists d :: InGroupPair(B, c, d)
  {
    var E := Colored(B, B[c.x][c.y]);
    var G := GroupAt(B, c);
    if Legal(B, c) {
      BigGroupHasNeighbour(E, c, G);
      var d :| d in E && Adjacent(c, d);
      assert InGroupPair(B, c, d);
    }
    if exists d :: InGroupPair(B, c, d) {
      var d :| InGroupPair(B, c, d);
      NeighbourInGroup(E, c, G, d);
    }
  }

  /** The group dfsKill reports at a block is GroupAt, and a group of
      fewer than two blocks is the block alone. */
  lemma KilledGroup(B: seq<seq<int>>, c: Cell, g: set<Cell>)
    requires InBoard(B, c) && IsGroup(Colored(B, B[c.x][c.y]), c, g)
    ensures g == GroupAt(B, c) && c in g
    ensures |g| < 2 ==> g == {c}
  {
    GroupUnique(Colored(B, B[c.x][c.y]), c, g, GroupAt(B, c));
    if |g| < 2 {
      SubsetCard({c}, g);
      assert |g - {c}| == 0;
    }
  }

  /** Putting back the one block dfsKill removed restores the board. */
  lemma RestoreCell(B0: seq<seq<int>>, B1: seq<seq<int>>, c: Cell)
    requires InBoard(B0, c) && ErasedFrom(B1, B0, {c})
    ensures B1[c.x := B1[c.x][c.y := B0[c.x][c.y]]] == B0
  {
    var R := B1[c.x := B1[c.x][c.y := B0[c.x][c.y]]];
    forall x | 0 <= x < |B0| ensures R[x] == B0[x] {
    }
  }

  /** B with the cells of S emptied. */
  ghost function Erase(B: seq<seq<int>>, S: set<Cell>): (r: seq<seq<int>>)
    ensures ErasedFrom(r, B, S)
  {
    seq(|B|, x requires 0 <= x < |B| =>
      seq(|B[x]|, y requires 0 <= y < |B[x]| => if Cell(x, y) in S then Bg else B[x][y]))
  }

  /** Erasing is determined: any board erased from B1 by S is Erase(B1, S). */
  lemma ErasedIs(B2: seq<seq<int>>, B1: seq<seq<int>>, S: set<Cell>)
    requires ErasedFrom(B2, B1, S)
    ensures B2 == Erase(B1, S)
  {
    var E := Erase(B1, S);
    forall x | 0 <= x < |B1| ensures B2[x] == E[x] {
    }
  }

  /** Gravity in every column. */
  function SettleAll(B: seq<seq<int>>): (r: seq<seq<int>>)
    ensures |r| == |B|
  {
    seq(|B|, x requires 0 <= x < |B| => Settle(B[x]))
  }

  /** The board after a legal move at c: the group removed, every column
      settled, the empty columns shifted out to the right. */
  ghost function Played(B: seq<seq<int>>, ys: nat, c: Cell): (r: seq<seq<int>>)
    requires InBoard(B, c)
  {
    Collapse(SettleAll(Erase(B, GroupAt(B, c))), ys)
  }

  /** After gravity and collapsing the board is still a board of the
      same colours, every column is settled, and its bottom-left cell is
      empty only when the whole board is. */
  lemma Tidy(E: seq<seq<int>>, xs: nat, ys: nat, colors: int)
    requires Painted(E, xs, ys, colors) && 0 < xs && 0 < ys
    ensures Painted(Collapse(SettleAll(E), ys), xs, ys, colors)
    ensures forall x :: 0 <= x < xs ==> Settled(Collapse(SettleAll(E), ys)[x])
    ensures Collapse(SettleAll(E), ys)[0][ys - 1] == Bg ==>
              forall x, y :: 0 <= x < xs && 0 <= y < ys ==> Collapse(SettleAll(E), ys)[x][y] == Bg
  {
    var S := SettleAll(E);
    var P := Collapse(S, ys);
    SettledColumns(E, xs, ys, colors);
    PaintedCollapse(S, xs, ys, colors);
    CollapseKeepsSettled(S, xs, ys);
    if P[0][ys - 1] == Bg {
      CollapseAt(S, ys, 0);
      CollapseSettled(S, ys);
    }
  }

  /** After gravity every column is settled and keeps its colours. */
  lemma SettledColumns(E: seq<seq<int>>, xs: nat, ys: nat, colors: int)
    requires Painted(E, xs, ys, colors)
    ensures Painted(SettleAll(E), xs, ys, colors)
    ensures forall x :: 0 <= x < xs ==> Settled(SettleAll(E)[x])
  {
    var S := SettleAll(E);
    forall x | 0 <= x < xs
      ensures |S[x]| == ys && Settled(S[x]) && forall y :: 0 <= y < ys ==> 0 <= S[x][y] <= colors
    {
      SettleRange(E[x], colors);
      SettleSettles(E[x]);
    }
  }

  /** Shifting empty columns out keeps settled columns settled. */
  lemma CollapseKeepsSettled(S: seq<seq<int>>, xs: nat, ys: nat)
    requires Grid(S, xs, ys) && forall x :: 0 <= x < xs ==> Settled(S[x])
    ensures forall x :: 0 <= x < xs ==> Settled(Collapse(S, ys)[x])
  {
    var P := Collapse(S, ys);
    StandingFrom(S);
    forall x | 0 <= x < xs ensures Settled(P[x]) {
      CollapseAt(S, ys, x);
      if x >= |Standing(S)| && Stands(S[x]) {
        assert P[x] == Blank(ys);
      }
    }
  }

  /** The same for the board after a move. */
  lemma PlayedTidy(B: seq<seq<int>>, xs: nat, ys: nat, colors: int, c: Cell)
    requires Painted(B, xs, ys, colors) && InGrid(c, xs, ys) && 0 < xs && 0 < ys
    ensures Painted(Played(B, ys, c), xs, ys, colors)
    ensures forall x :: 0 <= x < xs ==> Settled(Played(B, ys, c)[x])
    ensures Played(B, ys, c)[0][ys - 1] == Bg ==>
              forall x, y :: 0 <= x < xs && 0 <= y < ys ==> Played(B, ys, c)[x][y] == Bg
  {
    Tidy(Erase(B, GroupAt(B, c)), xs, ys, colors);
  }

  /** On an empty board gameOver's scan marks nothing new. */
  lemma MarksKept(B: seq<seq<int>>, M0: seq<seq<bool>>, M: seq<seq<bool>>, xs: nat, ys: nat)
    requires Grid(B, xs, ys) && Grid(M0, xs, ys) && Grid(M, xs, ys)
    requires forall x, y :: 0 <= x < xs && 0 <= y < ys ==> B[x][y] == Bg
    requires forall x, y :: 0 <= x < xs && 0 <= y < ys ==> M[x][y] == (M0[x][y] || B[x][y] != Bg)
    ensures M == M0
  {
    forall x | 0 <= x < xs ensures M[x] == M0[x] {
    }
  }

  // ---------------------------------------------------------------------
  // The score of a finished board

  /** The blocks of colour k that the scan passes before cell (i, j). */
  ghost function ColoredBefore(B: seq<seq<int>>, k: int, i: int, j: int): (S: set<Cell>)
    ensures forall c :: c in S <==> c in Colored(B, k) && Before(c, i, j)
  {
    set c | c in Colored(B, k) && Before(c, i, j)
  }

  /** Passing cell (i, j - 1) adds it to the blocks of colour k passed
      when it has colour k, and nothing otherwise. */
  lemma CellPassed(B: seq<seq<int>>, ys: nat, k: int, i: int, j: int)
    requires Grid(B, |B|, ys) && 0 <= i < |B| && 0 < j <= ys
    ensures Cell(i, j - 1) !in ColoredBefore(B, k, i, j - 1)
    ensures ColoredBefore(B, k, i, j) ==
      ColoredBefore(B, k, i, j - 1) + if B[i][j - 1] == k then {Cell(i, j - 1)} else {}
  {
  }

  /** The end of column i - 1 and the start of column i are the same point of
      the scan. */
  lemma ColumnPassed(B: seq<seq<int>>, ys: nat, k: int, i: int)
    requires Grid(B, |B|, ys) && 0 < i <= |B|
    ensures ColoredBefore(B, k, i, 0) == ColoredBefore(B, k, i - 1, ys)
  {
  }

  /** Without credited groups the scan counts every block of colour k. */
  lemma {:induction false} LooseCounts(B: seq<seq<int>>, ys: nat, k: int, i: int, j: int)
    requires Grid(B, |B|, ys) && ScanPos(|B|, ys, i, j) && k != Bg
    requires forall c :: InBoard(B, c) ==> !Credited(B, c)
    ensures Loose(B, ys, k, i, j) == |ColoredBefore(B, k, i, j)|
    decreases i, j
  {
    if j > 0 {
      LooseCounts(B, ys, k, i, j - 1);
      CellPassed(B, ys, k, i, j);
      assert InBoard(B, Cell(i, j - 1));
    } else if i > 0 {
      LooseCounts(B, ys, k, i - 1, ys);
      ColumnPassed(B, ys, k, i);
    } else {
      assert ColoredBefore(B, k, 0, 0) == {};
    }
  }

  /** Without credited groups the scan gains nothing. */
  lemma {:induction false} NothingGained(B: seq<seq<int>>, ys: nat, i: int, j: int)
    requires Grid(B, |B|, ys) && ScanPos(|B|, ys, i, j)
    requires forall c :: InBoard(B, c) ==> !Credited(B, c)
    ensures Gained(B, ys, i, j) == 0
    decreases i, j
  {
    if j > 0 {
      NothingGained(B, ys, i, j - 1);
    } else if i > 0 {
      NothingGained(B, ys, i - 1, ys);
    }
  }

  /** Every cell of the board comes before the end of the scan. */
  lemma AllBefore(B: seq<seq<int>>, k: int)
    ensures ColoredBefore(B, k, |B|, 0) == Colored(B, k)
  {
  }

  /** The penalty of colours 1..n on a board without credited groups. */
  ghost function Remaining(B: seq<seq<int>>, n: nat): int {
    if n == 0 then 0 else Remaining(B, n - 1) + Sq(|Colored(B, n)| - 2)
  }

  lemma {:induction false} PenaltyRemaining(B: seq<seq<int>>, ys: nat, n: nat)
    requires Grid(B, |B|, ys)
    requires forall c :: InBoard(B, c) ==> !Credited(B, c)
    ensures Penalty(B, ys, n) == Remaining(B, n)
  {
    if n > 0 {
      PenaltyRemaining(B, ys, n - 1);
      LooseCounts(B, ys, n, |B|, 0);
      AllBefore(B, n);
    }
  }

  /** On a board without moves endScore is 1000 when the bottom-left cell
      is empty, and otherwise minus the sum over the colours k of
      Sq(m - 2), m the number of blocks of colour k. */
  lemma EndValueNoMove(B: seq<seq<int>>, xs: nat, ys: nat, colors: nat)
    requires Grid(B, xs, ys) && 0 < xs && 0 < ys && !HasMove(B)
    ensures EndValue(B, ys, colors) == if B[0][ys - 1] == Bg then 1000 else -Remaining(B, colors)
  {
    forall c | InBoard(B, c) ensures !Credited(B, c) {
      if Credited(B, c) {
        LegalPair(B, c);
      }
    }
    NothingGained(B, ys, xs, 0);
    PenaltyRemaining(B, ys, colors);
  }

  // ---------------------------------------------------------------------
  // The cell index of the logical board

  /** The logical board lists the cells column by column: cell (x, y) is
      entry x * ys + y. */
  function Index(c: Cell, ys: int): int {
    c.x * ys + c.y
  }

  /** The cell of entry k. */
  function CellAt(k: int, ys: int): Cell
    requires 0 < ys
  {
    Cell(k / ys, k % ys)
  }

  /** Columns 0..n - 1 of B hold the entries of the logical board b. */
  ghost predicate Loaded(B: seq<seq<int>>, b: seq<int>, n: int, ys: int) {
    forall x, y :: 0 <= x < n && 0 <= y < ys ==>
      0 <= Index(Cell(x, y), ys) < |b| && x < |B| && y < |B[x]| && B[x][y] == b[Index(Cell(x, y), ys)]
  }

  /** Column i read from entries i * ys .. i * ys + ys - 1 extends a board
      loaded up to column i. */
  lemma LoadedPush(B: seq<seq<int>>, col: seq<int>, b: seq<int>, i: int, ys: int)
    requires Loaded(B, b, i, ys) && |B| == i && 0 <= i && |col| == ys
    requires i * ys + ys <= |b|
    requires forall y :: 0 <= y < ys ==> col[y] == b[i * ys + y]
    ensures Loaded(B + [col], b, i + 1, ys)
  {
    var C := B + [col];
    forall x, y | 0 <= x < i + 1 && 0 <= y < ys
      ensures 0 <= Index(Cell(x, y), ys) < |b| && x < |C| && y < |C[x]| && C[x][y] == b[Index(Cell(x, y), ys)]
    {
      if x == i {
        assert C[x] == col;
      } else {
        assert C[x] == B[x];
      }
    }
  }

  /** The entries of an xs-by-ys grid are 0 .. xs * ys - 1. */
  lemma IndexBound(c: Cell, xs: int, ys: int)
    requires InGrid(c, xs, ys)
    ensures 0 <= Index(c, ys) < xs * ys
  {
    assert c.x * ys <= (xs - 1) * ys;
  }

  /** The index of a cell decodes back to the cell, and every entry
      number is the index of its cell. */
  lemma IndexRoundTrip(c: Cell, k: int, ys: int)
    requires 0 < ys && 0 <= c.x && 0 <= c.y < ys
    ensures CellAt(Index(c, ys), ys) == c
    ensures Index(CellAt(k, ys), ys) == k
  {
    var n := Index(c, ys);
    var q, r := n / ys, n % ys;
    assert (q - c.x) * ys == c.y - r;
    MultipleBelow(q - c.x, ys);
  }

  /** A multiple of m strictly between -m and m is 0. */
  lemma MultipleBelow(a: int, m: int)
    requires 0 < m && -m < a * m < m
    ensures a == 0
  {
  }

  // ---------------------------------------------------------------------
  // Marks left over from hovering

  /** A column of two blue (2) blocks over two red (1) ones, with the red
      pair marked as hovering over it marks it.  Playing the red pair
      leaves the blue pair at the bottom, still a move, but on the old
      marks: gameOver's scan cannot see it. */
  lemma StaleHover()
    ensures Legal([[2, 2, 1, 1]], Cell(0, 3))
    ensures Played([[2, 2, 1, 1]], 4, Cell(0, 3)) == [[Bg, Bg, 2, 2]]
    ensures HasMove([[Bg, Bg, 2, 2]])
    ensures !HasFreeMove([[Bg, Bg, 2, 2]], [[false, false, true, true]])
  {
    HoverGroup();
    HoverErase();
    HoverFall();
    HoverLeft();
  }

  /** Removing the red pair. */
  lemma HoverErase()
    ensures Erase([[2, 2, 1, 1]], {Cell(0, 2), Cell(0, 3)}) == [[2, 2, Bg, Bg]]
  {
    var R := Erase([[2, 2, 1, 1]], {Cell(0, 2), Cell(0, 3)});
    assert R[0] == [2, 2, Bg, Bg];
  }

  /** The red pair is the group of the bottom block. */
  lemma HoverGroup()
    ensures GroupAt([[2, 2, 1, 1]], Cell(0, 3)) == {Cell(0, 2), Cell(0, 3)}
  {
    var B := [[2, 2, 1, 1]];
    var c := Cell(0, 3);
    var G := {Cell(0, 2), c};
    var E := Colored(B, 1);
    assert E == G;
    assert IsGroup(E, c, G) by {
      forall T | Closed(E, T) && c in T ensures G <= T {
        assert Adjacent(c, Cell(0, 2));
      }
    }
    GroupUnique(E, c, G, GroupAt(B, c));
  }

  /** The blue pair falls to the bottom and its column stays put. */
  lemma HoverFall()
    ensures Collapse(SettleAll([[2, 2, Bg, Bg]]), 4) == [[Bg, Bg, 2, 2]]
  {
    assert Stones([2, 2, Bg, Bg]) == [2, 2] by {
      assert Stones([Bg]) == [];
      assert Stones([Bg, Bg]) == [];
      assert Stones([2, Bg, Bg]) == [2];
    }
    var Q := [[2, 2, Bg, Bg]];
    assert Settle(Q[0]) == [Bg, Bg, 2, 2] by {
      assert Blank(2) == [Bg, Bg];
    }
    assert SettleAll(Q)[0] == Settle(Q[0]);
    assert SettleAll(Q) == [[Bg, Bg, 2, 2]];
    var P := [[Bg, Bg, 2, 2]];
    assert Standing(P) == P by {
      assert P[..0] == [];
    }
  }

  /** The blue pair is a move, hidden under the marks of the red pair. */
  lemma HoverLeft()
    ensures HasMove([[Bg, Bg, 2, 2]])
    ensures !HasFreeMove([[Bg, Bg, 2, 2]], [[false, false, true, true]])
  {
    var P := [[Bg, Bg, 2, 2]];
    var M := [[false, false, true, true]];
    assert InGroupPair(P, Cell(0, 2), Cell(0, 3));
    forall c, d | InBoard(P, c) ensures !FreePair(P, M, c, d) {
      assert c.x == 0 && 0 <= c.y < 4;
      assert M[0][c.y] || P[0][c.y] == Bg;
    }
  }
}
