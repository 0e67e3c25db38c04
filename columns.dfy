/**
 * Columns of the SameGame board as values, and the two "physics" steps
 * of Game.java: gravity inside a column (redCol) and shifting empty
 * columns out to the right (redRow).  A column is listed top to bottom:
 * index 0 is the top row, the last index the bottom row.
 */
module Columns {

  /** The background colour: an empty cell. */
  const Bg := 0

  /** n empty cells. */
  function Blank(n: nat): (r: seq<int>)
    ensures |r| == n && forall i :: 0 <= i < n ==> r[i] == Bg
  {
    seq(n, _ => Bg)
  }

  // ---------------------------------------------------------------------
  // Gravity

  /** The blocks of a column, top to bottom, in their order. */
  function Stones(col: seq<int>): (r: seq<int>)
    ensures |r| <= |col|
    ensures forall i :: 0 <= i < |r| ==> r[i] != Bg
  {
    if col == [] then [] else (if col[0] == Bg then [] else [col[0]]) + Stones(col[1..])
  }

  /** A column after gravity: its blocks packed at the bottom, in order. */
  function Settle(col: seq<int>): (r: seq<int>)
    ensures |r| == |col|
  {
    Blank(|col| - |Stones(col)|) + Stones(col)
  }

  /** No empty cell lies below a block. */
  ghost predicate Settled(col: seq<int>) {
    forall i, j :: 0 <= i < j < |col| && col[i] != Bg ==> col[j] != Bg
  }

  lemma {:induction false} StonesOfBlocks(s: seq<int>)
    requires forall i :: 0 <= i < |s| ==> s[i] != Bg
    ensures Stones(s) == s
  {
    if s != [] {
      StonesOfBlocks(s[1..]);
    }
  }

  lemma {:induction false} StonesOfBlank(n: nat, s: seq<int>)
    ensures Stones(Blank(n) + s) == Stones(s)
  {
    if n > 0 {
      var t := Blank(n) + s;
      assert t[0] == Bg;
      assert t[1..] == Blank(n - 1) + s;
      StonesOfBlank(n - 1, s);
    } else {
      assert Blank(n) + s == s;
    }
  }

  /** A column holds its blocks and as many empty cells as it has gaps. */
  ghost predicate Balanced(s: seq<int>) {
    multiset(s) == multiset(Stones(s)) + multiset(Blank(|s| - |Stones(s)|))
  }

  /** An empty cell on top adds one empty cell to the gaps. */
  lemma GapOnTop(t: seq<int>)
    requires Balanced(t)
    ensures Balanced([Bg] + t)
  {
    var s := [Bg] + t;
    assert s[1..] == t;
    assert Stones(s) == Stones(t);
    assert Blank(|s| - |Stones(s)|) == [Bg] + Blank(|t| - |Stones(t)|);
  }

  /** A block on top adds one block to the blocks. */
  lemma BlockOnTop(a: int, t: seq<int>)
    requires a != Bg && Balanced(t)
    ensures Balanced([a] + t)
  {
    var s := [a] + t;
    assert s[1..] == t;
    assert Stones(s) == [a] + Stones(t);
    assert Blank(|s| - |Stones(s)|) == Blank(|t| - |Stones(t)|);
  }

  lemma {:induction false} StonesMultiset(s: seq<int>)
    ensures multiset(s) == multiset(Stones(s)) + multiset(Blank(|s| - |Stones(s)|))
  {
    if s == [] {
      assert Blank(0) == [];
    } else {
      var t := s[1..];
      StonesMultiset(t);
      assert s == [s[0]] + t;
      if s[0] == Bg {
        GapOnTop(t);
      } else {
        BlockOnTop(s[0], t);
      }
      assert Balanced(s);
    }
  }

  /** Gravity keeps every block and their order: the settled column is a
      permutation of the column with the same blocks top to bottom. */
  lemma SettlePermutes(col: seq<int>)
    ensures multiset(Settle(col)) == multiset(col)
    ensures Stones(Settle(col)) == Stones(col)
  {
    StonesMultiset(col);
    StonesOfBlank(|col| - |Stones(col)|, Stones(col));
    StonesOfBlocks(Stones(col));
  }

  lemma SettleRange(col: seq<int>, hi: int)
    requires forall y :: 0 <= y < |col| ==> 0 <= col[y] <= hi
    ensures forall y :: 0 <= y < |col| ==> 0 <= Settle(col)[y] <= hi
  {
    SettlePermutes(col);
    forall y | 0 <= y < |col| ensures 0 <= Settle(col)[y] <= hi {
      assert Settle(col)[y] in multiset(col);
    }
  }

  /** After gravity a column is settled. */
  lemma SettleSettles(col: seq<int>)
    ensures Settled(Settle(col))
  {
    var r := Settle(col);
    var n := |col| - |Stones(col)|;
    forall i, j | 0 <= i < j < |r| && r[i] != Bg
      ensures r[j] != Bg
    {
      assert i >= n;
      assert r[j] == Stones(col)[j - n];
    }
  }

  /** Gravity on a settled column changes nothing. */
  lemma {:induction false} SettleIdle(col: seq<int>)
    requires Settled(col)
    ensures Settle(col) == col
  {
    if col != [] {
      if col[0] != Bg {
        assert forall i :: 0 <= i < |col| ==> col[i] != Bg;
        StonesOfBlocks(col);
      } else {
        var t := col[1..];
        assert Settled(t) by {
          forall i, j | 0 <= i < j < |t| && t[i] != Bg ensures t[j] != Bg {
            assert col[i + 1] != Bg;
          }
        }
        SettleIdle(t);
        assert col == [Bg] + t;
        assert Settle(col) == [Bg] + Settle(t);
      }
    }
  }

  /** The blocks of a column from row i down: the cell at row i, if it
      holds a block, then the blocks below it. */
  lemma StonesFrom(c0: seq<int>, i: nat)
    requires i < |c0|
    ensures Stones(c0[i..]) == (if c0[i] == Bg then [] else [c0[i]]) + Stones(c0[i + 1..])
  {
    assert c0[i..][1..] == c0[i + 1..];
  }

  /** One step of gravity: the block above n empty cells falls onto the
      blocks below them. */
  lemma FallStep(pre: seq<int>, v: int, n: nat, st: seq<int>)
    requires n > 0
    ensures (pre + [v] + Blank(n) + st)[|pre| + n := v][|pre| := Bg]
         == pre + Blank(n) + ([v] + st)
  {
    var l := (pre + [v] + Blank(n) + st)[|pre| + n := v][|pre| := Bg];
    var r := pre + Blank(n) + ([v] + st);
    assert |l| == |r|;
    forall k | 0 <= k < |l| ensures l[k] == r[k] {
      if k < |pre| {
      } else if k < |pre| + n {
      } else if k == |pre| + n {
      } else {
        assert l[k] == st[k - |pre| - n - 1];
      }
    }
  }

  lemma GravityBlank(pre: seq<int>, cnt: nat, st: seq<int>)
    ensures pre + [Bg] + Blank(cnt) + st == pre + Blank(cnt + 1) + st
  {
    assert [Bg] + Blank(cnt) == Blank(cnt + 1);
  }

  lemma GravityBlock(pre: seq<int>, v: int, st: seq<int>)
    ensures pre + [v] + Blank(0) + st == pre + Blank(0) + ([v] + st)
  {
    assert Blank(0) == [];
  }

  /** The state of redCol's scan from the bottom above row i: col holds
      c0 down to row i, then cnt empty cells, then the blocks of c0 below
      row i. */
  ghost predicate ColScan(c0: seq<int>, i: int, cnt: int, col: seq<int>) {
    && -1 <= i < |c0|
    && cnt == |c0| - 1 - i - |Stones(c0[i + 1..])|
    && col == c0[..i + 1] + Blank(cnt) + Stones(c0[i + 1..])
  }

  lemma ColScanStart(c0: seq<int>)
    requires |c0| > 0
    ensures ColScan(c0, |c0| - 1, 0, c0)
  {
    assert c0[|c0|..] == [];
    assert c0[..|c0|] == c0;
  }

  /** One step of redCol's scan, in each of its three cases. */
  lemma ColScanStep(c0: seq<int>, i: nat, cnt: int, col: seq<int>)
    requires ColScan(c0, i, cnt, col) && i < |c0|
    ensures i < |col| && col[i] == c0[i] && cnt >= 0
    ensures c0[i] == Bg ==> ColScan(c0, i - 1, cnt + 1, col)
    ensures c0[i] != Bg && cnt > 0 ==>
              i + cnt < |col| && ColScan(c0, i - 1, cnt, col[i + cnt := c0[i]][i := Bg])
    ensures c0[i] != Bg && cnt == 0 ==> ColScan(c0, i - 1, cnt, col)
  {
    var st := Stones(c0[i + 1..]);
    StonesFrom(c0, i);
    var pre := c0[..i];
    assert c0[..i + 1] == pre + [c0[i]];
    if c0[i] == Bg {
      GravityBlank(pre, cnt, st);
    } else if cnt > 0 {
      FallStep(pre, c0[i], cnt, st);
    } else {
      GravityBlock(pre, c0[i], st);
    }
  }

  lemma ColScanEnd(c0: seq<int>, cnt: int, col: seq<int>)
    requires ColScan(c0, -1, cnt, col)
    ensures col == Settle(c0)
  {
    assert c0[..0] == [] && c0[0..] == c0;
  }

  // ---------------------------------------------------------------------
  // Collapsing empty columns

  /** A column whose bottom cell holds a block. */
  predicate Stands(col: seq<int>) {
    |col| > 0 && col[|col| - 1] != Bg
  }

  /** The standing columns of a board, left to right. */
  function Standing(B: seq<seq<int>>): (r: seq<seq<int>>)
    ensures |r| <= |B|
    ensures forall k :: 0 <= k < |r| ==> Stands(r[k])
  {
    if B == [] then []
    else Standing(B[..|B| - 1]) + (if Stands(B[|B| - 1]) then [B[|B| - 1]] else [])
  }

  /** A column's place once redRow has passed it: emptied if the column
      stood (it has moved left), unchanged otherwise. */
  function Vacate(col: seq<int>, ys: nat): seq<int> {
    if Stands(col) then Blank(ys) else col
  }

  /** The places lo..hi-1 of B once redRow has passed them. */
  function Vacated(B: seq<seq<int>>, lo: nat, hi: nat, ys: nat): (r: seq<seq<int>>)
    requires lo <= hi <= |B|
    ensures |r| == hi - lo
    decreases hi - lo
  {
    if lo == hi then [] else Vacated(B, lo, hi - 1, ys) + [Vacate(B[hi - 1], ys)]
  }

  /** A board after the empty columns have been shifted out to the right:
      the standing columns first, in order, then the remaining places,
      each emptied where a standing column left it. */
  function Collapse(B: seq<seq<int>>, ys: nat): (r: seq<seq<int>>)
    ensures |r| == |B|
  {
    Standing(B) + Vacated(B, |Standing(B)|, |B|, ys)
  }

  lemma {:induction false} VacatedAt(B: seq<seq<int>>, lo: nat, hi: nat, ys: nat, k: nat)
    requires lo <= hi <= |B| && k < hi - lo
    ensures Vacated(B, lo, hi, ys)[k] == Vacate(B[lo + k], ys)
    decreases hi - lo
  {
    if k < hi - lo - 1 {
      VacatedAt(B, lo, hi - 1, ys, k);
    }
  }

  lemma {:induction false} VacatedFirst(B: seq<seq<int>>, lo: nat, hi: nat, ys: nat)
    requires lo < hi <= |B|
    ensures Vacated(B, lo, hi, ys) == [Vacate(B[lo], ys)] + Vacated(B, lo + 1, hi, ys)
    decreases hi - lo
  {
    if lo + 1 < hi {
      VacatedFirst(B, lo, hi - 1, ys);
    }
  }

  /** The columns of the collapsed board: the standing ones, then each
      remaining place vacated. */
  lemma CollapseAt(B: seq<seq<int>>, ys: nat, k: nat)
    requires k < |B|
    ensures k < |Standing(B)| ==> Collapse(B, ys)[k] == Standing(B)[k]
    ensures |Standing(B)| <= k ==> Collapse(B, ys)[k] == Vacate(B[k], ys)
  {
    if |Standing(B)| <= k {
      VacatedAt(B, |Standing(B)|, |B|, ys, k - |Standing(B)|);
    }
  }

  /** Every column of Standing(B) is a column of B. */
  lemma {:induction false} StandingFrom(B: seq<seq<int>>)
    ensures forall k :: 0 <= k < |Standing(B)| ==> Standing(B)[k] in B
  {
    if B != [] {
      var C := B[..|B| - 1];
      StandingFrom(C);
      forall k | 0 <= k < |Standing(B)| ensures Standing(B)[k] in B {
        if k < |Standing(C)| {
          assert Standing(B)[k] == Standing(C)[k];
          assert Standing(C)[k] in C;
        }
      }
    }
  }

  /** Collapsing moves whole columns and empties some: a grid of colours
      in 0..hi stays one. */
  lemma CollapseRange(B: seq<seq<int>>, ys: nat, hi: int)
    requires forall k :: 0 <= k < |B| ==> |B[k]| == ys && forall y :: 0 <= y < ys ==> 0 <= B[k][y] <= hi
    ensures forall k :: 0 <= k < |B| ==> |Collapse(B, ys)[k]| == ys
    ensures forall k, y :: 0 <= k < |B| && 0 <= y < ys ==> 0 <= Collapse(B, ys)[k][y] <= hi
  {
    var C := Collapse(B, ys);
    StandingFrom(B);
    forall k | 0 <= k < |B| ensures |C[k]| == ys && forall y :: 0 <= y < ys ==> 0 <= C[k][y] <= hi {
      CollapseAt(B, ys, k);
      assert C[k] == Blank(ys) || C[k] in B;
    }
  }

  /** A settled column whose bottom is empty is empty. */
  lemma SettledDown(col: seq<int>)
    requires Settled(col) && !Stands(col)
    ensures col == Blank(|col|)
  {
    forall i | 0 <= i < |col| ensures col[i] == Bg {
    }
  }

  /** On a board whose columns are all settled, the places right of the
      standing columns are empty. */
  lemma CollapseSettled(B: seq<seq<int>>, ys: nat)
    requires forall k :: 0 <= k < |B| ==> |B[k]| == ys && Settled(B[k])
    ensures forall k :: |Standing(B)| <= k < |B| ==> Collapse(B, ys)[k] == Blank(ys)
  {
    forall k | |Standing(B)| <= k < |B|
      ensures Collapse(B, ys)[k] == Blank(ys)
    {
      CollapseAt(B, ys, k);
      if !Stands(B[k]) {
        SettledDown(B[k]);
      }
    }
  }

  /** The state of redRow's scan before column i: the standing columns
      so far, then the cnt places they have vacated or skipped, then the
      columns not yet looked at. */
  ghost predicate RowScan(B: seq<seq<int>>, i: nat, cnt: int, cols: seq<seq<int>>, ys: nat) {
    && i <= |B| && cnt == i - |Standing(B[..i])|
    && cols == Standing(B[..i]) + Vacated(B, i - cnt, i, ys) + B[i..]
  }

  lemma RowScanStart(B: seq<seq<int>>, ys: nat)
    ensures RowScan(B, 0, 0, B, ys)
  {
    assert B[..0] == [] && B[0..] == B;
  }

  lemma RowScanLook(B: seq<seq<int>>, i: nat, cnt: int, cols: seq<seq<int>>, ys: nat)
    requires RowScan(B, i, cnt, cols, ys) && i < |B|
    ensures 0 <= cnt <= i && |cols| == |B| && cols[i] == B[i]
  {
  }

  lemma RowScanAt(B: seq<seq<int>>, i: nat, cnt: int, cols: seq<seq<int>>, ys: nat)
    requires RowScan(B, i, cnt, cols, ys) && i < |B|
    ensures 0 <= cnt <= i && cols[i] == B[i] && |cols| == |B|
    ensures Standing(B[..i + 1]) == Standing(B[..i]) + (if Stands(B[i]) then [B[i]] else [])
  {
    assert B[..i + 1][..i] == B[..i];
  }

  /** A column that does not stand is skipped. */
  lemma RowSkip(B: seq<seq<int>>, i: nat, cnt: int, cols: seq<seq<int>>, ys: nat)
    requires RowScan(B, i, cnt, cols, ys) && i < |B| && !Stands(B[i])
    ensures RowScan(B, i + 1, cnt + 1, cols, ys)
  {
    RowScanAt(B, i, cnt, cols, ys);
    assert B[i..] == [B[i]] + B[i + 1..];
  }

  /** A standing column moves left past the cnt > 0 places before it. */
  lemma RowMove(B: seq<seq<int>>, i: nat, cnt: int, cols: seq<seq<int>>, ys: nat)
    requires RowScan(B, i, cnt, cols, ys) && i < |B| && Stands(B[i]) && cnt > 0
    ensures RowScan(B, i + 1, cnt, cols[i - cnt := cols[i]][i := Blank(ys)], ys)
  {
    RowScanAt(B, i, cnt, cols, ys);
    var S := Standing(B[..i]);
    var W := Vacated(B, i - cnt + 1, i, ys);
    VacatedFirst(B, i - cnt, i, ys);
    assert B[i..] == [B[i]] + B[i + 1..];
    assert cols == S + [Vacate(B[i - cnt], ys)] + W + [B[i]] + B[i + 1..];
    var l := cols[i - cnt := cols[i]][i := Blank(ys)];
    assert l == (S + [B[i]]) + (W + [Vacate(B[i], ys)]) + B[i + 1..];
  }

  /** A standing column with no gap before it stays. */
  lemma RowKeep(B: seq<seq<int>>, i: nat, cnt: int, cols: seq<seq<int>>, ys: nat)
    requires RowScan(B, i, cnt, cols, ys) && i < |B| && Stands(B[i]) && cnt == 0
    ensures RowScan(B, i + 1, cnt, cols, ys)
  {
    RowScanAt(B, i, cnt, cols, ys);
    assert B[i..] == [B[i]] + B[i + 1..];
  }

  lemma RowScanEnd(B: seq<seq<int>>, i: nat, cnt: int, cols: seq<seq<int>>, ys: nat)
    requires RowScan(B, i, cnt, cols, ys) && i == |B|
    ensures cols == Collapse(B, ys)
  {
    assert B[..|B|] == B && B[|B|..] == [];
  }
}
