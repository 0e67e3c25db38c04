/**
 * Cells of the SameGame grid and the theory of "groups": the set of
 * cells a flood fill started at a cell reaches.  A group is specified
 * without paths, as the LEAST set that contains the start cell and is
 * closed under taking 4-neighbours inside the eligible set E (for
 * dfsKill: the cells of the colour being removed; for dfsMark: the
 * cells of that colour that are not marked yet).
 */
module Flood {

  datatype Cell = Cell(x: int, y: int)

  /** Horizontal or vertical neighbours. */
  predicate Adjacent(c: Cell, d: Cell) {
    || (c.x == d.x && (c.y == d.y + 1 || c.y + 1 == d.y))
    || (c.y == d.y && (c.x == d.x + 1 || c.x + 1 == d.x))
  }

  /** The four neighbours in the order dfsMark and dfsKill visit them. */
  function Neighbours(c: Cell): (ns: seq<Cell>)
    ensures |ns| == 4
    ensures forall i :: 0 <= i < 4 ==> Adjacent(c, ns[i])
    ensures forall d :: Adjacent(c, d) ==> d in ns
  {
    [Cell(c.x - 1, c.y), Cell(c.x + 1, c.y), Cell(c.x, c.y - 1), Cell(c.x, c.y + 1)]
  }

  /** Every E-neighbour of a cell of S is in S. */
  ghost predicate Closed(E: set<Cell>, S: set<Cell>) {
    forall c, d :: c in S && d in E && Adjacent(c, d) ==> d in S
  }

  /** S is the group of p within E: the least E-closed subset of E that
      contains p when p is eligible (and the empty set when it is not). */
  ghost predicate IsGroup(E: set<Cell>, p: Cell, S: set<Cell>) {
    && S <= E
    && (p in E ==> p in S)
    && Closed(E, S)
    && forall T :: Closed(E, T) && (p in E ==> p in T) ==> S <= T
  }

  lemma NotEligibleGroup(E: set<Cell>, p: Cell)
    requires p !in E
    ensures IsGroup(E, p, {})
  {
  }

  lemma {:induction false} GroupUnique(E: set<Cell>, p: Cell, S: set<Cell>, S': set<Cell>)
    requires IsGroup(E, p, S) && IsGroup(E, p, S')
    ensures S == S'
  {
    assert Closed(E, S) && Closed(E, S');
  }

  /** A proof state of the flood fill at cell p: acc has been filled; the
      only E-neighbours of acc still outside it are neighbours of p that
      are still pending. */
  ghost predicate Growing(E: set<Cell>, p: Cell, acc: set<Cell>, pending: seq<Cell>) {
    && p in E && p in acc && acc <= E
    && (forall d :: d in pending ==> Adjacent(p, d))
    && (forall T :: Closed(E, T) && p in T ==> acc <= T)
    && (forall c, d :: c in acc && d in E && Adjacent(c, d) ==> d in acc || (c == p && d in pending))
  }

  lemma GrowStart(E: set<Cell>, p: Cell)
    requires p in E
    ensures Growing(E, p, {p}, Neighbours(p))
  {
  }

  /** Filling the group of the next pending neighbour, within what is
      still eligible, extends the fill. */
  lemma {:induction false} GrowStep(E: set<Cell>, p: Cell, acc: set<Cell>, pending: seq<Cell>, g: set<Cell>)
    requires Growing(E, p, acc, pending) && pending != []
    requires IsGroup(E - acc, pending[0], g)
    ensures Growing(E, p, acc + g, pending[1..])
  {
    var n := pending[0];
    forall T | Closed(E, T) && p in T
      ensures acc + g <= T
    {
      assert Closed(E - acc, T);
      if n in E - acc {
        assert Adjacent(p, n);
        assert n in T;
      }
    }
    forall c, d | c in acc + g && d in E && Adjacent(c, d)
      ensures d in acc + g || (c == p && d in pending[1..])
    {
      if c in g {
        if d !in acc {
          assert d in E - acc;
        }
      } else if d !in acc {
        assert c == p && d in pending;
        if d == n {
          assert d in E - acc;
        } else {
          assert d in pending[1..];
        }
      }
    }
  }

  lemma GrowEnd(E: set<Cell>, p: Cell, acc: set<Cell>)
    requires Growing(E, p, acc, [])
    ensures IsGroup(E, p, acc)
  {
  }

  /** Whatever is in a group of a cell can reach the cell back. */
  lemma {:induction false} GroupSymmetric(E: set<Cell>, p: Cell, S: set<Cell>, q: Cell, R: set<Cell>)
    requires IsGroup(E, p, S) && IsGroup(E, q, R) && q in S
    ensures p in R
  {
    assert Closed(E, {});
    var D := S - R;
    forall c, d | c in D && d in E && Adjacent(c, d)
      ensures d in D
    {
      assert Adjacent(d, c);
      assert d in R ==> c in R;
    }
    assert Closed(E, D);
    assert p !in R ==> S <= D;
  }

  /** Two groups either coincide or are disjoint. */
  lemma {:induction false} GroupShared(E: set<Cell>, p: Cell, S: set<Cell>, q: Cell, R: set<Cell>)
    requires IsGroup(E, p, S) && IsGroup(E, q, R) && q in S
    ensures S == R
  {
    GroupSymmetric(E, p, S, q, R);
    assert Closed(E, S) && Closed(E, R);
    assert q in E && p in E;
  }

  /** A group that does not meet a closed set M is also the group of its
      cell within E - M: filling around a closed, already-visited region
      reaches the same cells. */
  lemma {:induction false} GroupAvoids(E: set<Cell>, M: set<Cell>, p: Cell, S: set<Cell>)
    requires IsGroup(E, p, S) && Closed(E, M) && p in E && p !in M
    ensures S * M == {}
    ensures IsGroup(E - M, p, S)
  {
    forall c, e | c in S - M && e in E && Adjacent(c, e)
      ensures e in S - M
    {
      assert e in S;
      assert Adjacent(e, c);
      assert e in M ==> c in M;
    }
    assert Closed(E, S - M);
    assert S <= S - M;
    forall T | Closed(E - M, T) && p in T
      ensures S <= T
    {
      forall c, d | c in T + M && d in E && Adjacent(c, d)
        ensures d in T + M
      {
        if d !in M {
          assert d in E - M;
        }
      }
      assert Closed(E, T + M);
    }
  }

  /** A group of more than one cell means its cell has an eligible neighbour. */
  lemma {:induction false} BigGroupHasNeighbour(E: set<Cell>, p: Cell, S: set<Cell>)
    requires IsGroup(E, p, S) && |S| > 1
    ensures p in E && exists d :: d in E && Adjacent(p, d)
  {
    assert Closed(E, {});
    assert S != {};
    var lonely := !exists d :: d in E && Adjacent(p, d);
    assert lonely ==> Closed(E, {p});
    SubsetCard(S, {p});
  }

  /** Conversely, an eligible neighbour of p is in p's group. */
  lemma {:induction false} NeighbourInGroup(E: set<Cell>, p: Cell, S: set<Cell>, d: Cell)
    requires IsGroup(E, p, S) && p in E && d in E && Adjacent(p, d)
    ensures d in S && p != d && |S| > 1
  {
    assert Closed(E, S);
    assert {p, d} <= S;
    assert |{p, d}| == 2;
    SubsetCard({p, d}, S);
  }

  lemma SubsetCard<T>(A: set<T>, B: set<T>)
    ensures A <= B ==> |A| <= |B|
  {
    if A <= B {
      assert B == A + (B - A);
    }
  }

  // ---------------------------------------------------------------------
  // A group always exists: the reference flood fill, as a closure.

  /** The E-cells adjacent to some cell of S. */
  ghost function Frontier(E: set<Cell>, S: set<Cell>): (F: set<Cell>)
    ensures F <= E
    ensures forall d :: d in F <==> d in E && exists c :: c in S && Adjacent(c, d)
  {
    set d | d in E && exists c :: c in S && Adjacent(c, d)
  }

  /** Adds E-neighbours to S until nothing new is reached. */
  ghost function Close(E: set<Cell>, S: set<Cell>): (R: set<Cell>)
    requires S <= E
    decreases |E - S|
  {
    var F := Frontier(E, S);
    if F <= S then S
    else
      assert E - (S + F) < E - S;
      SubsetCardStrict(E - (S + F), E - S);
      Close(E, S + F)
  }

  lemma SubsetCardStrict<T>(A: set<T>, B: set<T>)
    requires A < B
    ensures |A| < |B|
  {
    assert B == A + (B - A);
    assert B - A != {};
  }

  lemma {:induction false} CloseProperties(E: set<Cell>, S: set<Cell>)
    requires S <= E
    ensures S <= Close(E, S) <= E
    ensures Closed(E, Close(E, S))
    ensures forall T :: Closed(E, T) && S <= T ==> Close(E, S) <= T
    decreases |E - S|
  {
    var F := Frontier(E, S);
    if F <= S {
      forall c, d | c in S && d in E && Adjacent(c, d)
        ensures d in S
      {
        assert d in F;
      }
    } else {
      assert E - (S + F) < E - S;
      SubsetCardStrict(E - (S + F), E - S);
      CloseProperties(E, S + F);
      forall T | Closed(E, T) && S <= T
        ensures Close(E, S) <= T
      {
        assert F <= T;
      }
    }
  }

  /** The group of p in E. */
  ghost function GroupOf(E: set<Cell>, p: Cell): (S: set<Cell>)
    ensures IsGroup(E, p, S)
  {
    if p in E then
      CloseProperties(E, {p});
      Close(E, {p})
    else
      NotEligibleGroup(E, p);
      {}
  }
}
