/**
 * Reference definitions for the read-only walks of the search: the
 * optimal path through solved nodes, the traversal cost of a descent, the
 * null-child choice of the finalized levels, and the colour tally of the
 * tabu playout.
 */
module Paths {
  import opened Arena

  /** The lowest index holding the maximum of v: an entry replaces the
      current choice only when strictly larger. */
  function ArgMax(v: seq<int>): (k: int)
    requires |v| > 0
    ensures 0 <= k < |v|
    ensures forall i :: 0 <= i < |v| ==> v[i] <= v[k]
    ensures forall i :: 0 <= i < k ==> v[i] < v[k]
  {
    if |v| == 1 then 0
    else
      var k := ArgMax(v[..|v| - 1]);
      if v[|v| - 1] > v[k] then |v| - 1 else k
  }

  /** ArgMax is the only index that is a maximum and beats every entry
      before it. */
  lemma ArgMaxUnique(v: seq<int>, k: int)
    requires 0 <= k < |v|
    requires forall i :: 0 <= i < |v| ==> v[i] <= v[k]
    requires forall i :: 0 <= i < k ==> v[i] < v[k]
    ensures k == ArgMax(v)
  {
    var m := ArgMax(v);
    assert v[m] <= v[k] && v[k] <= v[m];
  }

  /** ArgMax of a prefix grows one entry at a time like the scanning loop. */
  lemma ArgMaxStep(v: seq<int>, i: int)
    requires 0 < i < |v|
    ensures ArgMax(v[..i + 1]) == if v[i] > v[ArgMax(v[..i])] then i else ArgMax(v[..i])
  {
    assert v[..i + 1][..i] == v[..i];
  }

  /** What moving to child slot i of d is worth along an optimal path: the
      child's best score plus the score of the move. */
  function Gains(N: seq<Node>, d: Node): (v: seq<int>)
    ensures |v| == |d.child|
  {
    seq(|d.child|, i requires 0 <= i < |d.child| =>
      if 0 <= d.child[i] < |N| && i < |d.score| then N[d.child[i]].topscore + d.score[i] else 0)
  }

  /** From node n on, every node on the optimal path has all its children
      expanded, each with fewer blocks, so the path can be followed to a
      node without children. */
  ghost predicate Complete(N: seq<Node>, n: int)
    decreases if 0 <= n < |N| then N[n].blocks else 0
  {
    && 0 < n < |N|
    && |N[n].score| == |N[n].child| && 2 * |N[n].child| <= |N[n].moves|
    && (forall k :: 0 <= k < |N[n].child| ==> 0 < N[n].child[k] < |N| && N[N[n].child[k]].blocks < N[n].blocks)
    && (|N[n].child| > 0 ==> Complete(N, N[n].child[ArgMax(Gains(N, N[n]))]))
  }

  /** The slot the optimal path takes at node n. */
  function Pick(N: seq<Node>, n: int): (k: int)
    requires 0 <= n < |N| && |N[n].child| > 0
    ensures 0 <= k < |N[n].child|
  {
    ArgMax(Gains(N, N[n]))
  }

  /** The score of the optimal path from n: the move scores along it plus
      the best score of the node it ends in. */
  ghost function PathValue(N: seq<Node>, n: int): int
    requires Complete(N, n)
    decreases N[n].blocks
  {
    if |N[n].child| == 0 then N[n].topscore
    else
      var k := Pick(N, n);
      N[n].score[k] + PathValue(N, N[n].child[k])
  }

  /** The moves of the optimal path from n (the first coordinate of each
      move). */
  ghost function PathMoves(N: seq<Node>, n: int): seq<int>
    requires Complete(N, n)
    decreases N[n].blocks
  {
    if |N[n].child| == 0 then []
    else
      var k := Pick(N, n);
      [N[n].moves[2 * k]] + PathMoves(N, N[n].child[k])
  }

  /** The node the optimal path from n ends in. */
  ghost function PathLeaf(N: seq<Node>, n: int): (m: int)
    requires Complete(N, n)
    ensures 0 < m < |N| && |N[m].child| == 0
    decreases N[n].blocks
  {
    if |N[n].child| == 0 then n else PathLeaf(N, N[n].child[Pick(N, n)])
  }

  /** One step along the optimal path. */
  lemma PathStep(N: seq<Node>, n: int)
    requires Complete(N, n) && |N[n].child| > 0
    ensures var k := Pick(N, n); var c := N[n].child[k];
      && Complete(N, c) && N[c].blocks < N[n].blocks && 2 * k + 1 < |N[n].moves| && k < |N[n].score|
      && PathValue(N, n) == N[n].score[k] + PathValue(N, c)
      && PathMoves(N, n) == [N[n].moves[2 * k]] + PathMoves(N, c)
      && PathLeaf(N, n) == PathLeaf(N, c)
  {
  }

  /** The path has one move per step and cannot be longer than the
      number of blocks it starts from. */
  lemma {:induction false} PathLength(N: seq<Node>, n: int)
    requires Complete(N, n)
    ensures |PathMoves(N, n)| <= N[n].blocks
    decreases N[n].blocks
  {
    if |N[n].child| > 0 {
      PathLength(N, N[n].child[Pick(N, n)]);
    }
  }

  /** Every step of the optimal path is a best step: no other child is
      worth more. */
  lemma PathIsBest(N: seq<Node>, n: int, k: int)
    requires Complete(N, n) && 0 <= k < |N[n].child|
    ensures N[n].score[k] + N[N[n].child[k]].topscore <= N[n].score[Pick(N, n)] + N[N[n].child[Pick(N, n)]].topscore
  {
    var v := Gains(N, N[n]);
    assert v[k] <= v[Pick(N, n)];
  }

  /** H is the history H0 after a descent of the optimal path from root,
      written from the given depth on, has reached r at depth j: the moves
      so far fill H[depth..j], their scores are added to H[0], and nothing
      else of H0 has changed. */
  ghost predicate Descent(N: seq<Node>, root: int, r: int, depth: int, j: int, H0: seq<int>, H: seq<int>) {
    && Complete(N, root) && Complete(N, r) && 1 <= depth <= j <= |H| == |H0|
    && j + |PathMoves(N, r)| <= |H|
    && H[depth..j] + PathMoves(N, r) == PathMoves(N, root)
    && H[0] + PathValue(N, r) == H0[0] + PathValue(N, root)
    && PathLeaf(N, r) == PathLeaf(N, root)
    && (forall i :: 0 < i < depth || j <= i < |H| ==> H[i] == H0[i])
  }

  /** The descent starts at root with nothing written. */
  lemma DescentStart(N: seq<Node>, root: int, depth: int, H: seq<int>)
    requires Complete(N, root) && 1 <= depth && depth + |PathMoves(N, root)| <= |H|
    ensures Descent(N, root, root, depth, depth, H, H)
  {
  }

  /** One step of the descent: the best child is taken, its move written at
      depth j and its score added to H[0]. */
  lemma DescentStep(N: seq<Node>, root: int, r: int, depth: int, j: int, H0: seq<int>, H: seq<int>)
    requires Descent(N, root, r, depth, j, H0, H) && |N[r].child| > 0
    ensures var k := Pick(N, r);
      && j < |H| && 2 * k < |N[r].moves| && k < |N[r].score|
      && Descent(N, root, N[r].child[k], depth, j + 1, H0, H[0 := H[0] + N[r].score[k]][j := N[r].moves[2 * k]])
  {
    var k := Pick(N, r);
    var c := N[r].child[k];
    PathStep(N, r);
    var H' := H[0 := H[0] + N[r].score[k]][j := N[r].moves[2 * k]];
    assert H'[depth..j + 1] == H[depth..j] + [N[r].moves[2 * k]];
  }

  /** A descent that reached a node without children has written the
      whole optimal path. */
  lemma DescentDone(N: seq<Node>, root: int, r: int, depth: int, j: int, H0: seq<int>, H: seq<int>)
    requires Descent(N, root, r, depth, j, H0, H) && |N[r].child| == 0
    ensures r == PathLeaf(N, root) && j == depth + |PathMoves(N, root)|
    ensures H[depth..j] == PathMoves(N, root)
    ensures H[0] + N[r].topscore == H0[0] + PathValue(N, root)
  {
  }

  /** The number of depths j in [a, b) at which a descent pays one unit of
      traversal cost (j & 7 == 0, every eighth depth). */
  function Ticks(a: int, b: int): nat
    decreases b - a
  {
    if b <= a then 0 else Ticks(a, b - 1) + (if (b - 1) % 8 == 0 then 1 else 0)
  }

  /** Ticks counts the multiples of 8 in [a, b): a descent of eight levels
      pays exactly one unit. */
  lemma {:induction false} TicksClosed(a: int, b: int)
    requires a <= b
    ensures Ticks(a, b) == (b + 7) / 8 - (a + 7) / 8
    decreases b - a
  {
    if a < b {
      TicksClosed(a, b - 1);
    }
  }

  /** The number of entries of s equal to v. */
  function Count(s: seq<int>, v: int): (n: nat)
    ensures n <= |s|
    ensures n == 0 <==> v !in s
  {
    if |s| == 0 then 0
    else
      assert s == s[..|s| - 1] + [s[|s| - 1]];
      Count(s[..|s| - 1], v) + (if s[|s| - 1] == v then 1 else 0)
  }

  lemma CountStep(s: seq<int>, i: int, v: int)
    requires 0 <= i < |s|
    ensures Count(s[..i + 1], v) == Count(s[..i], v) + (if s[i] == v then 1 else 0)
  {
    assert s[..i + 1][..i] == s[..i];
  }

  /** The null slot the finalized levels prefer among the first n slots of
      c: the first null slot is always taken, a later one only when its
      coin comes up (coins abstract the reservoir sampling draws). */
  function Reservoir(c: seq<int>, coins: seq<bool>, n: nat): (k: int)
    requires n <= |c|
    ensures -1 <= k < n
    ensures k >= 0 ==> c[k] == Null
    ensures k < 0 <==> Null !in c[..n]
    ensures k >= 0 ==> Null !in c[..k] || (k < |coins| && coins[k])
    ensures forall j :: k < j < n && c[j] == Null ==> !(j < |coins| && coins[j])
  {
    if n == 0 then -1
    else
      var k := Reservoir(c, coins, n - 1);
      assert c[..n] == c[..n - 1] + [c[n - 1]];
      if c[n - 1] == Null && (Count(c[..n - 1], Null) == 0 || (n - 1 < |coins| && coins[n - 1])) then n - 1
      else k
  }

  /** The sum of the counts of colours lo .. hi-1 in s. */
  function Tally(s: seq<int>, lo: int, hi: int): int
    decreases hi - lo
  {
    if hi <= lo then 0 else Tally(s, lo, hi - 1) + Count(s, hi - 1)
  }

  /** Adding one cell of colour v to s raises every tally whose range holds v. */
  lemma {:induction false} TallyPush(s: seq<int>, v: int, lo: int, hi: int)
    ensures Tally(s + [v], lo, hi) == Tally(s, lo, hi) + (if lo <= v < hi then 1 else 0)
    decreases hi - lo
  {
    assert (s + [v])[..|s|] == s;
    if lo < hi {
      TallyPush(s, v, lo, hi - 1);
    }
  }

  lemma TallyNone(lo: int, hi: int)
    ensures Tally([], lo, hi) == 0
    decreases hi - lo
  {
    if lo < hi {
      TallyNone(lo, hi - 1);
    }
  }

  /** On a board whose cells hold colours 0 .. colors, the tally of the
      colours 1 .. colors is the number of non-empty cells. */
  lemma {:induction false} TallyCovers(s: seq<int>, colors: int)
    requires forall i :: 0 <= i < |s| ==> 0 <= s[i] <= colors
    ensures Tally(s, 1, colors + 1) == |s| - Count(s, 0)
  {
    if |s| > 0 {
      var s0 := s[..|s| - 1];
      var v := s[|s| - 1];
      TallyCovers(s0, colors);
      assert s == s0 + [v];
      TallyPush(s0, v, 1, colors + 1);
      assert Count(s, 0) == Count(s0, 0) + (if v == 0 then 1 else 0);
    } else {
      TallyNone(1, colors + 1);
    }
  }

  /** Slot i of node n is reconquered while a finalized level is scanned:
      an expanded, unowned child reached now with at least its recorded
      score sum is adopted (B is Activate of A, stated node by node);
      otherwise nothing changes. */
  ghost predicate Activation(A: seq<Node>, B: seq<Node>, cap: nat, n: int, i: int, sum: int) {
    && 0 < n < |A| && 0 <= i < |A[n].child| && i < |A[n].own| && |B| == |A|
    && var c := A[n].child[i];
       if c != Null && 0 <= c < |A| && !A[n].own[i] && sum >= A[c].cum then
         forall m {:trigger Activate(A, cap, n, i, sum)[m]} :: 0 <= m < |A| ==> B[m] == Activate(A, cap, n, i, sum)[m]
       else B == A
  }

  /** Slot i is a candidate of the finalized choice in arena A: its child
      is expanded, unsolved and owned by n. */
  ghost predicate Candidate(A: seq<Node>, n: int, i: int) {
    && 0 <= n < |A| && 0 <= i < |A[n].child| && i < |A[n].own|
    && 0 <= A[n].child[i] < |A| && A[A[n].child[i]].t >= 0 && A[n].own[i]
  }

  /** The best score of the child in slot i of node n. */
  ghost function Top(N: seq<Node>, n: int, i: int): int {
    if 0 <= n < |N| && 0 <= i < |N[n].child| && 0 <= N[n].child[i] < |N| then N[N[n].child[i]].topscore else 0
  }

  /** The arena after the slots of a finalized level scanned so far: the
      last one seen, or N0 before the first slot. */
  ghost function Last(N0: seq<Node>, seen: seq<seq<Node>>): seq<Node> {
    if |seen| == 0 then N0 else seen[|seen| - 1]
  }

  /** Slot k of the finalized level at n was reconquered by an Activation
      from the arena before it (N0 for the first slot) into seen[k]. */
  ghost predicate Link(N0: seq<Node>, cap: nat, n: int, cum: int, seen: seq<seq<Node>>, k: int)
    requires 0 <= k < |seen|
  {
    0 <= n < |N0| && k < |N0[n].score| && Activation(if k == 0 then N0 else seen[k - 1], seen[k], cap, n, k, cum + N0[n].score[k])
  }

  /** Each slot among the first |seen| of the finalized level at n is a Link. */
  ghost predicate Chain(N0: seq<Node>, cap: nat, n: int, cum: int, seen: seq<seq<Node>>) {
    && 0 < n < |N0| && |seen| <= |N0[n].child| == |N0[n].score|
    && forall k :: 0 <= k < |seen| ==> Link(N0, cap, n, cum, seen, k)
  }

  /** bi is the lowest slot with the highest best score among the
      candidates of seen (slot k judged in seen[k]), or -1 without one. */
  ghost predicate Best(N0: seq<Node>, n: int, seen: seq<seq<Node>>, bi: int) {
    && -1 <= bi < |seen|
    && (bi >= 0 ==> 0 <= n < |N0| && bi < |N0[n].child| && 0 <= N0[n].child[bi] < |N0| && Candidate(seen[bi], n, bi))
    && (bi >= 0 ==> forall k :: 0 <= k < |seen| && Candidate(seen[k], n, k) ==>
          Top(N0, n, k) <= Top(N0, n, bi) && (k < bi ==> Top(N0, n, k) < Top(N0, n, bi)))
    && (bi < 0 ==> forall k :: 0 <= k < |seen| ==> !Candidate(seen[k], n, k))
  }

  /** The scan of a finalized level at node n of arena N0, reached with
      cum points, has passed the first |seen| slots: their reconquests
      form a Chain, bnull is the preferred null slot so far, and bi the
      Best candidate. */
  ghost predicate Scan(N0: seq<Node>, cap: nat, n: int, cum: int, coins: seq<bool>, seen: seq<seq<Node>>, bi: int, bnull: int) {
    && Chain(N0, cap, n, cum, seen)
    && bnull == Reservoir(N0[n].child, coins, |seen|)
    && Best(N0, n, seen, bi)
  }

  lemma ChainPush(N0: seq<Node>, cap: nat, n: int, cum: int, seen: seq<seq<Node>>,
                  A: seq<Node>, B: seq<Node>, i: int, sum: int)
    requires Chain(N0, cap, n, cum, seen) && i == |seen| < |N0[n].child|
    requires A == Last(N0, seen) && sum == cum + N0[n].score[i] && Activation(A, B, cap, n, i, sum)
    ensures Chain(N0, cap, n, cum, seen + [B])
  {
    var S := seen + [B];
    forall k | 0 <= k < |seen|
      ensures Link(N0, cap, n, cum, S, k)
    {
      LinkKept(N0, cap, n, cum, seen, B, k);
    }
    var P := if i == 0 then N0 else S[i - 1];
    assert S[i] == B && P == A;
    assert Activation(P, S[i], cap, n, i, cum + N0[n].score[i]);
    assert Link(N0, cap, n, cum, S, i);
  }

  lemma LinkKept(N0: seq<Node>, cap: nat, n: int, cum: int, seen: seq<seq<Node>>, B: seq<Node>, k: int)
    requires 0 <= k < |seen| && Link(N0, cap, n, cum, seen, k)
    ensures Link(N0, cap, n, cum, seen + [B], k)
  {
    var S := seen + [B];
    assert S[k] == seen[k];
    assert k > 0 ==> S[k - 1] == seen[k - 1];
  }

  /** A slot that is not a candidate leaves the choice as it is. */
  lemma BestKeep(N0: seq<Node>, n: int, seen: seq<seq<Node>>, bi: int, B: seq<Node>)
    requires Best(N0, n, seen, bi) && !Candidate(B, n, |seen|)
    ensures Best(N0, n, seen + [B], bi)
  {
    var S := seen + [B];
    assert forall k :: 0 <= k < |seen| ==> S[k] == seen[k];
  }

  /** A candidate slot replaces the choice exactly when its child's best
      score is strictly higher. */
  lemma BestPush(N0: seq<Node>, n: int, seen: seq<seq<Node>>, bi: int, B: seq<Node>)
    requires Best(N0, n, seen, bi) && Candidate(B, n, |seen|)
    requires 0 <= n < |N0| && |seen| < |N0[n].child| && |B| == |N0| && B[n].child == N0[n].child
    ensures var i := |seen|; Best(N0, n, seen + [B], if bi < 0 || Top(N0, n, i) > Top(N0, n, bi) then i else bi)
  {
    var S := seen + [B];
    assert forall k :: 0 <= k < |seen| ==> S[k] == seen[k];
  }

  /** One more slot of the scan for the null preference. */
  lemma ReservoirStep(c: seq<int>, coins: seq<bool>, i: int, nullcnt: int)
    requires 0 <= i < |c| && nullcnt == Count(c[..i], Null)
    ensures Reservoir(c, coins, i + 1) ==
      if c[i] == Null && (nullcnt + 1 == 1 || (i < |coins| && coins[i])) then i else Reservoir(c, coins, i)
  {
  }
}
