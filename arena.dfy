/**
 * The search tree of the Monte-Carlo tree search, as an arena: every node
 * lives in a sequence and is referred to by its index.  Index 0 holds the
 * shared "dead child" and `Null` (-1) stands for a missing parent or a child
 * that has not been expanded yet.  The board of a node is represented by the
 * number of blocks still on it: a move removes at least one block, so a
 * child has fewer blocks than its parent and walking up the parent chain
 * terminates.
 */
module Arena {
  import opened Rules

  const Null := -1

  /** Integer.MIN_VALUE: the top score of a node nothing was recorded in. */
  const IntMin := -2147483648

  datatype Node = Node(
    p: int,              // parent, or Null
    moves: seq<int>,     // pairs (move, area of the group it removes)
    score: seq<int>,     // score[k]: points of move k
    cum: int,            // best accumulated score reaching this state
    t: int,              // visits; negative once the node is solved
    cnt: int,            // number of owned child slots
    live: int,           // number of unsolved children
    topscore: int,       // best sample recorded here
    hasLeafHit: bool,    // a terminal node lies below
    child: seq<int>,     // child[k]: node reached by move k, or Null
    own: seq<bool>,      // own[k]: this node is the parent of child[k]
    blocks: nat)         // blocks left on the node's board

  /** The dead child: no moves, no children, t == -1. */
  const Dead := Node(Null, [], [], 0, -1, 0, 0, 0, false, [], [], 0)

  /** Number of owned slots. */
  function Owned(own: seq<bool>): (n: nat)
    ensures n <= |own|
  {
    if own == [] then 0 else Owned(own[..|own| - 1]) + (if own[|own| - 1] then 1 else 0)
  }

  lemma {:induction false} OwnedFlip(own: seq<bool>, k: int, b: bool)
    requires 0 <= k < |own|
    ensures Owned(own[k := b]) == Owned(own) - (if own[k] then 1 else 0) + (if b then 1 else 0)
    decreases |own|
  {
    var n := |own| - 1;
    if k < n {
      assert own[k := b][..n] == own[..n][k := b];
      OwnedFlip(own[..n], k, b);
    } else {
      assert own[k := b][..n] == own[..n];
    }
  }

  lemma {:induction false} OwnedAll(n: nat)
    ensures Owned(seq(n, _ => true)) == n
  {
    if n > 0 {
      assert seq(n, _ => true)[..n - 1] == seq(n - 1, _ => true);
      OwnedAll(n - 1);
    }
  }

  /** d is the node built for a board with the given moves and blocks: one
      owned, unexpanded slot per move, the square-law score of each move,
      no visits and no recorded score. */
  ghost predicate Initial(d: Node, moves: seq<int>, blocks: nat) {
    var n := |moves| / 2;
    && d.moves == moves && d.blocks == blocks
    && |d.score| == n && (forall k :: 0 <= k < n ==> d.score[k] == Sq(moves[2 * k + 1] - 2))
    && d.child == seq(n, _ => Null) && d.own == seq(n, _ => true)
    && d.t == 0 && d.cnt == n && d.live == n && d.topscore == IntMin && !d.hasLeafHit
  }

  // ---------------------------------------------------------------------
  // Well-formed arenas.

  /** Slot contents: an unexpanded slot is always owned; an expanded one
      refers to a real node with fewer blocks that has some parent. */
  ghost predicate Slot(N: seq<Node>, d: Node, c: int, owned: bool) {
    || (c == Null && owned)
    || (0 < c < |N| && N[c].blocks < d.blocks && N[c].p != Null)
  }

  /** The sizes of d agree and its links are indices of N. */
  predicate Framed(N: seq<Node>, d: Node) {
    && |d.child| == |d.own| == |d.score| == |d.moves| / 2
    && (d.p == Null || 0 < d.p < |N|)
    && forall k :: 0 <= k < |d.child| ==> d.child[k] == Null || 0 < d.child[k] < |N|
  }

  /** d is a consistent node of the arena N. */
  ghost predicate Fits(N: seq<Node>, d: Node, cap: nat) {
    && |d.child| == |d.own| == |d.score| == |d.moves| / 2
    && d.blocks <= cap
    && d.cnt == Owned(d.own)
    && (d.p == Null || (0 < d.p < |N| && N[d.p].blocks > d.blocks))
    && forall k :: 0 <= k < |d.child| ==> Slot(N, d, d.child[k], d.own[k])
  }

  /** The arena invariant; cap bounds the blocks of every board. */
  ghost predicate Linked(N: seq<Node>, cap: nat) {
    && |N| > 0 && N[0] == Dead
    && (forall n :: 0 <= n < |N| ==> Framed(N, N[n]))
    && forall n {:trigger Fits(N, N[n], cap)} :: 0 <= n < |N| ==> Fits(N, N[n], cap)
  }

  /** The duplicate table maps board hashes to real nodes that have a parent. */
  ghost predicate Filed(T: map<int, int>, N: seq<Node>) {
    forall key :: key in T ==> 0 < T[key] < |N| && N[T[key]].p != Null
  }

  /** The fields the arena invariant depends on, and the best score:
      everything that counting visits and leaf hits leave alone. */
  function Shape(d: Node): (seq<int>, int, seq<int>, seq<bool>, int, seq<int>, nat, int) {
    (d.moves, d.p, d.child, d.own, d.cnt, d.score, d.blocks, d.topscore)
  }

  /** Changing only statistics (visits, scores, flags) keeps an arena valid. */
  lemma Reshaped(N: seq<Node>, M: seq<Node>, cap: nat)
    requires Linked(N, cap) && |M| == |N| && M[0] == N[0]
    requires forall n :: 0 <= n < |N| ==> Shape(M[n]) == Shape(N[n])
    ensures Linked(M, cap)
  {
    forall n | 0 <= n < |M|
      ensures Fits(M, M[n], cap)
    {
      var d := M[n];
      assert Fits(N, N[n], cap);
      forall k | 0 <= k < |d.child|
        ensures Slot(M, d, d.child[k], d.own[k])
      {
        assert Slot(N, N[n], d.child[k], d.own[k]);
        if d.child[k] != Null {
          assert Shape(M[d.child[k]]) == Shape(N[d.child[k]]);
        }
      }
      if d.p != Null {
        assert Shape(M[d.p]) == Shape(N[d.p]);
      }
    }
  }

  // ---------------------------------------------------------------------
  // Parent chains.

  /** n is p or one of p's ancestors. */
  ghost predicate OnChain(N: seq<Node>, cap: nat, p: int, n: int)
    decreases if 0 <= p < |N| && N[p].blocks <= cap then cap - N[p].blocks + 1 else 0
  {
    && 0 < p < |N| && N[p].blocks <= cap
    && (n == p || (var q := N[p].p; 0 < q < |N| && N[q].blocks > N[p].blocks && OnChain(N, cap, q, n)))
  }

  lemma ChainStep(N: seq<Node>, cap: nat, p: int, n: int)
    requires Linked(N, cap) && 0 < p < |N|
    ensures OnChain(N, cap, p, n) <==> n == p || OnChain(N, cap, N[p].p, n)
  {
    assert Fits(N, N[p], cap);
  }

  lemma {:induction false} ChainBlocks(N: seq<Node>, cap: nat, p: int, n: int)
    requires OnChain(N, cap, p, n)
    ensures 0 < n < |N| && N[n].blocks >= N[p].blocks
    decreases cap - N[p].blocks + 1
  {
    if n != p {
      ChainBlocks(N, cap, N[p].p, n);
    }
  }

  /** A node is never its own strict ancestor. */
  lemma ChainAcyclic(N: seq<Node>, cap: nat, p: int)
    requires Linked(N, cap) && 0 < p < |N|
    ensures !OnChain(N, cap, N[p].p, p)
  {
    assert Fits(N, N[p], cap);
    if OnChain(N, cap, N[p].p, p) {
      ChainBlocks(N, cap, N[p].p, p);
    }
  }

  lemma {:induction false} ChainTrans(N: seq<Node>, cap: nat, p: int, q: int, n: int)
    requires OnChain(N, cap, p, q) && OnChain(N, cap, q, n)
    ensures OnChain(N, cap, p, n)
    decreases cap - N[p].blocks + 1
  {
    if q != p {
      ChainTrans(N, cap, N[p].p, q, n);
    }
  }

  /** Chains depend only on the parent links and blocks. */
  lemma {:induction false} ChainFrame(N: seq<Node>, M: seq<Node>, cap: nat, p: int, n: int)
    requires |M| == |N|
    requires forall m :: 0 <= m < |N| ==> M[m].p == N[m].p && M[m].blocks == N[m].blocks
    ensures OnChain(N, cap, p, n) == OnChain(M, cap, p, n)
    decreases if 0 <= p < |N| && N[p].blocks <= cap then cap - N[p].blocks + 1 else 0
  {
    if 0 < p < |N| && N[p].blocks <= cap && n != p {
      var q := N[p].p;
      if 0 < q < |N| && N[q].blocks > N[p].blocks {
        ChainFrame(N, M, cap, q, n);
      }
    }
  }

  /** Applies f to the nodes on p0's chain that are not on p's chain: the
      part of the walk from p0 up to (not including) p. */
  ghost function Along(N: seq<Node>, cap: nat, p0: int, p: int, f: Node -> Node): (M: seq<Node>)
    ensures |M| == |N|
  {
    seq(|N|, n requires 0 <= n < |N| =>
      if OnChain(N, cap, p0, n) && !OnChain(N, cap, p, n) then f(N[n]) else N[n])
  }

  /** One step of a walk up the chain. */
  lemma AlongStep(N: seq<Node>, cap: nat, p0: int, p: int, f: Node -> Node)
    requires Linked(N, cap) && 0 < p < |N| && OnChain(N, cap, p0, p)
    ensures Along(N, cap, p0, N[p].p, f) == Along(N, cap, p0, p, f)[p := f(N[p])]
    ensures N[p].p != Null ==> OnChain(N, cap, p0, N[p].p)
  {
    ChainBlocks(N, cap, p0, p);
    ChainAcyclic(N, cap, p);
    var q := N[p].p;
    var A := Along(N, cap, p0, p, f);
    var B := Along(N, cap, p0, q, f);
    forall n | 0 <= n < |N|
      ensures B[n] == A[p := f(N[p])][n]
    {
      ChainStep(N, cap, p, n);
    }
    assert B == A[p := f(N[p])];
    if q != Null {
      assert Fits(N, N[p], cap) && Fits(N, N[q], cap);
      ChainStep(N, cap, p, q);
      ChainTrans(N, cap, p0, p, q);
    }
  }

  lemma AlongStart(N: seq<Node>, cap: nat, p0: int, f: Node -> Node)
    ensures Along(N, cap, p0, p0, f) == N
  {
  }

  /** Adds d visits to a node. */
  function Retime(d: int): Node -> Node {
    (x: Node) => x.(t := x.t + d)
  }

  /** Marks a node as having a terminal node below. */
  function Light(): Node -> Node {
    (x: Node) => x.(hasLeafHit := true)
  }

  /** The arena after adding d visits to p and all its ancestors. */
  ghost function Shift(N: seq<Node>, cap: nat, p: int, d: int): seq<Node> {
    Along(N, cap, p, Null, Retime(d))
  }

  /** Adding and then removing the same visits restores every node. */
  lemma ShiftBack(N: seq<Node>, cap: nat, p: int, d: int)
    requires Linked(N, cap)
    ensures Linked(Shift(N, cap, p, d), cap)
    ensures Shift(Shift(N, cap, p, d), cap, p, -d) == N
  {
    var M := Shift(N, cap, p, d);
    AlongShape(N, cap, p, Null, Retime(d));
    Reshaped(N, M, cap);
    forall m | 0 <= m < |N|
      ensures M[m].p == N[m].p && M[m].blocks == N[m].blocks
    {
    }
    var B := Shift(M, cap, p, -d);
    forall n | 0 <= n < |N|
      ensures B[n] == N[n]
    {
      ChainFrame(N, M, cap, p, n);
    }
    assert B == N;
  }

  /** The arena after marking leaf and all its ancestors as having a
      terminal node below. */
  ghost function Lit(N: seq<Node>, cap: nat, leaf: int): seq<Node> {
    Along(N, cap, leaf, Null, Light())
  }

  /** Walks keep the parent links, the blocks and node 0. */
  lemma AlongShape(N: seq<Node>, cap: nat, p0: int, p: int, f: Node -> Node)
    requires forall x: Node :: Shape(f(x)) == Shape(x)
    ensures |N| > 0 ==> Along(N, cap, p0, p, f)[0] == N[0]
    ensures forall n :: 0 <= n < |N| ==> Shape(Along(N, cap, p0, p, f)[n]) == Shape(N[n])
  {
    if OnChain(N, cap, p0, 0) {
      ChainBlocks(N, cap, p0, 0);
    }
  }

  /** First index of v in s, or -1. */
  function First(s: seq<int>, v: int): (k: int)
    ensures -1 <= k < |s|
    ensures k >= 0 ==> s[k] == v && v !in s[..k]
    ensures k < 0 <==> v !in s
  {
    if s == [] then -1
    else if s[0] == v then 0
    else
      var r := First(s[1..], v);
      assert s[1..][..r + 1] == s[1..r + 2] || r < 0;
      if r < 0 then -1 else r + 1
  }

  /** Node d owns its child c: c is in one of its slots, and the first such
      slot is owned. */
  predicate Owns(d: Node, c: int) {
    var k := First(d.child, c);
    0 <= k < |d.own| && d.own[k]
  }

  /** Node d still has an unsolved child: an unexpanded slot, or a child
      whose visit count is not negative. */
  ghost predicate Alive(N: seq<Node>, d: Node) {
    exists k :: 0 <= k < |d.child| && Unsolved(N, d.child[k])
  }

  /** An unexpanded slot, or a node whose visit count is not negative. */
  predicate Unsolved(N: seq<Node>, c: int) {
    c == Null || (0 <= c < |N| && N[c].t >= 0)
  }

  // ---------------------------------------------------------------------
  // Changing links.

  /** Same length, parents, children, blocks and best scores; ownership
      can only have been given up. */
  ghost predicate Revoked(N: seq<Node>, M: seq<Node>) {
    && |M| == |N|
    && forall m :: 0 <= m < |N| ==>
         && M[m].p == N[m].p && M[m].child == N[m].child && M[m].blocks == N[m].blocks
         && M[m].topscore == N[m].topscore
         && |M[m].own| == |N[m].own|
         && forall j :: 0 <= j < |N[m].own| && M[m].own[j] ==> N[m].own[j]
  }

  lemma RestatRevoked(N: seq<Node>, M: seq<Node>)
    requires |M| == |N| && forall n :: 0 <= n < |N| ==> Shape(M[n]) == Shape(N[n])
    ensures Revoked(N, M)
  {
    forall m | 0 <= m < |N|
      ensures M[m].p == N[m].p && M[m].child == N[m].child && M[m].blocks == N[m].blocks && M[m].own == N[m].own
      ensures M[m].topscore == N[m].topscore
    {
      assert Shape(M[m]) == Shape(N[m]);
    }
  }

  /** Sets the ownership of slot k of node n and recounts. */
  function SetOwn(d: Node, k: int, b: bool): Node {
    if 0 <= k < |d.own| then
      d.(own := d.own[k := b], cnt := d.cnt - (if d.own[k] then 1 else 0) + (if b then 1 else 0))
    else d
  }

  lemma RevokeOne(N: seq<Node>, n: int, k: int)
    requires 0 <= n < |N| && 0 <= k < |N[n].own|
    ensures Revoked(N, N[n := SetOwn(N[n], k, false)])
  {
  }

  lemma RevokedTrans(A: seq<Node>, B: seq<Node>, C: seq<Node>)
    requires Revoked(A, B) && Revoked(B, C)
    ensures Revoked(A, C)
  {
  }

  /** A consistent node stays consistent when nodes are appended or other
      nodes change without changing their blocks or whether they have a
      parent. */
  lemma FitsFrame(N: seq<Node>, M: seq<Node>, d: Node, cap: nat)
    requires Fits(N, d, cap) && |N| <= |M|
    requires forall x :: 0 <= x < |N| ==> M[x].blocks == N[x].blocks && (M[x].p == Null <==> N[x].p == Null)
    ensures Fits(M, d, cap)
  {
    forall k | 0 <= k < |d.child|
      ensures Slot(M, d, d.child[k], d.own[k])
    {
      assert Slot(N, d, d.child[k], d.own[k]);
    }
  }

  /** The arena invariant after replacing or appending nodes. */
  lemma Replace(N: seq<Node>, M: seq<Node>, T: map<int, int>, cap: nat)
    requires Linked(N, cap) && Filed(T, N) && |N| <= |M| && M[0] == Dead
    requires forall x :: 0 <= x < |N| ==> M[x].blocks == N[x].blocks && (M[x].p == Null <==> N[x].p == Null)
    requires forall x :: 0 <= x < |M| && (x >= |N| || M[x] != N[x]) ==> Fits(M, M[x], cap)
    ensures Linked(M, cap) && Filed(T, M)
  {
    forall x | 0 <= x < |M|
      ensures Fits(M, M[x], cap)
    {
      if x < |N| && M[x] == N[x] {
        FitsFrame(N, M, N[x], cap);
      }
    }
  }

  /** A larger bound on the blocks keeps an arena valid. */
  lemma Widen(N: seq<Node>, cap: nat, cap': nat)
    requires Linked(N, cap) && cap <= cap'
    ensures Linked(N, cap')
  {
    forall n | 0 <= n < |N|
      ensures Fits(N, N[n], cap')
    {
      assert Fits(N, N[n], cap);
    }
  }

  /** Appending a fresh node without a parent, within the bound, keeps the
      arena and the table valid. */
  lemma RootKeeps(N: seq<Node>, T: map<int, int>, cap: nat, root: Node)
    requires Linked(N, cap) && Filed(T, N)
    requires Initial(root, root.moves, root.blocks) && root.p == Null && root.blocks <= cap
    ensures Linked(N + [root], cap) && Filed(T, N + [root])
  {
    OwnedAll(|root.moves| / 2);
    var M := N + [root];
    assert forall k :: 0 <= k < |root.child| ==> root.child[k] == Null && root.own[k];
    assert Fits(M, root, cap);
    Replace(N, M, T, cap);
  }

  /** Changing only statistics keeps the arena and the table valid. */
  lemma Restat(N: seq<Node>, M: seq<Node>, T: map<int, int>, cap: nat)
    requires Linked(N, cap) && Filed(T, N) && |M| == |N| && M[0] == N[0]
    requires forall n :: 0 <= n < |N| ==> Shape(M[n]) == Shape(N[n])
    ensures Linked(M, cap) && Filed(T, M)
  {
    Reshaped(N, M, cap);
    forall key | key in T
      ensures 0 < T[key] < |M| && M[T[key]].p != Null
    {
      assert Shape(M[T[key]]) == Shape(N[T[key]]);
    }
  }

  /** Chains only depend on links. */
  lemma ChainsAgree(N: seq<Node>, M: seq<Node>, cap: nat)
    requires |M| == |N|
    requires forall m :: 0 <= m < |N| ==> M[m].p == N[m].p && M[m].blocks == N[m].blocks
    ensures forall p, n :: OnChain(N, cap, p, n) == OnChain(M, cap, p, n)
  {
    forall p, n
      ensures OnChain(N, cap, p, n) == OnChain(M, cap, p, n)
    {
      ChainFrame(N, M, cap, p, n);
    }
  }

  // ---------------------------------------------------------------------
  // The updates the search makes to links and ownership.

  /** Replacing one node by a consistent node with the same blocks and
      with a parent exactly when the old one had one. */
  lemma ReplaceOne(N: seq<Node>, T: map<int, int>, cap: nat, n: int, d: Node)
    requires Linked(N, cap) && Filed(T, N) && 0 < n < |N| && Fits(N, d, cap)
    requires d.blocks == N[n].blocks && (d.p == Null <==> N[n].p == Null)
    ensures Linked(N[n := d], cap) && Filed(T, N[n := d])
  {
    FitsFrame(N, N[n := d], d, cap);
    Replace(N, N[n := d], T, cap);
  }

  /** Changing whether an expanded slot is owned keeps the arena valid. */
  lemma SetOwnKeeps(N: seq<Node>, T: map<int, int>, cap: nat, n: int, k: int, b: bool)
    requires Linked(N, cap) && Filed(T, N) && 0 < n < |N| && 0 <= k < |N[n].child| && N[n].child[k] != Null
    ensures Linked(N[n := SetOwn(N[n], k, b)], cap) && Filed(T, N[n := SetOwn(N[n], k, b)])
  {
    var d := N[n];
    assert Fits(N, d, cap);
    OwnedFlip(d.own, k, b);
    assert Slot(N, d, d.child[k], d.own[k]);
    ReplaceOne(N, T, cap, n, SetOwn(d, k, b));
  }

  /** Re-parenting a child to a node that holds it in one of its slots. */
  lemma ReparentKeeps(N: seq<Node>, T: map<int, int>, cap: nat, n: int, k: int, cum: int)
    requires Linked(N, cap) && Filed(T, N) && 0 < n < |N| && 0 <= k < |N[n].child| && N[n].child[k] != Null
    ensures var kid := N[n].child[k];
      && Linked(N[kid := N[kid].(cum := cum, p := n)], cap) && Filed(T, N[kid := N[kid].(cum := cum, p := n)])
  {
    var kid := N[n].child[k];
    assert Fits(N, N[n], cap);
    assert Slot(N, N[n], kid, N[n].own[k]);
    assert Fits(N, N[kid], cap);
    ReplaceOne(N, T, cap, kid, N[kid].(cum := cum, p := n));
  }

  /** Sharing a node seen before in an unexpanded slot, not owned. */
  lemma ShareKeeps(N: seq<Node>, T: map<int, int>, cap: nat, n: int, k: int, c: int)
    requires Linked(N, cap) && Filed(T, N) && 0 < n < |N| && 0 <= k < |N[n].child| && N[n].child[k] == Null
    requires 0 < c < |N| && N[c].p != Null && N[c].blocks < N[n].blocks
    ensures Linked(N[n := SetOwn(N[n], k, false).(child := N[n].child[k := c])], cap)
    ensures Filed(T, N[n := SetOwn(N[n], k, false).(child := N[n].child[k := c])])
  {
    var d := N[n];
    assert Fits(N, d, cap);
    assert Slot(N, d, Null, d.own[k]);
    ShareFits(N, cap, d, k, c);
    ReplaceOne(N, T, cap, n, SetOwn(d, k, false).(child := d.child[k := c]));
  }

  lemma ShareFits(N: seq<Node>, cap: nat, d: Node, k: int, c: int)
    requires Fits(N, d, cap) && 0 <= k < |d.child| && d.child[k] == Null
    requires 0 < c < |N| && N[c].p != Null && N[c].blocks < d.blocks
    ensures Fits(N, SetOwn(d, k, false).(child := d.child[k := c]), cap)
  {
    OwnedFlip(d.own, k, false);
    var d1 := SetOwn(d, k, false).(child := d.child[k := c]);
    assert Slot(N, d1, c, false);
    forall j | 0 <= j < |d1.child|
      ensures Slot(N, d1, d1.child[j], d1.own[j])
    {
      if j != k {
        assert Slot(N, d, d.child[j], d.own[j]);
      }
    }
  }

  /** Appending a fresh node for an unexpanded slot of n. */
  lemma ExpandKeeps(N: seq<Node>, T: map<int, int>, cap: nat, n: int, k: int, kid: Node, hash: int)
    requires Linked(N, cap) && Filed(T, N) && 0 < n < |N| && 0 <= k < |N[n].child| && N[n].child[k] == Null
    requires Initial(kid, kid.moves, kid.blocks) && kid.p == n && kid.blocks < N[n].blocks
    ensures var M := (N + [kid])[n := N[n].(child := N[n].child[k := |N|])];
      Linked(M, cap) && Filed(T[hash := |N|], M)
  {
    var d := N[n];
    assert Fits(N, d, cap);
    assert Slot(N, d, Null, d.own[k]);
    OwnedAll(|kid.moves| / 2);
    var m := |N|;
    var d1 := d.(child := d.child[k := m]);
    var M := (N + [kid])[n := d1];
    assert Fits(M, kid, cap);
    assert Slot(M, d1, m, true);
    assert Fits(M, d1, cap);
    Replace(N, M, T, cap);
  }

  // ---------------------------------------------------------------------
  // Moving ownership.

  /** What revoking node n's ownership of kid leaves behind: only n and its
      ancestors change, links stay, ownership is only given up; n no longer
      owns kid; if it did, its first slot holding kid is given up and kid's
      visits are subtracted from it; and a node left owning nothing is no
      longer owned by its parent. */
  ghost predicate Deactivated(N: seq<Node>, M: seq<Node>, cap: nat, n: int, kid: int) {
    && 0 < n < |N| && 0 <= kid < |N|
    && Revoked(N, M)
    && (forall m :: 0 <= m < |N| && !OnChain(N, cap, n, m) ==> M[m] == N[m])
    && !Owns(M[n], kid)
    && (!Owns(N[n], kid) ==> M == N)
    && (Owns(N[n], kid) ==>
         && M[n].own == N[n].own[First(N[n].child, kid) := false]
         && M[n].cnt == N[n].cnt - 1
         && M[n].t == N[n].t - (if N[kid].t < 0 then 0 else N[kid].t))
    && (Owns(N[n], kid) && N[n].cnt == 1 && 0 < N[n].p < |N| ==> !Owns(M[N[n].p], n))
  }

  /** The arena after kid's visits are subtracted from n and its ancestors
      (nothing, when kid is solved). */
  ghost function Unvisit(N: seq<Node>, cap: nat, n: int, kid: int): (M: seq<Node>)
    ensures |M| == |N|
  {
    if 0 <= kid < |N| && N[kid].t >= 0 then Shift(N, cap, n, -N[kid].t) else N
  }

  lemma UnvisitKeeps(N: seq<Node>, T: map<int, int>, cap: nat, n: int, kid: int)
    requires Linked(N, cap) && Filed(T, N) && 0 < n < |N| && 0 < kid < |N|
    ensures var U := Unvisit(N, cap, n, kid);
      && Linked(U, cap) && Filed(T, U) && Revoked(N, U)
      && (forall m :: 0 <= m < |N| ==> Shape(U[m]) == Shape(N[m]))
      && (forall m :: 0 <= m < |N| && !OnChain(N, cap, n, m) ==> U[m] == N[m])
      && U[n].t == N[n].t - (if N[kid].t < 0 then 0 else N[kid].t)
  {
    var U := Unvisit(N, cap, n, kid);
    assert Fits(N, N[n], cap);
    assert OnChain(N, cap, n, n);
    AlongShape(N, cap, n, Null, Retime(-N[kid].t));
    Restat(N, U, T, cap);
    RestatRevoked(N, U);
  }

  /** The arena after node n gives up its first slot holding kid, before
      the parent of n is told. */
  ghost function Detach(N: seq<Node>, cap: nat, n: int, kid: int): (M: seq<Node>)
    ensures |M| == |N|
  {
    if 0 < n < |N| && 0 <= kid < |N| && Owns(N[n], kid) then
      var U := Unvisit(N, cap, n, kid);
      U[n := SetOwn(U[n], First(N[n].child, kid), false)]
    else N
  }

  lemma DetachKeeps(N: seq<Node>, T: map<int, int>, cap: nat, n: int, kid: int)
    requires Linked(N, cap) && Filed(T, N) && 0 < n < |N| && 0 < kid < |N| && Owns(N[n], kid)
    ensures var D := Detach(N, cap, n, kid);
      && Linked(D, cap) && Filed(T, D) && Revoked(N, D)
      && (forall m :: 0 <= m < |N| && !OnChain(N, cap, n, m) ==> D[m] == N[m])
      && !Owns(D[n], kid)
      && D[n].own == N[n].own[First(N[n].child, kid) := false]
      && D[n].cnt == N[n].cnt - 1
      && D[n].t == N[n].t - (if N[kid].t < 0 then 0 else N[kid].t)
  {
    var k := First(N[n].child, kid);
    var U := Unvisit(N, cap, n, kid);
    UnvisitKeeps(N, T, cap, n, kid);
    assert Shape(U[n]) == Shape(N[n]);
    SetOwnKeeps(U, T, cap, n, k, false);
    RevokeOne(U, n, k);
    var D := Detach(N, cap, n, kid);
    RevokedTrans(N, U, D);
    assert OnChain(N, cap, n, n) by { assert Fits(N, N[n], cap); }
  }

  lemma DeactivateNone(N: seq<Node>, cap: nat, n: int, kid: int)
    requires 0 < n < |N| && 0 <= kid < |N| && !Owns(N[n], kid)
    ensures Deactivated(N, N, cap, n, kid)
  {
  }

  /** No cascade: n still owns something, or has no parent. */
  lemma DetachDone(N: seq<Node>, T: map<int, int>, cap: nat, n: int, kid: int)
    requires Linked(N, cap) && Filed(T, N) && 0 < n < |N| && 0 < kid < |N| && Owns(N[n], kid)
    requires Detach(N, cap, n, kid)[n].cnt != 0 || N[n].p == Null
    ensures Deactivated(N, Detach(N, cap, n, kid), cap, n, kid)
  {
    DetachKeeps(N, T, cap, n, kid);
  }

  /** Cascade: n owns nothing any more and its parent gives it up. */
  lemma DetachCascade(N: seq<Node>, T: map<int, int>, cap: nat, n: int, kid: int)
    requires Linked(N, cap) && Filed(T, N) && 0 < n < |N| && 0 < kid < |N| && Owns(N[n], kid)
    requires Detach(N, cap, n, kid)[n].cnt == 0 && N[n].p != Null
    ensures forall M :: Deactivated(Detach(N, cap, n, kid), M, cap, N[n].p, n) ==> Deactivated(N, M, cap, n, kid)
  {
    forall M | Deactivated(Detach(N, cap, n, kid), M, cap, N[n].p, n)
      ensures Deactivated(N, M, cap, n, kid)
    {
      CascadeOne(N, T, cap, n, kid, M);
    }
  }

  lemma CascadeOne(N: seq<Node>, T: map<int, int>, cap: nat, n: int, kid: int, M: seq<Node>)
    requires Linked(N, cap) && Filed(T, N) && 0 < n < |N| && 0 < kid < |N| && Owns(N[n], kid)
    requires Detach(N, cap, n, kid)[n].cnt == 0 && N[n].p != Null
    requires Deactivated(Detach(N, cap, n, kid), M, cap, N[n].p, n)
    ensures Deactivated(N, M, cap, n, kid)
  {
    var D := Detach(N, cap, n, kid);
    var q := N[n].p;
    DetachKeeps(N, T, cap, n, kid);
    RevokedTrans(N, D, M);
    ChainAcyclic(N, cap, n);
    ChainFrame(N, D, cap, q, n);
    assert M[n] == D[n];
    forall m | 0 <= m < |N| && !OnChain(N, cap, n, m)
      ensures M[m] == N[m]
    {
      ChainStep(N, cap, n, m);
      ChainFrame(N, D, cap, q, m);
    }
  }

  /** The arena after node n revokes its ownership of kid: when n owns kid,
      it gives up its first slot holding kid (Detach), and when it is then
      left owning nothing and has a parent, the parent in turn revokes its
      ownership of n. Parents have more blocks than their children, which
      bounds the cascade. */
  ghost function Deactivate(N: seq<Node>, cap: nat, n: int, kid: int): (M: seq<Node>)
    ensures |M| == |N|
    decreases if 0 < n < |N| && N[n].blocks <= cap then cap - N[n].blocks + 1 else 0
  {
    if 0 < n < |N| && 0 <= kid < |N| && Owns(N[n], kid) then
      var D := Detach(N, cap, n, kid);
      var q := N[n].p;
      if D[n].cnt == 0 && 0 < q < |D| && N[n].blocks < D[q].blocks <= cap then Deactivate(D, cap, q, n)
      else D
    else N
  }

  /** In a linked arena the cascade's bound never cuts it short: the parent
      revokes n exactly when n is left owning nothing and has a parent. */
  lemma DeactivateStep(N: seq<Node>, T: map<int, int>, cap: nat, n: int, kid: int)
    requires Linked(N, cap) && Filed(T, N) && 0 < n < |N| && 0 < kid < |N| && Owns(N[n], kid)
    ensures var D := Detach(N, cap, n, kid);
      Deactivate(N, cap, n, kid) == if D[n].cnt == 0 && N[n].p != Null then Deactivate(D, cap, N[n].p, n) else D
  {
    var D := Detach(N, cap, n, kid);
    DetachKeeps(N, T, cap, n, kid);
    var q := N[n].p;
    if D[n].cnt == 0 && q != Null {
      assert Fits(D, D[n], cap) && Fits(D, D[q], cap);
    }
  }

  /** Deactivate keeps the arena linked and filed and does what Deactivated
      describes. */
  lemma {:induction false} DeactivateSpec(N: seq<Node>, T: map<int, int>, cap: nat, n: int, kid: int)
    requires Linked(N, cap) && Filed(T, N) && 0 < n < |N| && 0 < kid < |N|
    ensures var M := Deactivate(N, cap, n, kid);
      Linked(M, cap) && Filed(T, M) && Deactivated(N, M, cap, n, kid)
    decreases cap - N[n].blocks
  {
    assert Fits(N, N[n], cap);
    if !Owns(N[n], kid) {
      DeactivateNone(N, cap, n, kid);
      return;
    }
    var D := Detach(N, cap, n, kid);
    DetachKeeps(N, T, cap, n, kid);
    DeactivateStep(N, T, cap, n, kid);
    var q := N[n].p;
    if D[n].cnt == 0 && q != Null {
      assert Fits(D, D[n], cap) && Fits(D, D[q], cap);
      DeactivateSpec(D, T, cap, q, n);
      DetachCascade(N, T, cap, n, kid);
    } else {
      DetachDone(N, T, cap, n, kid);
    }
  }

  /** What making node n the owner of its slot k, reached with cum points,
      leaves behind: links and blocks stay, the child is re-parented to n
      with the new score, best scores stay, n owns the slot, and the previous parent no
      longer owns the child. */
  ghost predicate Adopted(N: seq<Node>, M: seq<Node>, n: int, k: int, cum: int) {
    && 0 < n < |N| && 0 <= k < |N[n].child| && |M| == |N|
    && (forall m :: 0 <= m < |N| ==> M[m].child == N[m].child && M[m].blocks == N[m].blocks)
    && (forall m :: 0 <= m < |N| ==> M[m].topscore == N[m].topscore)
    && var kid := N[n].child[k];
       && 0 < kid < |N|
       && M[kid].p == n && M[kid].cum == cum && k < |M[n].own| && M[n].own[k]
       && (N[kid].p != n && 0 < N[kid].p < |N| ==> !Owns(M[N[kid].p], kid))
  }

  /** n owns its slot k and the child in it is re-parented to n with score
      cum, once the previous parent has given the child up. */
  ghost function Reparent(N: seq<Node>, n: int, k: int, cum: int): seq<Node> {
    if 0 <= n < |N| && 0 <= k < |N[n].child| && 0 <= N[n].child[k] < |N| then
      var kid := N[n].child[k];
      var M := N[n := SetOwn(N[n], k, true)];
      M[kid := M[kid].(cum := cum, p := n)]
    else N
  }

  /** Reparent, then the child's visits are added to n and its ancestors. */
  ghost function Attach(N: seq<Node>, cap: nat, n: int, k: int, cum: int): seq<Node> {
    var M := Reparent(N, n, k, cum);
    if 0 <= n < |N| && 0 <= k < |N[n].child| && 0 <= N[n].child[k] < |M| && M[N[n].child[k]].t >= 0 then
      Shift(M, cap, n, M[N[n].child[k]].t)
    else M
  }

  lemma ReparentAdopted(N: seq<Node>, M1: seq<Node>, cap: nat, n: int, k: int, cum: int)
    requires Linked(N, cap) && 0 < n < |N| && 0 <= k < |N[n].child| && N[n].child[k] != Null
    requires !N[n].own[k] && Deactivated(N, M1, cap, N[N[n].child[k]].p, N[n].child[k])
    ensures Adopted(N, Reparent(M1, n, k, cum), n, k, cum)
  {
    var kid := N[n].child[k];
    assert Fits(N, N[n], cap);
    assert Slot(N, N[n], kid, false);
    assert Fits(N, N[kid], cap);
    var q := N[kid].p;
    assert M1[n].child == N[n].child && |M1[n].own| == |N[n].own|;
    var M2 := M1[n := SetOwn(M1[n], k, true)];
    var M := M2[kid := M2[kid].(cum := cum, p := n)];
    assert M == Reparent(M1, n, k, cum);
    assert M[n] == SetOwn(M1[n], k, true);
    assert M[n].own[k];
    if q != n {
      assert M[q] == M1[q];
    }
    forall m | 0 <= m < |N|
      ensures M[m].child == N[m].child && M[m].blocks == N[m].blocks && M[m].topscore == N[m].topscore
    {
      assert M1[m].child == N[m].child && M1[m].blocks == N[m].blocks && M1[m].topscore == N[m].topscore;
    }
  }

  lemma ShiftAdopted(N: seq<Node>, M: seq<Node>, cap: nat, n: int, k: int, cum: int, p: int, d: int)
    requires Adopted(N, M, n, k, cum)
    ensures Adopted(N, Shift(M, cap, p, d), n, k, cum)
  {
    var S := Shift(M, cap, p, d);
    AlongShape(M, cap, p, Null, Retime(d));
    assert forall m :: 0 <= m < |M| ==> S[m].cum == M[m].cum;
    var kid := N[n].child[k];
    assert Shape(S[n]) == Shape(M[n]);
    assert Shape(S[kid]) == Shape(M[kid]);
    if N[kid].p != n && 0 < N[kid].p < |N| {
      assert Shape(S[N[kid].p]) == Shape(M[N[kid].p]);
    }
  }

  lemma AttachAdopted(N: seq<Node>, M1: seq<Node>, cap: nat, n: int, k: int, cum: int)
    requires Linked(N, cap) && 0 < n < |N| && 0 <= k < |N[n].child| && N[n].child[k] != Null
    requires !N[n].own[k] && Deactivated(N, M1, cap, N[N[n].child[k]].p, N[n].child[k])
    ensures Adopted(N, Attach(M1, cap, n, k, cum), n, k, cum)
  {
    var M := Reparent(M1, n, k, cum);
    ReparentAdopted(N, M1, cap, n, k, cum);
    var kid := N[n].child[k];
    if M[kid].t >= 0 {
      ShiftAdopted(N, M, cap, n, k, cum, n, M[kid].t);
    }
  }

  /** The arena after node n takes ownership of the child in its slot k,
      reached with cum points: the child's parent first revokes its
      ownership of the child (Deactivate), then the child is attached to n
      (Attach). */
  ghost function Activate(N: seq<Node>, cap: nat, n: int, k: int, cum: int): (M: seq<Node>)
    ensures |M| == |N|
  {
    if 0 <= n < |N| && 0 <= k < |N[n].child| && 0 <= N[n].child[k] < |N| then
      var kid := N[n].child[k];
      Attach(Deactivate(N, cap, N[kid].p, kid), cap, n, k, cum)
    else N
  }

  /** Activate does what Adopted describes. */
  lemma ActivateAdopted(N: seq<Node>, T: map<int, int>, cap: nat, n: int, k: int, cum: int)
    requires Linked(N, cap) && Filed(T, N) && 0 < n < |N| && 0 <= k < |N[n].child| && N[n].child[k] != Null
    requires !N[n].own[k]
    ensures Adopted(N, Activate(N, cap, n, k, cum), n, k, cum)
  {
    var kid := N[n].child[k];
    assert Fits(N, N[n], cap);
    assert Slot(N, N[n], kid, false);
    assert Fits(N, N[kid], cap);
    DeactivateSpec(N, T, cap, N[kid].p, kid);
    AttachAdopted(N, Deactivate(N, cap, N[kid].p, kid), cap, n, k, cum);
  }

  /** When n is not on the chain of the child's previous parent, the
      adoption leaves n owning one slot more and holding the child's visits
      besides its own, and the child keeps its visits. */
  lemma ActivateOwner(N: seq<Node>, T: map<int, int>, cap: nat, n: int, k: int, cum: int)
    requires Linked(N, cap) && Filed(T, N) && 0 < n < |N| && 0 <= k < |N[n].child| && N[n].child[k] != Null
    requires !N[n].own[k] && !OnChain(N, cap, N[N[n].child[k]].p, n)
    ensures var M := Activate(N, cap, n, k, cum); var kid := N[n].child[k];
      && M[n].own == N[n].own[k := true] && M[n].cnt == N[n].cnt + 1
      && M[n].t == N[n].t + (if N[kid].t < 0 then 0 else N[kid].t)
      && M[kid].t == N[kid].t && M[kid].p == n && M[kid].cum == cum
  {
    var kid := N[n].child[k];
    assert Fits(N, N[n], cap);
    assert Slot(N, N[n], kid, false);
    assert Fits(N, N[kid], cap);
    var q := N[kid].p;
    var M1 := Deactivate(N, cap, q, kid);
    DeactivateSpec(N, T, cap, q, kid);
    if OnChain(N, cap, q, kid) {
      ChainBlocks(N, cap, q, kid);
    }
    assert M1[n] == N[n] && M1[kid] == N[kid];
    var R := Reparent(M1, n, k, cum);
    assert R[n] == SetOwn(N[n], k, true);
    assert R[kid] == N[kid].(cum := cum, p := n);
    if R[kid].t >= 0 {
      var S := Shift(R, cap, n, R[kid].t);
      assert OnChain(R, cap, n, n);
      if OnChain(R, cap, n, kid) {
        ChainBlocks(R, cap, n, kid);
      }
      assert S[n] == R[n].(t := R[n].t + R[kid].t);
      assert S[kid] == R[kid];
    }
  }

  /** Node p's unexpanded slot bi now holds node tmp, which p does not own. */
  function Hold(N: seq<Node>, p: int, bi: int, tmp: int): (M: seq<Node>)
    ensures |M| == |N|
  {
    if 0 <= p < |N| && 0 <= bi < |N[p].child| then N[p := SetOwn(N[p], bi, false).(child := N[p].child[bi := tmp])] else N
  }

  /** Once p's slot bi holds a node seen before, reached now with sum
      points: the node is adopted (Activate) when sum beats its recorded
      score, and otherwise a p left owning nothing is given up by its parent
      (Dropped). */
  ghost function Settled(N: seq<Node>, cap: nat, p: int, bi: int, sum: int): (M: seq<Node>)
    ensures |M| == |N|
  {
    if 0 <= p < |N| && 0 <= bi < |N[p].child| && 0 <= N[p].child[bi] < |N| && sum > N[N[p].child[bi]].cum then
      Activate(N, cap, p, bi, sum)
    else Dropped(N, cap, p)
  }

  /** The arena after a node p left owning nothing is given up by its
      parent; nothing changes while p owns a slot or has no parent. */
  ghost function Dropped(N: seq<Node>, cap: nat, p: int): (M: seq<Node>)
    ensures |M| == |N|
  {
    if 0 <= p < |N| && N[p].cnt == 0 && N[p].p != Null then Deactivate(N, cap, N[p].p, p) else N
  }

  /** What sharing tmp in p's slot bi leaves: p holds tmp in slot bi; when tmp is not adopted
      p no longer owns the slot and owns one slot fewer, and when it is,
      tmp records p as its parent and the new score and p owns the slot. */
  lemma SharedSpec(N: seq<Node>, T: map<int, int>, cap: nat, p: int, bi: int, tmp: int, sum: int)
    requires Linked(N, cap) && Filed(T, N) && 0 < p < |N| && 0 <= bi < |N[p].child| && N[p].child[bi] == Null
    requires 0 < tmp < |N| && N[tmp].p != Null && N[tmp].blocks < N[p].blocks
    ensures var M := Settled(Hold(N, p, bi, tmp), cap, p, bi, sum);
      && |M| == |N| && M[p].child == N[p].child[bi := tmp] && bi < |M[p].own|
      && (sum <= N[tmp].cum ==> !M[p].own[bi] && M[p].cnt == N[p].cnt - 1)
      && (sum > N[tmp].cum ==> M[tmp].p == p && M[tmp].cum == sum && M[p].own[bi])
  {
    var d := N[p];
    assert Fits(N, d, cap);
    assert Slot(N, d, Null, d.own[bi]);
    ShareKeeps(N, T, cap, p, bi, tmp);
    var N1 := Hold(N, p, bi, tmp);
    assert N1[tmp] == N[tmp];
    if sum <= N[tmp].cum {
      DroppedKeeps(N1, T, cap, p);
    } else {
      SharedAdopt(N1, T, cap, p, bi, sum);
    }
  }

  /** Adopting the node in p's unowned slot bi makes it p's owned child with the new score. */
  lemma SharedAdopt(N: seq<Node>, T: map<int, int>, cap: nat, p: int, bi: int, sum: int)
    requires Linked(N, cap) && Filed(T, N) && 0 < p < |N| && 0 <= bi < |N[p].child| && N[p].child[bi] != Null
    requires !N[p].own[bi]
    ensures var M := Activate(N, cap, p, bi, sum); var tmp := N[p].child[bi];
      && |M| == |N| && M[p].child == N[p].child && bi < |M[p].own|
      && M[tmp].p == p && M[tmp].cum == sum && M[p].own[bi]
  {
    ActivateAdopted(N, T, cap, p, bi, sum);
  }

  /** Dropping p keeps the arena valid and leaves p itself as it is. */
  lemma DroppedKeeps(N: seq<Node>, T: map<int, int>, cap: nat, p: int)
    requires Linked(N, cap) && Filed(T, N) && 0 < p < |N|
    ensures var M := Dropped(N, cap, p); Linked(M, cap) && Filed(T, M) && M[p] == N[p]
  {
    if N[p].cnt == 0 && N[p].p != Null {
      ChainAcyclic(N, cap, p);
      DeactivateSpec(N, T, cap, N[p].p, p);
    }
  }
}
