/**
 * The bookkeeping of the Monte-Carlo tree search: the static state of the
 * search (solution buffer, best solution, resource counters, duplicate
 * table) and the node arena, with the node operations that update visit
 * counts along parent chains and move the ownership of shared children.
 */
module Mcts {
  import opened Rules
  import opened Arena
  import opened Paths
  import opened Budget

  datatype Option<T> = None | Some(value: T)

  /** After the first i of the runs whose bests are B, ans holds the first
      of the highest-scoring ones. */
  ghost predicate Leader(B: seq<seq<int>>, i: int, ans: Option<seq<int>>)
    requires forall k :: 0 <= k < |B| ==> |B[k]| > 0
  {
    && 0 <= i <= |B|
    && (i == 0 ==> ans == None)
    && (i > 0 ==> ans == Some(B[ArgMax(Heads(B)[..i])]))
  }

  /** The state of the laps loop after i runs: the runs from i on are
      feasible and their bests are B[i..], and ans leads runs 0..i-1. */
  ghost predicate Laps(simlim: int, best: seq<int>, L: seq<seq<Round>>, i: int, B: seq<seq<int>>, ans: Option<seq<int>>) {
    && LapsFrom(simlim, best, L, i, B)
    && (forall k :: 0 <= k < |B| ==> |B[k]| > 0)
    && Leader(B, i, ans)
  }

  /** The state of finalized's scan of node n of N0 after |seen| slots:
      nodes is the arena after the last of them, the counts of empty slots
      and the draws among them are up to date, and Scan holds. */
  ghost predicate Finalizing(N0: seq<Node>, cap: nat, nodes: seq<Node>, n: int, cum: int, coins: seq<bool>,
                             child: seq<int>, score: seq<int>, seen: seq<seq<Node>>,
                             bi: int, bnull: int, nullcnt: int) {
    && 0 < n < |N0| == |nodes|
    && child == N0[n].child == nodes[n].child && score == N0[n].score
    && |seen| <= |child| && nodes == Last(N0, seen)
    && (forall m :: 0 <= m < |nodes| ==> nodes[m].topscore == N0[m].topscore)
    && nullcnt == Count(child[..|seen|], Null)
    && Scan(N0, cap, n, cum, coins, seen, bi, bnull)
  }

  /** One more slot of the scan, with B the arena after it. */
  lemma FinalizingPush(N0: seq<Node>, cap: nat, B: seq<Node>, n: int, cum: int, coins: seq<bool>,
                       child: seq<int>, score: seq<int>, seen: seq<seq<Node>>,
                       bi: int, bnull: int, nullcnt: int)
    requires 0 < n < |N0| == |B| && child == N0[n].child == B[n].child && score == N0[n].score
    requires |seen| < |child| && forall m :: 0 <= m < |B| ==> B[m].topscore == N0[m].topscore
    requires Chain(N0, cap, n, cum, seen + [B]) && Best(N0, n, seen + [B], bi)
    requires nullcnt == Count(child[..|seen| + 1], Null) && bnull == Reservoir(child, coins, |seen| + 1)
    ensures Finalizing(N0, cap, B, n, cum, coins, child, score, seen + [B], bi, bnull, nullcnt)
  {
    var S := seen + [B];
    assert |S| == |seen| + 1 && Last(N0, S) == B;
  }

  /** The choice after an expanded slot of the scan. */
  lemma BestStep(N0: seq<Node>, B: seq<Node>, n: int, child: seq<int>, seen: seq<seq<Node>>, i: int,
                 bi: int, live: bool, bi': int)
    requires 0 < n < |N0| == |B| && child == N0[n].child == B[n].child
    requires forall m :: 0 <= m < |B| ==> B[m].topscore == N0[m].topscore
    requires i == |seen| < |child| && child[i] != Null && Best(N0, n, seen, bi)
    requires live == Candidate(B, n, i)
    requires bi' == if live && (bi < 0 || B[child[i]].topscore > B[child[bi]].topscore) then i else bi
    ensures Best(N0, n, seen + [B], bi')
  {
    if live {
      assert B[child[i]].topscore == Top(N0, n, i);
      assert bi >= 0 ==> B[child[bi]].topscore == Top(N0, n, bi);
      BestPush(N0, n, seen, bi, B);
    } else {
      BestKeep(N0, n, seen, bi, B);
    }
  }

  /** The outcome of sharing tmp in p's slot bi, from what holding the slot
      (N0 to N1) and settling it (N1 to M, returning r) leave. */
  lemma ShareOutcome(N0: seq<Node>, N1: seq<Node>, M: seq<Node>, p: int, bi: int, tmp: int, sum: int, r: int)
    requires 0 <= p < |N0| == |N1| == |M| && 0 <= tmp < |N0| && 0 <= bi < |N1[p].child|
    requires bi < |N1[p].own| && bi < |N0[p].child|
    requires N1[p].child[bi] == tmp && N1[tmp] == N0[tmp] && !N1[p].own[bi]
    requires N1[p].child == N0[p].child[bi := tmp] && N1[p].cnt == N0[p].cnt - 1
    requires M[p].child == N1[p].child && bi < |M[p].own|
    requires r == (if sum <= N1[tmp].cum then 0 else tmp)
    requires sum <= N1[tmp].cum ==> M[p] == N1[p]
    requires sum > N1[tmp].cum ==> M[tmp].p == p && M[tmp].cum == sum && M[p].own[bi]
    ensures M[p].child == N0[p].child[bi := tmp]
    ensures sum <= N0[tmp].cum ==> r == 0 && !M[p].own[bi] && M[p].cnt == N0[p].cnt - 1
    ensures sum > N0[tmp].cum ==> r == tmp && M[r].p == p && M[r].cum == sum && M[p].own[bi]
  {
  }

  /** After all the runs ans leads them all. */
  lemma LeaderDone(B: seq<seq<int>>, ans: Option<seq<int>>)
    requires forall k :: 0 <= k < |B| ==> |B[k]| > 0
    requires Leader(B, |B|, ans) && |B| > 0
    ensures ans == Some(B[ArgMax(Heads(B))])
  {
    assert Heads(B)[..|B|] == Heads(B);
  }

  /** Keeping the better of the leader and run i, ties to the leader. */
  lemma LeaderStep(B: seq<seq<int>>, i: int, ans: Option<seq<int>>)
    requires forall k :: 0 <= k < |B| ==> |B[k]| > 0
    requires Leader(B, i, ans) && i < |B|
    ensures Leader(B, i + 1, if ans == None || B[i][0] > ans.value[0] then Some(B[i]) else ans)
  {
    var v := Heads(B);
    if i > 0 {
      ArgMaxStep(v, i);
    }
  }

  class Search {
    var nodes: seq<Node>
    var table: map<int, int>
    var best: seq<int>
    var inspectLim: int
    var startLim: int
    var breakDepth: int
    var solved: bool
    var bonus: bool
    var earlyTerminal: bool
    /** The solution buffer: h[0] the score, h[1..] the moves. */
    const h: array<int>
    /** Bound on the blocks of every board in the arena. */
    ghost var cap: nat

    ghost predicate Valid()
      reads this`nodes, this`table, this`cap
    {
      Linked(nodes, cap) && Filed(table, nodes)
    }

    /** A search with a solution buffer of the given length (the board
        size halved) and only the dead child in the arena. */
    constructor (len: nat)
      ensures Valid() && fresh(h) && h.Length == len
      ensures nodes == [Dead] && table == map[] && best == [NoScore] && cap == 0
      ensures inspectLim == 0 && startLim == 0 && breakDepth == 0
    {
      h := new int[len];
      nodes := [Dead];
      table := map[];
      best := [NoScore];
      inspectLim, startLim, breakDepth := 0, 0, 0;
      solved, bonus, earlyTerminal := false, false, false;
      cap := 0;
    }

    /** The node for a board with the given moves and number of blocks. */
    static method NewNode(moves: seq<int>, blocks: nat) returns (d: Node)
      ensures Initial(d, moves, blocks) && d.p == Null && d.cum == 0 && d.cnt == Owned(d.own)
    {
      var n := |moves| / 2;
      var score := seq(n, _ => 0);
      var i := 1;
      while i < |moves|
        invariant 1 <= i <= |moves| + 1 && i % 2 == 1
        invariant |score| == n
        invariant forall k :: 0 <= k < n && 2 * k + 1 < i ==> score[k] == Sq(moves[2 * k + 1] - 2)
      {
        score := score[i / 2 := (moves[i] - 2) * (moves[i] - 2)];
        i := i + 2;
      }
      OwnedAll(n);
      d := Node(Null, moves, score, 0, 0, n, n, IntMin, false, seq(n, _ => Null), seq(n, _ => true), blocks);
    }

    /** The root of a search, for a board with the given moves and number
        of blocks: a node without a parent, appended to the arena and not
        entered in the table; the bound on the blocks of the arena's boards
        grows to cover it. */
    method NewRoot(moves: seq<int>, blocks: nat) returns (r: int)
      requires Valid()
      modifies this`nodes, this`cap
      ensures Valid() && r == |old(nodes)| && |nodes| == r + 1 && nodes[..r] == old(nodes)
      ensures Initial(nodes[r], moves, blocks) && nodes[r].p == Null && nodes[r].cum == 0
      ensures cap == if old(cap) < blocks then blocks else old(cap)
    {
      var d := NewNode(moves, blocks);
      if cap < blocks {
        Widen(nodes, cap, blocks);
        cap := blocks;
      }
      RootKeeps(nodes, table, cap, d);
      r := |nodes|;
      nodes := nodes + [d];
    }

    /** Records an iteration that yielded sample in node n, unless the last
        solution came from an already solved path. */
    method Update(n: int, sample: int)
      requires Valid() && 0 < n < |nodes|
      modifies this`nodes
      ensures Valid()
      ensures solved ==> nodes == old(nodes)
      ensures !solved ==> nodes == old(nodes)[n := old(nodes)[n].(t := old(nodes)[n].t + 1, topscore := Max(old(nodes)[n].topscore, sample))]
    {
      if solved {
        return;
      }
      var d := nodes[n].(t := nodes[n].t + 1);
      if sample > d.topscore {
        d := d.(topscore := sample);
      }
      assert Fits(nodes, nodes[n], cap);
      ReplaceOne(nodes, table, cap, n, d);
      nodes := nodes[n := d];
    }

    /** The first slot of node n holding kid, or -1. */
    method GetIndex(n: int, kid: int) returns (k: int)
      requires 0 <= n < |nodes|
      ensures k == First(nodes[n].child, kid)
    {
      var child := nodes[n].child;
      k := 0;
      while k < |child|
        invariant 0 <= k <= |child| && kid !in child[..k]
      {
        if child[k] == kid {
          return;
        }
        assert child[..k + 1] == child[..k] + [child[k]];
        k := k + 1;
      }
      assert child[..k] == child;
      k := -1;
    }

    /** Whether node n owns kid. */
    method OwnsChild(n: int, kid: int) returns (b: bool)
      requires Valid() && 0 <= n < |nodes|
      ensures b == Owns(nodes[n], kid)
    {
      assert Fits(nodes, nodes[n], cap);
      var k := GetIndex(n, kid);
      b := k >= 0 && nodes[n].own[k];
    }

    /** Whether node n still has an unsolved child. */
    method IsAlive(n: int) returns (b: bool)
      requires Valid() && 0 <= n < |nodes|
      ensures b <==> Alive(nodes, nodes[n])
    {
      var child := nodes[n].child;
      var k := 0;
      while k < |child|
        invariant 0 <= k <= |child|
        invariant forall j :: 0 <= j < k ==> !Unsolved(nodes, child[j])
      {
        if Unsolved(nodes, child[k]) {
          return true;
        }
        k := k + 1;
      }
      return false;
    }

    /** Adds the visits of kid to p0 and all its ancestors; a solved kid
        (negative visits) adds nothing. */
    method Add(kid: int, p0: int)
      requires Valid() && 0 < kid < |nodes| && (p0 == Null || 0 < p0 < |nodes|)
      modifies this`nodes
      ensures Valid()
      ensures nodes == if old(nodes)[kid].t < 0 then old(nodes) else Shift(old(nodes), cap, p0, old(nodes)[kid].t)
    {
      var t := nodes[kid].t;
      if t < 0 {
        return;
      }
      Walk(p0, Retime(t));
    }

    /** Subtracts the visits of kid from p0 and all its ancestors; a solved
        kid (negative visits) subtracts nothing. */
    method Subtract(kid: int, p0: int)
      requires Valid() && 0 < kid < |nodes| && (p0 == Null || 0 < p0 < |nodes|)
      modifies this`nodes
      ensures Valid()
      ensures nodes == if old(nodes)[kid].t < 0 then old(nodes) else Shift(old(nodes), cap, p0, -old(nodes)[kid].t)
    {
      var t := nodes[kid].t;
      if t < 0 {
        return;
      }
      Walk(p0, Retime(-t));
    }

    /** Records that a terminal node lies below leaf and its ancestors. */
    method Leafhit(leaf: int)
      requires Valid() && 0 < leaf < |nodes|
      modifies this`nodes
      ensures Valid()
      ensures nodes == Lit(old(nodes), cap, leaf)
    {
      Walk(leaf, Light());
    }

    /** The loop the three walks above share: applies f to p0 and every
        ancestor of p0. */
    method Walk(p0: int, f: Node -> Node)
      requires Valid() && (p0 == Null || 0 < p0 < |nodes|)
      requires forall x: Node :: Shape(f(x)) == Shape(x)
      modifies this`nodes
      ensures Valid()
      ensures nodes == Along(old(nodes), cap, p0, Null, f)
    {
      ghost var N0 := nodes;
      if p0 != Null {
        assert Fits(N0, N0[p0], cap);
      }
      var p := p0;
      while p != Null
        invariant p == Null || (0 < p < |N0| && OnChain(N0, cap, p0, p))
        invariant nodes == Along(N0, cap, p0, p, f)
        decreases if p == Null then 0 else cap + 1 - N0[p].blocks
      {
        AlongStep(N0, cap, p0, p, f);
        assert Fits(N0, N0[p], cap);
        nodes := nodes[p := f(nodes[p])];
        p := nodes[p].p;
      }
      AlongShape(N0, cap, p0, Null, f);
      Restat(N0, nodes, table, cap);
    }
  
    /** Revokes node n's ownership of kid: the first slot of n holding kid,
        if owned, is given up and kid's visits are subtracted from n and its
        ancestors; a node left owning nothing is in turn given up by its
        parent (Deactivate, summarised by Deactivated). */
    method DeactivateChild(n: int, kid: int)
      requires Valid() && 0 < n < |nodes| && 0 < kid < |nodes|
      modifies this`nodes
      ensures Valid() && nodes == Deactivate(old(nodes), cap, n, kid)
      ensures Deactivated(old(nodes), nodes, cap, n, kid)
      decreases cap - nodes[n].blocks, 1
    {
      var k := GetIndex(n, kid);
      if k < 0 || !nodes[n].own[k] {
        DeactivateNone(nodes, cap, n, kid);
        return;
      }
      Revoke(n, kid, k);
    }

    /** The owning case of DeactivateChild: slot k is the first slot of n
        holding kid, and n owns it. */
    method Revoke(n: int, kid: int, k: int)
      requires Valid() && 0 < n < |nodes| && 0 < kid < |nodes|
      requires k == First(nodes[n].child, kid) && 0 <= k < |nodes[n].own| && nodes[n].own[k]
      modifies this`nodes
      ensures Valid() && nodes == Deactivate(old(nodes), cap, n, kid)
      ensures Deactivated(old(nodes), nodes, cap, n, kid)
      decreases cap - nodes[n].blocks, 0
    {
      ghost var N0 := nodes;
      Withdraw(n, kid, k);
      var q := nodes[n].p;
      if nodes[n].cnt == 0 && q != Null {
        assert Fits(nodes, nodes[n], cap) && Fits(nodes, nodes[q], cap);
        DetachCascade(N0, table, cap, n, kid);
        DeactivateStep(N0, table, cap, n, kid);
        DeactivateChild(q, n);
      } else {
        DetachDone(N0, table, cap, n, kid);
        DeactivateStep(N0, table, cap, n, kid);
      }
    }

    /** The first step of Revoke: kid's visits leave n and its ancestors
        and n no longer owns slot k (Detach). */
    method Withdraw(n: int, kid: int, k: int)
      requires Valid() && 0 < n < |nodes| && 0 < kid < |nodes|
      requires k == First(nodes[n].child, kid) && 0 <= k < |nodes[n].own| && nodes[n].own[k]
      modifies this`nodes
      ensures Valid() && nodes == Detach(old(nodes), cap, n, kid)
      ensures nodes[n].p == old(nodes)[n].p
    {
      ghost var N0 := nodes;
      Subtract(kid, n);
      assert nodes == Unvisit(N0, cap, n, kid);
      nodes := nodes[n := SetOwn(nodes[n], k, false)];
      DetachKeeps(N0, table, cap, n, kid);
    }

    /** Makes node n the owner of its child in slot k, reached with the
        accumulated score cum: the child's previous parent gives it up, the
        child is re-parented to n and its visits are added to n and its
        ancestors (Activate, summarised by Adopted). */
    method ActivateChild(n: int, k: int, cum: int)
      requires Valid() && 0 < n < |nodes| && 0 <= k < |nodes[n].child|
      requires nodes[n].child[k] != Null && !nodes[n].own[k]
      modifies this`nodes
      ensures Valid() && nodes == Activate(old(nodes), cap, n, k, cum)
      ensures Adopted(old(nodes), nodes, n, k, cum)
    {
      ghost var N0 := nodes;
      var kid := nodes[n].child[k];
      assert Fits(nodes, nodes[n], cap);
      assert Slot(nodes, nodes[n], kid, false);
      assert Fits(nodes, nodes[kid], cap);
      DeactivateChild(nodes[kid].p, kid);
      ghost var M1 := nodes;
      Adopt(n, k, cum);
      AttachAdopted(N0, M1, cap, n, k, cum);
    }

    /** The second half of ActivateChild, once the previous parent has
        given the child up: n owns slot k again, the child records n and
        cum, and its visits are added along n's ancestors (Attach). */
    method Adopt(n: int, k: int, cum: int)
      requires Valid() && 0 < n < |nodes| && 0 <= k < |nodes[n].child| && nodes[n].child[k] != Null
      modifies this`nodes
      ensures Valid() && nodes == Attach(old(nodes), cap, n, k, cum)
    {
      ghost var M1 := nodes;
      var kid := nodes[n].child[k];
      SetOwnKeeps(nodes, table, cap, n, k, true);
      nodes := nodes[n := SetOwn(nodes[n], k, true)];
      ReparentKeeps(nodes, table, cap, n, k, cum);
      nodes := nodes[kid := nodes[kid].(cum := cum, p := n)];
      assert nodes == Reparent(M1, n, k, cum);
      Add(kid, n);
    }

    /** The child of node p reached by the move in slot bi, whose board has
        the given hash, moves and number of blocks, after a move worth gain
        points from a node reached with cum points.  A board seen before is
        shared (Settled of Hold, stated node by node): the slot holds its
        node and is given up; the node is adopted when reached with more
        points, and otherwise the dead child (index 0) is returned and a p
        left owning nothing is given up by its parent. */
    method GetChild(p: int, bi: int, gain: int, cum: int, hash: int, kidMoves: seq<int>, kidBlocks: nat) returns (r: int)
      requires Valid() && 0 < p < |nodes| && 0 <= bi < |nodes[p].child| && nodes[p].child[bi] == Null
      requires kidBlocks < nodes[p].blocks
      requires hash in table && 0 <= table[hash] < |nodes| ==> nodes[table[hash]].blocks == kidBlocks
      modifies this`nodes, this`table
      ensures Valid()
      ensures hash !in old(table) ==>
        && r == |old(nodes)| && |nodes| == r + 1 && table == old(table)[hash := r]
        && Initial(nodes[r], kidMoves, kidBlocks) && nodes[r].p == p && nodes[r].cum == cum + gain
        && nodes[..r] == old(nodes)[p := old(nodes)[p].(child := old(nodes)[p].child[bi := r])]
      ensures hash in old(table) ==>
        && table == old(table) && |nodes| == |old(nodes)|
        && (forall m {:trigger Settled(Hold(old(nodes), p, bi, old(table)[hash]), cap, p, bi, cum + gain)[m]} ::
              0 <= m < |nodes| ==> nodes[m] == Settled(Hold(old(nodes), p, bi, old(table)[hash]), cap, p, bi, cum + gain)[m])
        && nodes[p].child == old(nodes)[p].child[bi := old(table)[hash]]
      ensures hash in old(table) && cum + gain <= old(nodes)[old(table)[hash]].cum ==>
        r == 0 && !nodes[p].own[bi] && nodes[p].cnt == old(nodes)[p].cnt - 1
      ensures hash in old(table) && cum + gain > old(nodes)[old(table)[hash]].cum ==>
        && r == old(table)[hash] && nodes[r].p == p && nodes[r].cum == cum + gain && nodes[p].own[bi]
    {
      if hash in table {
        r := Share(p, bi, gain, cum, table[hash]);
      } else {
        var kid := NewNode(kidMoves, kidBlocks);
        kid := kid.(p := p, cum := cum + gain);
        ExpandKeeps(nodes, table, cap, p, bi, kid, hash);
        var m := |nodes|;
        nodes := (nodes + [kid])[p := nodes[p].(child := nodes[p].child[bi := m])];
        table := table[hash := m];
        r := m;
      }
    }

    /** GetChild for a board already in the table, held by node tmp. */
    method Share(p: int, bi: int, gain: int, cum: int, tmp: int) returns (r: int)
      requires Valid() && 0 < p < |nodes| && 0 <= bi < |nodes[p].child| && nodes[p].child[bi] == Null
      requires 0 < tmp < |nodes| && nodes[tmp].p != Null && nodes[tmp].blocks < nodes[p].blocks
      modifies this`nodes
      ensures Valid() && |nodes| == |old(nodes)|
      ensures forall m {:trigger Settled(Hold(old(nodes), p, bi, tmp), cap, p, bi, cum + gain)[m]} ::
        0 <= m < |nodes| ==> nodes[m] == Settled(Hold(old(nodes), p, bi, tmp), cap, p, bi, cum + gain)[m]
      ensures nodes[p].child == old(nodes)[p].child[bi := tmp]
      ensures cum + gain <= old(nodes)[tmp].cum ==>
        r == 0 && !nodes[p].own[bi] && nodes[p].cnt == old(nodes)[p].cnt - 1
      ensures cum + gain > old(nodes)[tmp].cum ==>
        && r == tmp && nodes[r].p == p && nodes[r].cum == cum + gain && nodes[p].own[bi]
    {
      ghost var N0 := nodes;
      HoldSlot(p, bi, tmp);
      ghost var N1 := nodes;
      r := Settle(p, bi, cum + gain);
      ShareOutcome(N0, N1, nodes, p, bi, tmp, cum + gain, r);
    }

    /** The first half of Share: p's slot bi holds tmp, not owned. */
    method HoldSlot(p: int, bi: int, tmp: int)
      requires Valid() && 0 < p < |nodes| && 0 <= bi < |nodes[p].child| && nodes[p].child[bi] == Null
      requires 0 < tmp < |nodes| && nodes[tmp].p != Null && nodes[tmp].blocks < nodes[p].blocks
      modifies this`nodes
      ensures Valid() && nodes == Hold(old(nodes), p, bi, tmp)
      ensures nodes[p].child[bi] == tmp && !nodes[p].own[bi] && nodes[tmp] == old(nodes)[tmp]
      ensures nodes[p].child == old(nodes)[p].child[bi := tmp] && nodes[p].cnt == old(nodes)[p].cnt - 1
    {
      var d := nodes[p];
      assert Fits(nodes, d, cap);
      assert Slot(nodes, d, Null, d.own[bi]);
      ShareKeeps(nodes, table, cap, p, bi, tmp);
      nodes := Hold(nodes, p, bi, tmp);
    }

    /** The second half of Share, once p's slot bi holds the shared node:
        it is adopted when reached with more points than recorded, and
        otherwise a p left owning nothing is given up by its parent. */
    method Settle(p: int, bi: int, sum: int) returns (r: int)
      requires Valid() && 0 < p < |nodes| && 0 <= bi < |nodes[p].child| && nodes[p].child[bi] != Null
      requires !nodes[p].own[bi]
      modifies this`nodes
      ensures Valid() && |nodes| == |old(nodes)|
      ensures forall m {:trigger Settled(old(nodes), cap, p, bi, sum)[m]} ::
        0 <= m < |nodes| ==> nodes[m] == Settled(old(nodes), cap, p, bi, sum)[m]
      ensures nodes[p].child == old(nodes)[p].child && bi < |nodes[p].own|
      ensures var tmp := old(nodes)[p].child[bi];
        && r == (if sum <= old(nodes)[tmp].cum then 0 else tmp)
        && (sum <= old(nodes)[tmp].cum ==> nodes[p] == old(nodes)[p])
        && (sum > old(nodes)[tmp].cum ==> nodes[tmp].p == p && nodes[tmp].cum == sum && nodes[p].own[bi])
    {
      var tmp := nodes[p].child[bi];
      if sum <= nodes[tmp].cum {
        Release(p);
        r := 0;
      } else {
        ActivateChild(p, bi, sum);
        r := tmp;
      }
    }

    /** A node p left owning nothing is given up by its parent (Dropped). */
    method Release(p: int)
      requires Valid() && 0 < p < |nodes|
      modifies this`nodes
      ensures Valid() && nodes == Dropped(old(nodes), cap, p) && nodes[p] == old(nodes)[p]
    {
      if nodes[p].cnt == 0 && nodes[p].p != Null {
        ChainAcyclic(nodes, cap, p);
        DeactivateChild(nodes[p].p, p);
      }
    }

    /** The slot of node n whose child's best score plus move score is the
        largest, the lowest such slot on ties. */
    static method PickBest(N: seq<Node>, n: int) returns (bi: int)
      requires Complete(N, n) && |N[n].child| > 0
      ensures bi == Pick(N, n)
    {
      var d := N[n];
      ghost var v := Gains(N, d);
      bi := 0;
      var i := 1;
      assert v[..1] == [v[0]];
      while i < |d.child|
        invariant 1 <= i <= |d.child|
        invariant bi == ArgMax(v[..i])
      {
        ArgMaxStep(v, i);
        if N[d.child[i]].topscore + d.score[i] > N[d.child[bi]].topscore + d.score[bi] {
          bi := i;
        }
        i := i + 1;
      }
      assert v[..i] == v;
    }

    /** Extracts the optimal solution below the solved node root, reached at
        the given depth: h[depth..] receives the moves of the optimal path
        and h[0] its score, bonus says whether the path clears the board,
        solved is set, and every eighth depth costs one resource unit. */
    method SolvedPlayout(root: int, depth: int) returns (j: int)
      requires Complete(nodes, root) && 1 <= depth
      requires depth + |PathMoves(nodes, root)| <= h.Length
      modifies h, this`inspectLim, this`solved, this`bonus
      ensures solved
      ensures j == depth + |PathMoves(nodes, root)|
      ensures h[0] == PathValue(nodes, root)
      ensures h[depth..j] == PathMoves(nodes, root)
      ensures forall i :: 0 < i < depth || j <= i < h.Length ==> h[i] == old(h[i])
      ensures inspectLim == old(inspectLim) - Ticks(depth, j + 1)
      ensures bonus == (nodes[PathLeaf(nodes, root)].blocks == 0)
    {
      solved := true;
      h[0] := 0;
      ghost var H0 := h[..];
      var r;
      j, r := Descend(nodes, root, depth);
      DescentDone(nodes, root, r, depth, j, H0, h[..]);
      assert forall i :: 0 <= i < h.Length ==> h[i] == h[..][i] && (i != 0 ==> old(h[i]) == H0[i]);
      inspectLim := inspectLim - (if j % 8 == 0 then 1 else 0);
      h[0] := h[0] + nodes[r].topscore;
      bonus := nodes[r].blocks == 0;
    }

    /** The descent of SolvedPlayout from root, at the given depth, down to
        the node r without children that ends the optimal path (Descent
        states what has been written to h). */
    method Descend(N: seq<Node>, root: int, depth: int) returns (j: int, r: int)
      requires Complete(N, root) && 1 <= depth
      requires depth + |PathMoves(N, root)| <= h.Length
      modifies h, this`inspectLim
      ensures Descent(N, root, r, depth, j, old(h[..]), h[..]) && |N[r].child| == 0
      ensures inspectLim == old(inspectLim) - Ticks(depth, j)
    {
      j := depth;
      r := root;
      ghost var H0 := h[..];
      DescentStart(N, root, depth, H0);
      while |N[r].child| != 0
        invariant Descent(N, root, r, depth, j, H0, h[..])
        invariant inspectLim == old(inspectLim) - Ticks(depth, j)
        decreases N[r].blocks
      {
        inspectLim := inspectLim - (if j % 8 == 0 then 1 else 0);
        PathStep(N, r);
        r := Stride(N, root, r, depth, j, H0);
        j := j + 1;
      }
    }

    /** One level of Descend at node r and depth j: the best child c is
        taken, its move written to h[j] and its score added to h[0]. */
    method Stride(N: seq<Node>, root: int, r: int, depth: int, j: int, ghost H0: seq<int>) returns (c: int)
      requires Descent(N, root, r, depth, j, H0, h[..]) && |N[r].child| > 0
      modifies h
      ensures c == N[r].child[Pick(N, r)] && N[c].blocks < N[r].blocks
      ensures Descent(N, root, c, depth, j + 1, H0, h[..])
    {
      var d := N[r];
      var bi := PickBest(N, r);
      ghost var H := h[..];
      DescentStep(N, root, r, depth, j, H0, H);
      PathStep(N, r);
      h[0] := h[0] + d.score[bi];
      h[j] := d.moves[2 * bi];
      assert h[..] == H[0 := H[0] + d.score[bi]][j := d.moves[2 * bi]];
      c := d.child[bi];
    }

    /** The child choice on a finalized level at node n, reached with cum
        points.  The slots are scanned in order, each unowned child now
        reachable with at least its recorded score sum being reconquered
        (the Chain of arenas seen, nodes ending as the Last of them).  The
        choice is the preferred null slot (Reservoir) if there is one, and
        otherwise the Best candidate; without a choice the finalized
        frontier retreats by one level. */
    method Finalize(n: int, cum: int, coins: seq<bool>) returns (bi: int, ghost seen: seq<seq<Node>>)
      requires Valid() && 0 < n < |nodes|
      modifies this`nodes, this`breakDepth
      ensures Valid() && |nodes| == |old(nodes)| && nodes[n].child == old(nodes)[n].child
      ensures |seen| == |old(nodes)[n].child| && Chain(old(nodes), cap, n, cum, seen)
      ensures nodes == Last(old(nodes), seen)
      ensures var b := Reservoir(old(nodes)[n].child, coins, |seen|);
        if b >= 0 then bi == b else Best(old(nodes), n, seen, bi)
      ensures breakDepth == old(breakDepth) - (if bi < 0 then 1 else 0)
    {
      ghost var N0 := nodes;
      var child := nodes[n].child;
      var score := nodes[n].score;
      bi := -1;
      var bnull := -1;
      var nullcnt := 0;
      seen := [];
      var i := 0;
      while i < |child|
        invariant i == |seen| && Valid() && Finalizing(N0, cap, nodes, n, cum, coins, child, score, seen, bi, bnull, nullcnt)
        invariant breakDepth == old(breakDepth)
      {
        bi, bnull, nullcnt, seen := ScanSlot(n, cum, coins, child, score, i, bi, bnull, nullcnt, N0, seen);
        i := i + 1;
      }
      if bnull >= 0 {
        bi := bnull;
      }
      if bi < 0 {
        breakDepth := breakDepth - 1;
      }
    }

    /** Slot i of the finalized scan: an empty slot only enters the draw
        among empty slots; an occupied one is reconquered and, when it is
        alive and owned, competes with the best so far. */
    method ScanSlot(n: int, cum: int, coins: seq<bool>, child: seq<int>, score: seq<int>, i: int,
                    bi: int, bnull: int, nullcnt: int, ghost N0: seq<Node>, ghost seen: seq<seq<Node>>)
      returns (bi': int, bnull': int, nullcnt': int, ghost seen': seq<seq<Node>>)
      requires Valid() && Finalizing(N0, cap, nodes, n, cum, coins, child, score, seen, bi, bnull, nullcnt)
      requires i == |seen| < |child|
      modifies this`nodes
      ensures Valid() && Finalizing(N0, cap, nodes, n, cum, coins, child, score, seen', bi', bnull', nullcnt')
      ensures |seen'| == i + 1
    {
      if child[i] == Null {
        bnull', nullcnt' := NullSlot(child, coins, i, bnull, nullcnt);
        assert Fits(nodes, nodes[n], cap);
        ChainPush(N0, cap, n, cum, seen, nodes, nodes, i, cum + score[i]);
        BestKeep(N0, n, seen, bi, nodes);
        bi' := bi;
      } else {
        CountStep(child, i, Null);
        ReservoirStep(child, coins, i, nullcnt);
        bnull', nullcnt' := bnull, nullcnt;
        bi' := LiveSlot(n, cum, child, score, i, bi, N0, seen);
      }
      FinalizingPush(N0, cap, nodes, n, cum, coins, child, score, seen, bi', bnull', nullcnt');
      seen' := seen + [nodes];
    }

    /** A null slot i of the scan of Finalize: it becomes the preferred
        one when it is the first null slot, or when its coin comes up. */
    static method NullSlot(child: seq<int>, coins: seq<bool>, i: int, bnull: int, nullcnt: int)
      returns (bnull': int, nullcnt': int)
      requires 0 <= i < |child| && child[i] == Null
      requires nullcnt == Count(child[..i], Null) && bnull == Reservoir(child, coins, i)
      ensures nullcnt' == Count(child[..i + 1], Null) && bnull' == Reservoir(child, coins, i + 1)
    {
      CountStep(child, i, Null);
      ReservoirStep(child, coins, i, nullcnt);
      nullcnt' := nullcnt + 1;
      bnull' := bnull;
      if nullcnt' == 1 || (i < |coins| && coins[i]) {
        bnull' := i;
      }
    }

    /** An expanded slot i of the scan of Finalize: the child is reconquered
        (Reconquer) and becomes the choice when it is a candidate whose best
        score beats that of the choice so far. */
    method LiveSlot(n: int, cum: int, child: seq<int>, score: seq<int>, i: int, bi: int,
                    ghost N0: seq<Node>, ghost seen: seq<seq<Node>>)
      returns (bi': int)
      requires Valid() && 0 < n < |nodes| == |N0| && nodes == Last(N0, seen)
      requires child == N0[n].child == nodes[n].child && score == N0[n].score
      requires forall m :: 0 <= m < |nodes| ==> nodes[m].topscore == N0[m].topscore
      requires i == |seen| < |child| && child[i] != Null
      requires Chain(N0, cap, n, cum, seen) && Best(N0, n, seen, bi)
      modifies this`nodes
      ensures Valid() && |nodes| == |N0| && nodes[n].child == child
      ensures forall m :: 0 <= m < |nodes| ==> nodes[m].topscore == N0[m].topscore
      ensures Chain(N0, cap, n, cum, seen + [nodes]) && Best(N0, n, seen + [nodes], bi')
    {
      var c := child[i];
      var live := Reconquer(n, i, cum + score[i], N0, cum, seen);
      bi' := bi;
      if live && (bi < 0 || nodes[c].topscore > nodes[child[bi]].topscore) {
        bi' := i;
      }
      BestStep(N0, nodes, n, child, seen, i, bi, live, bi');
    }

    /** Slot i of a finalized level at node n, reached with sum points: the
        expanded child is reconquered when unowned and sum reaches its
        recorded score sum (Activation); live says whether the slot is then
        a candidate of the choice. */
    method Reconquer(n: int, i: int, sum: int, ghost N0: seq<Node>, ghost cum: int, ghost seen: seq<seq<Node>>)
      returns (live: bool)
      requires Valid() && 0 < n < |nodes| && 0 <= i < |nodes[n].child| && nodes[n].child[i] != Null
      requires Chain(N0, cap, n, cum, seen) && i == |seen| < |N0[n].child|
      requires nodes == Last(N0, seen) && sum == cum + N0[n].score[i]
      modifies this`nodes
      ensures Valid() && Activation(old(nodes), nodes, cap, n, i, sum)
      ensures |nodes| == |old(nodes)| && nodes[n].child == old(nodes)[n].child
      ensures forall m :: 0 <= m < |nodes| ==> nodes[m].topscore == old(nodes)[m].topscore
      ensures live == Candidate(nodes, n, i)
      ensures Chain(N0, cap, n, cum, seen + [nodes])
    {
      var c := nodes[n].child[i];
      assert Fits(nodes, nodes[n], cap);
      if !nodes[n].own[i] && sum >= nodes[c].cum {
        ActivateChild(n, i, sum);
      }
      live := nodes[c].t >= 0 && nodes[n].own[i];
      ChainPush(N0, cap, n, cum, seen, old(nodes), nodes, i, sum);
    }

    /** The colour tally of the tabu playout on a board whose cells hold
        colours 0 (empty) .. colors: h[c] becomes the number of cells of
        colour c, the tabu colour has the largest count (a tie replaces
        the earlier colour only when its draw comes up), blocks is the
        number of non-empty cells, and h[0] ends reset. */
    method TabuTally(board: seq<int>, colors: int, draws: seq<bool>) returns (tabu: int, blocks: int)
      requires 1 <= colors < h.Length
      requires forall i :: 0 <= i < |board| ==> 0 <= board[i] <= colors
      modifies h
      ensures forall c :: 1 <= c <= colors ==> h[c] == Count(board, c)
      ensures 1 <= tabu <= colors
      ensures forall c :: 1 <= c <= colors ==> h[c] <= h[tabu]
      ensures forall c :: 1 <= c < tabu && h[c] == h[tabu] ==> tabu < |draws| && draws[tabu]
      ensures forall c :: tabu < c <= colors && h[c] == h[tabu] ==> !(c < |draws| && draws[c])
      ensures blocks == |board| - Count(board, 0)
      ensures h[0] == 0
      ensures forall i :: colors < i < h.Length ==> h[i] == old(h[i])
    {
      CountColours(board, colors);
      tabu := PickTabu(colors, draws);
      h[0] := 0;
      blocks := 0;
      var i := 1;
      while i <= colors
        invariant 1 <= i <= colors + 1
        invariant blocks == Tally(board, 1, i)
      {
        blocks := blocks + h[i];
        i := i + 1;
      }
      TallyCovers(board, colors);
    }

    /** The choice of the tabu colour among the counts h[1..colors]: a
        larger count always wins, a tie with the colour so far wins only
        when its draw comes up; h[0] serves as the tie counter. */
    method PickTabu(colors: int, draws: seq<bool>) returns (tabu: int)
      requires 1 <= colors < h.Length
      modifies h
      ensures 1 <= tabu <= colors
      ensures forall c :: 1 <= c < h.Length ==> h[c] == old(h[c])
      ensures forall c :: 1 <= c <= colors ==> h[c] <= h[tabu]
      ensures forall c :: 1 <= c < tabu && h[c] == h[tabu] ==> tabu < |draws| && draws[tabu]
      ensures forall c :: tabu < c <= colors && h[c] == h[tabu] ==> !(c < |draws| && draws[c])
    {
      ghost var H := h[..];
      tabu := 1;
      h[0] := 1;
      var i := 2;
      while i <= colors
        invariant 2 <= i <= colors + 1 && 1 <= tabu < i
        invariant forall c :: 1 <= c < h.Length ==> h[c] == H[c]
        invariant forall c :: 1 <= c < i ==> H[c] <= H[tabu]
        invariant forall c :: 1 <= c < tabu && H[c] == H[tabu] ==> tabu < |draws| && draws[tabu]
        invariant forall c :: tabu < c < i && H[c] == H[tabu] ==> !(c < |draws| && draws[c])
      {
        if h[i] > h[tabu] {
          tabu := i;
          h[0] := 1;
        } else if h[i] == h[tabu] {
          h[0] := h[0] + 1;
          if i < |draws| && draws[i] {
            tabu := i;
          }
        }
        i := i + 1;
      }
    }

    /** The counting loops of the tabu playout: h[c] becomes the number of
        cells of colour c for 1 <= c <= colors. */
    method CountColours(board: seq<int>, colors: int)
      requires 1 <= colors < h.Length
      requires forall i :: 0 <= i < |board| ==> 0 <= board[i] <= colors
      modifies h
      ensures forall c :: 1 <= c <= colors ==> h[c] == Count(board, c)
      ensures forall i :: colors < i < h.Length ==> h[i] == old(h[i])
    {
      var i := 1;
      while i <= colors
        invariant 1 <= i <= colors + 1
        invariant forall c :: 1 <= c < i ==> h[c] == 0
        invariant forall c :: colors < c < h.Length ==> h[c] == old(h[c])
      {
        h[i] := 0;
        i := i + 1;
      }
      i := 0;
      while i < |board|
        invariant 0 <= i <= |board|
        invariant forall c :: 1 <= c <= colors ==> h[c] == Count(board[..i], c)
        invariant forall c :: colors < c < h.Length ==> h[c] == old(h[c])
      {
        forall c | 1 <= c <= colors {
          CountStep(board, i, c);
        }
        h[board[i]] := h[board[i]] + 1;
        i := i + 1;
      }
      assert board[..i] == board;
    }
  
    /** The frames of the first Levels levels of a run of simlim units:
        each is the larger of 2048 and a seventh of what the frames before
        it left (Frames). */
    static method ResourceFrames(simlim: int) returns (rf: array<int>)
      ensures fresh(rf) && rf[..] == Frames(simlim)
    {
      rf := new int[Levels];
      var left := simlim;
      var i := 0;
      while i < Levels
        invariant 0 <= i <= Levels && left == Left(simlim, i)
        invariant forall k {:trigger rf[k]} :: 0 <= k < i ==> rf[k] == Frame(Left(simlim, k))
      {
        rf[i] := Frame(left);
        left := left - rf[i];
        i := i + 1;
      }
      FramesAt(simlim, rf[..]);
    }

    /** Clears the traces of a previous run: the best score, the duplicate
        table, the finalized depth and the early-terminal flag. */
    method McTsReset()
      requires |best| > 0
      modifies this`best, this`table, this`breakDepth, this`earlyTerminal
      ensures best == old(best)[0 := NoScore] && table == map[] && breakDepth == 0 && !earlyTerminal
    {
      best := best[0 := NoScore];
      table := map[];
      breakDepth := 0;
      earlyTerminal := false;
    }

    /** A run of simlim units over the given iterations: after the reset,
        iterations run while resources are left, the best solution is kept,
        and every exhausted frame moves the finalized depth one level down.
        The final state is that of Play, used the number of iterations run
        (Used). */
    method Solve(simlim: int, rounds: seq<Round>) returns (used: nat)
      requires |best| > 0 && Feasible(Frames(simlim), Start(simlim, best), rounds)
      modifies this`best, this`table, this`breakDepth, this`earlyTerminal, this`inspectLim, this`startLim
      ensures var R := Play(Frames(simlim), Start(simlim, old(best)), rounds);
        inspectLim == R.inspect && breakDepth == R.depth && best == R.best
      ensures used == Used(Frames(simlim), Start(simlim, old(best)), rounds)
      ensures startLim == simlim && table == map[]
    {
      ghost var F := Frames(simlim);
      ghost var S0 := Start(simlim, best);
      McTsReset();
      startLim := simlim;
      inspectLim := simlim;
      var rf := ResourceFrames(simlim);
      var frameLim := rf[0];
      used := 0;
      while inspectLim > 0 && used < |rounds|
        invariant used <= |rounds| && rf[..] == F
        invariant Feasible(F, Run(inspectLim, frameLim, breakDepth, best), rounds[used..])
        invariant Play(F, Run(inspectLim, frameLim, breakDepth, best), rounds[used..]) == Play(F, S0, rounds)
        invariant used + Used(F, Run(inspectLim, frameLim, breakDepth, best), rounds[used..]) == Used(F, S0, rounds)
        invariant startLim == simlim && table == map[]
        decreases |rounds| - used
      {
        ghost var s := Run(inspectLim, frameLim, breakDepth, best);
        var r := rounds[used];
        assert rounds[used..][0] == r && rounds[used..][1..] == rounds[used + 1..];
        frameLim := Pass(rf, frameLim, r);
        used := used + 1;
      }
      if used == |rounds| {
        assert rounds[used..] == [];
      }
    }

    /** One pass of the main loop of Solve after iteration r, which left
        r.left resources: the state moves as Next says. */
    method Pass(rf: array<int>, frameLim: int, r: Round) returns (frameLim': int)
      requires rf.Length == Levels && Admissible(Run(inspectLim, frameLim, breakDepth, best), r)
      modifies this`inspectLim, this`breakDepth, this`best
      ensures Run(inspectLim, frameLim', breakDepth, best) == Next(rf[..], Run(old(inspectLim), frameLim, old(breakDepth), old(best)), r)
    {
      var tmp := inspectLim;
      inspectLim := r.left;
      if r.retreat {
        breakDepth := breakDepth - 1;
      }
      if r.h[0] > best[0] {
        best := CopyOf(r.h, r.len);
      }
      frameLim' := frameLim - (tmp - inspectLim);
      if frameLim' <= 0 {
        breakDepth := breakDepth + 1;
        frameLim' := if breakDepth >= Levels then inspectLim else rf[breakDepth];
      }
    }

    /** Run i of a sequence of runs whose bests are B: it leaves B[i] as
        the best solution and keeps the first of the highest-scoring bests
        so far in ans. */
    method Lap(simlim: int, rounds: seq<Round>, ans: Option<seq<int>>,
               ghost L: seq<seq<Round>>, ghost i: int, ghost B: seq<seq<int>>)
      returns (ans': Option<seq<int>>)
      requires Laps(simlim, best, L, i, B, ans) && i < |L| && rounds == L[i]
      modifies this`best, this`table, this`breakDepth, this`earlyTerminal, this`inspectLim, this`startLim
      ensures best == B[i] && Laps(simlim, best, L, i + 1, B, ans')
    {
      LapStep(simlim, best, L, i, B);
      var used := Solve(simlim, rounds);
      LeaderStep(B, i, ans);
      ans' := ans;
      if ans' == None || best[0] > ans'.value[0] {
        ans' := Some(CopyOf(best, |best|));
        assert ans'.value == best;
      }
    }

    /** metaSolve: laps runs of tot/laps units each (Java's truncating
        division, Quot); the answer is a copy of the first run's best
        solution with the highest score, none when laps is negative. */
    method MetaSolve(tot: int, laps: int, lapRounds: seq<seq<Round>>) returns (ans: Option<seq<int>>)
      requires laps != 0 && laps <= |lapRounds| && |best| > 0
      requires LapsFeasible(Quot(tot, laps), best, lapRounds[..Max(laps, 0)])
      modifies this`best, this`table, this`breakDepth, this`earlyTerminal, this`inspectLim, this`startLim
      ensures laps < 0 ==> ans == None
      ensures laps > 0 ==> var B := LapBests(Quot(tot, laps), old(best), lapRounds[..laps]);
        ans == Some(B[ArgMax(Heads(B))])
    {
      var simlim := Quot(tot, laps);
      ans := Runs(simlim, laps, lapRounds);
    }

    /** The loop of metaSolve: laps runs of simlim units each. */
    method Runs(simlim: int, laps: int, lapRounds: seq<seq<Round>>) returns (ans: Option<seq<int>>)
      requires laps <= |lapRounds| && |best| > 0
      requires LapsFeasible(simlim, best, lapRounds[..Max(laps, 0)])
      modifies this`best, this`table, this`breakDepth, this`earlyTerminal, this`inspectLim, this`startLim
      ensures laps <= 0 ==> ans == None
      ensures laps > 0 ==> var B := LapBests(simlim, old(best), lapRounds[..laps]);
        ans == Some(B[ArgMax(Heads(B))])
    {
      ghost var L := lapRounds[..Max(laps, 0)];
      ghost var B := LapBests(simlim, best, L);
      LapsStart(simlim, best, L);
      ans := None;
      var i := 0;
      while i < laps
        invariant Laps(simlim, best, L, i, B, ans)
      {
        ans := Lap(simlim, lapRounds[i], ans, L, i, B);
        i := i + 1;
      }
      if laps > 0 {
        LeaderDone(B, ans);
      }
    }
  }
}
