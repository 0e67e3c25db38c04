# SameGame MCTS: a verified model of the search bookkeeping and the game rules

The repository is a Monte-Carlo tree search player for SameGame, plus a small
Swing front end. This project models two of its parts in Dafny and proves
properties about them.

- **The game rules** from the Swing board `Game`. There are two flood fills:
  - `dfsMark` marks and measures a group;
  - `dfsKill` removes a group.

  The rest:
  - gravity inside a column (`redCol`) and between columns (`redRow`);
  - playing a move and its score (`makeMove`);
  - detecting the end of the game (`gameOver`);
  - the end-of-game score (`endScore`);
  - the cell encoding `x*ys+y`.

  The class `SameGame.Game` keeps the board and the marks as fields that its
  methods update. Each method is proved against value-level definitions in
  modules `Flood`, `Columns` and `Rules`:
  - a *group* is the least set containing the cell that is closed under
    same-colour adjacency;
  - `Settle` and `Collapse` are gravity on values;
  - `Played` is the board after a move;
  - `EndValue` is what the end score means, group by group.
- **The integer bookkeeping of the search** in `MCTS`. The class
  `Mcts.Search` holds the search's static state:
  - the node arena;
  - the transposition table as a `map` from board hashes to node indices;
  - the best solution;
  - the resource counters;
  - the finalized depth;
  - the solution buffer `h` as an `array`.

  Nodes are values of `Arena.Node`, stored in the arena `nodes` and linked
  by index. The parent field `p` is an index, `Null` (-1) is the null child,
  and index 0 is the dead child. Its methods model:
  - node construction and `update`;
  - the ownership protocol `deactivateChild` and `activateChild`;
  - the parent-chain walks `add`, `subtract` and `leafhit`;
  - the queries `getIndex`, `owns` and `isAlive`;
  - the transposition decision of `getChild`;
  - `solvedPlayout`;
  - the deterministic child choice on a finalized level;
  - the colour tally of the tabu playout;
  - the resource schedule and best-solution record of `solve`, `mcts_reset`
    and `metaSolve`.

The arena invariant `Arena.Linked` holds before and after every method. It
states:
- index 0 holds the dead child;
- a node's slot arrays agree in length and its links are arena indices;
- `cnt` is the number of owned slots;
- a parent's board has more blocks than its child's, so parent chains end;
- every slot is either null and owned, or holds a node with fewer blocks
  that has a parent.

It does not state that an owned child names its owner as parent.

`Arena.Filed` says that every table entry indexes the arena. `Valid()` of
`Search` is the conjunction of the two.

The `Board` collaborator of `MCTS` is not part of this model. What it computes
enters as parameters:
- a node's `moves` and its number of blocks, which stands for the board;
- a move's `gain` and the board `hash`.

Randomness also enters as parameters: the `coins` of the null-child
reservoir sampling and the `draws` of the tabu tie break. One iteration of
the search (`iterate`) enters `solve` as a `Budget.Round` value: the
resources left after it, whether a finalized level found no choice, the
solution buffer it left, and the length it returned.

Files:
- `flood.dfy` (module `Flood`): cells and groups;
- `columns.dfy` (module `Columns`): gravity on values;
- `rules.dfy` (module `Rules`): boards, marks, moves and scores on values;
- `samegame.dfy` (module `SameGame`): the class `Game`;
- `arena.dfy` (module `Arena`): nodes, the arena invariant, and the
  ownership transfer on values;
- `paths.dfy` (module `Paths`): the optimal path, counting, reservoir
  choice, and the finalized scan on values;
- `budget.dfy` (module `Budget`): the resource schedule and the main loop of
  `solve` on values;
- `search.dfy` (module `Mcts`): the class `Search`.

## Model

| member | source | states |
|---|---|---|
| SameGame.Game.constructor | Game.java:41-51 | cell `y` of column `x` holds colour `b[x*ys+y]` of the input, which is read column by column; no cell is marked and the score is 0 |
| Rules.LoadedPush | Game.java:48-50 | loading one more column of `ys` cells from `b` extends the loaded prefix of the board by that column |
| Rules.IndexRoundTrip | Game.java:50 | the encoding `x*ys+y` and its decoding (`/ys`, `%ys`) are inverse: the cell comes back from its index, and the index from its cell, for every index |
| Rules.IndexBound | Game.java:50 | a cell of an `xs`×`ys` grid encodes into `0 .. xs*ys-1` |
| SameGame.Game.DfsMark | Game.java:88-99 | the returned count is the size of the group of not-yet-marked cells of colour `prv` 4-connected to `(x,y)` (empty if that cell is out of the board, of another colour or marked); exactly that group gets marked, all else unchanged |
| SameGame.Game.DfsKill | Game.java:102-112 | for `prv != bg`: the returned count is the size of the `prv`-coloured group at `(x,y)`; exactly those cells become `bg`, every other cell unchanged; terminates because the number of `prv` cells shrinks. The source recurses without end for `prv == bg`, since a cleared cell still matches; its only caller passes a block's colour (Game.java:135) |
| Flood.GroupUnique | Game.java:88-112 | a group is determined by its cell and the eligible set: two groups of the same cell are equal |
| Flood.GroupShared | Game.java:88-112 | two cells of one group have the same group, so marking a group from any of its cells marks the same set |
| Flood.GroupSymmetric | Game.java:88-112 | if q lies in the group of p then p lies in the group of q |
| Flood.CloseProperties | Game.java:88-112 | the closure of a seed set is the least closed set containing it |
| Flood.GroupOf | Game.java:88-112 | every cell has a group in every eligible set |
| Flood.GroupAvoids | Game.java:88-99 | a group of an unmarked cell avoids every closed marked region, and is still the group once that region is removed |
| Flood.NeighbourInGroup | Game.java:88-99 | an eligible neighbour of an eligible cell is in its group, and the group has more than one cell |
| Flood.BigGroupHasNeighbour | Game.java:88-99 | a group with more than one cell has an eligible neighbour of its cell |
| SameGame.Game.RedCol | Game.java:115-120 | the column becomes `Settle` of itself: the blocks in their original order at the bottom, `bg` above |
| Columns.SettlePermutes | Game.java:115-120 | gravity in a column is a permutation of the column and keeps its sequence of blocks |
| Columns.SettleSettles | Game.java:115-120 | a settled column has no `bg` below a block |
| Columns.SettleIdle | Game.java:115-120 | gravity leaves a settled column unchanged (idempotence) |
| Columns.SettleRange | Game.java:115-120 | gravity keeps every cell inside the colour range |
| Columns.StonesMultiset | Game.java:115-120 | a column is its blocks plus its `bg` cells as a multiset |
| Columns.ColScanEnd | Game.java:115-120 | the scan with a running gap count ends in `Settle` of the original column |
| SameGame.Game.RedRow | Game.java:123-128 | the board becomes `Collapse` of itself: the standing columns (bottom cell not `bg`) in their original order on the left, then empty columns |
| Columns.CollapseAt | Game.java:123-128 | column k after the collapse is the k-th standing column, or emptied once the standing columns are used up |
| Columns.StandingFrom | Game.java:123-128 | every standing column after the collapse is a column of the original board |
| Columns.CollapseSettled | Game.java:123-128 | after gravity in every column, the columns right of the standing ones are all `bg` |
| Columns.CollapseRange | Game.java:123-128 | the collapse keeps the grid's shape and colour range |
| Columns.RowScanEnd | Game.java:123-128 | the shifting scan with a running count ends in `Collapse` of the original board |
| SameGame.Game.Fall | Game.java:143 | gravity in every column: the board becomes `SettleAll` of itself |
| SameGame.Game.MakeMove | Game.java:133-150 | legal iff the cell is a block whose group has at least two cells; an illegal move changes nothing; a legal one leaves `Played` of the board and adds `(n-2)^2`, plus the end score when no unmarked group of two is left given the marks it found (as written: see Findings) |
| SameGame.Game.PlayMove | Game.java:133-150 | the move as the click handler makes it with the marks cleared: legal iff the group has two or more cells; score gains `(n-2)^2`, and the end score exactly when the new board has no move |
| SameGame.Game.Resolve | Game.java:142-147 | after a kill of n cells: the board is the settled, collapsed board, the score gains `(n-2)^2` and, if the game is over, the end score |
| Rules.LegalPair | Game.java:135-140 | a move is legal iff its cell has a same-coloured neighbour |
| Rules.KilledGroup | Game.java:138-140 | the group dfsKill removes is the group of the cell; one of size below 2 is that cell alone, so restoring it restores the board |
| Rules.RestoreCell | Game.java:140 | restoring the single killed cell restores the board |
| Rules.PlayedTidy | Game.java:142-144 | the board after a move is in range, every column is settled, and if its bottom-left cell is `bg` the whole board is empty |
| Rules.Tidy | Game.java:143-144 | gravity then collapse of any in-range board gives settled columns, all empty when the bottom-left cell is `bg` |
| SameGame.Game.GameOver | Game.java:153-163 | over iff no cell starts an unmarked same-colour group of more than one cell; when not over every mark is cleared; when over, exactly the blocks have been marked in addition |
| Rules.FreeMoveUnmarked | Game.java:153-163 | with no cell marked, the scan's test is exactly "some block has a same-coloured neighbour" |
| Rules.ScanDone | Game.java:153-163 | a complete scan that found no group of two certifies that no unmarked group of two exists, and has marked exactly the blocks |
| SameGame.Game.ClearMarks | Game.java:171 | every mark is cleared (as at lines 159, 171, 184 and 198) |
| SameGame.Game.EndScore | Game.java:166-187 | the result is `EndValue` of the board: 1000 if the bottom-left cell is empty, otherwise the sum of `(area-2)^2` over groups of two or more minus `(c_k-2)^2` per colour. `c_k` counts the blocks of colour k that the scan does not credit as the first cell of a group of two or more: single blocks, and also the later cells of a credited group, for which `dfsMark` returns 0. Marks are cleared afterwards when the result is not 1000; otherwise they are left as they were |
| SameGame.Game.Sweep | Game.java:172-182 | the double loop adds `(area-2)^2` for each group of two or more once, at its first cell in scan order, and counts per colour every other block (area 0 or 1) |
| SameGame.Game.SweepColumn | Game.java:173-182 | one column of the sweep keeps the sweep invariant |
| SameGame.Game.ScoreCell | Game.java:174-182 | one cell of the sweep keeps the sweep invariant |
| SameGame.Game.ScoreBlock | Game.java:174-182 | one block of the sweep keeps the sweep invariant |
| SameGame.Game.Count | Game.java:179-181 | the singles count of colour v goes up by one, every other count unchanged |
| Rules.SweepMark | Game.java:176-177 | at a block, the marked group has more than one cell iff the block is the first cell of a group of two or more, and then it is that whole group |
| Rules.EndValueOfScan | Game.java:168-185 | the total the sweep computes is `EndValue` |
| Rules.EndValueNoMove | Game.java:166-187 | on a board without moves the end score is 1000 for an empty board and minus the sum over colours `(c_k-2)^2` otherwise |
| Rules.PenaltyRemaining | Game.java:183 | with no group of two, the penalty's count of each colour is its number of blocks |
| Rules.LooseCounts | Game.java:178-181 | with no group of two, the count of a colour before the scan position is its number of blocks there |
| Rules.NothingGained | Game.java:177 | with no group of two the sweep gains nothing |
| Rules.StaleHover | Game.java:207-216 | a concrete board on which `makeMove` after a hover finds no free group although a move remains (see Findings) |
| Mcts.Search.constructor | MCTS.java:7-33 | the search starts with only the dead child (index 0, `deadchild`) in the arena, an empty table, a solution buffer of the given length, and no best score |
| Mcts.Search.NewRoot | MCTS.java:70 | a node for the board, with no parent and no visits, no recorded score and every slot owned and unexpanded, is appended to the arena, which keeps all its other nodes; the table is unchanged and the bound on the boards' blocks grows to cover the new board |
| Arena.Widen | MCTS.java:70 | an arena valid for one bound on the blocks is valid for every larger one |
| Arena.RootKeeps | MCTS.java:70 | appending a fresh node without a parent, within the bound, keeps the arena and the table valid |
| Mcts.Search.NewNode | MCTS.java:440-453 | the node of a board: no parent, `t = 0`, `topscore = Integer.MIN_VALUE`, `cnt = live = |moves|/2`, every slot owned and null, `score[k] = (moves[2k+1]-2)^2`, and `cnt` is the number of owned slots |
| Arena.OwnedAll | MCTS.java:448-450 | a node owning every slot owns `|moves|/2` of them |
| Mcts.Search.Update | MCTS.java:465-472 | when `solved` is set nothing changes; otherwise exactly the node's `t` rises by one and its `topscore` becomes `max(topscore, sample)` |
| Mcts.Search.GetIndex | MCTS.java:504-510 | the first slot holding kid, or -1 when no slot holds it |
| Arena.First | MCTS.java:504-510 | returns -1 exactly when kid is absent, otherwise the first slot holding it |
| Mcts.Search.OwnsChild | MCTS.java:513-519 | whether the first slot holding kid is owned; false when kid is absent |
| Mcts.Search.IsAlive | MCTS.java:522-528 | true iff some slot is null or holds a node with `t >= 0` |
| Mcts.Search.Walk | MCTS.java:532-565 | applying an update that keeps a node's shape to p0 and each of its ancestors, up to the root, keeps the arena invariant |
| Arena.AlongStep | MCTS.java:546-551 | one more step up the chain updates exactly the node reached |
| Mcts.Search.Add | MCTS.java:555-565 | nothing changes when kid is solved (`t < 0`); otherwise the visits `t` of p and of every ancestor of p grow by kid's `t`, nothing else changes |
| Mcts.Search.Subtract | MCTS.java:542-552 | the same chain with kid's `t` taken away |
| Arena.ShiftBack | MCTS.java:542-565 | `add` followed by `subtract` of the same count over the same chain restores every node, and each keeps the arena invariant |
| Mcts.Search.Leafhit | MCTS.java:532-539 | `hasLeafHit` is set on leaf and every ancestor, nothing else changes |
| Arena.ChainAcyclic | MCTS.java:542-565 | a node is never its own ancestor, so the parent walks end |
| Arena.ChainBlocks | MCTS.java:542-565 | every ancestor's board has at least as many blocks as the node's |
| Mcts.Search.DeactivateChild | MCTS.java:475-489 | the arena becomes `Arena.Deactivate` of the old one, and `Deactivated` holds: if n owns kid (first matching slot), that slot is given up, `cnt` falls by one and kid's visits are subtracted along n's chain, and a node left with `cnt = 0` and a parent is in turn given up by its parent; if kid is absent or not owned, nothing changes; the arena invariant is kept |
| Mcts.Search.Revoke | MCTS.java:480-485 | the owned branch of `deactivateChild` meets the same two postconditions |
| Mcts.Search.Withdraw | MCTS.java:482-484 | the arena becomes `Detach` of the old one: kid's visits subtracted along n's chain and the slot no longer owned; n keeps its parent |
| Arena.DeactivateStep | MCTS.java:482-484 | one step of `Deactivate`: the slot is given up, then n's parent gives n up exactly when n's `cnt` reaches 0 and n has a parent |
| Arena.DeactivateSpec | MCTS.java:475-489 | `Deactivate` keeps the arena invariant and the table valid, and does what `Deactivated` describes |
| Arena.DetachKeeps | MCTS.java:480-485 | giving up the slot keeps the arena invariant, leaves nodes off n's chain unchanged, unsets exactly that slot, lowers `cnt` by one and subtracts kid's visits from n |
| Arena.DetachCascade | MCTS.java:483 | when the slot was n's last owned one, what deactivating n in its parent achieves is a deactivation of kid in n |
| Arena.DeactivateNone | MCTS.java:477-488 | when n does not own kid, the arena unchanged is a deactivation |
| Arena.RevokedTrans | MCTS.java:483 | revocations compose |
| Mcts.Search.ActivateChild | MCTS.java:492-501 | the arena becomes `Arena.Activate` of the old one (kid's old parent gives it up by `Deactivate`, then `Attach`), and `Adopted` holds: kid is first given up by its old parent, then slot k of n is owned, kid's parent is n and its `cum` the given one, and every node keeps its children, blocks and `topscore`; the invariant is kept. When n is not on the chain of kid's old parent, `Arena.ActivateOwner` gives n's `cnt` one higher and kid's visits added to n; otherwise the old parent's `Deactivate` first subtracts kid's visits along a chain through n (and lowers n's `cnt` when n is the old parent) before `Attach` raises both again, so n can end with the counts it started with |
| Mcts.Search.Adopt | MCTS.java:496-500 | n's side of `activateChild` on the arena after kid's old parent gave it up |
| Arena.AttachAdopted | MCTS.java:492-501 | reparenting after the deactivation, then adding the visits, is an adoption |
| Arena.ActivateAdopted | MCTS.java:492-501 | `Activate` does what `Adopted` describes |
| Arena.ActivateOwner | MCTS.java:495-500 | when n is not on the chain of kid's old parent: n owns slot k, its `cnt` is one higher and its `t` has kid's visits added (none when kid is solved); kid keeps its `t` and records n and the new `cum` |
| Arena.ReparentAdopted | MCTS.java:496-499 | reparenting kid under n gives the adoption's ownership, parent and `cum` |
| Arena.OwnedFlip | MCTS.java:481-499 | flipping one ownership flag changes the owned count by exactly the flag change |
| Mcts.Search.GetChild | MCTS.java:371-399 | table miss: a fresh node with parent p, `cum + gain`, the board's moves, is appended, entered in the table under the hash and in `p.child[bi]`, nothing else changes. Table hit: the table is unchanged and every node becomes that of `Arena.Settled(Arena.Hold(...))`: `p.child[bi]` becomes the stored node, unowned, with `cnt` one lower; if `cum + gain <= its cum`, p is given up by its parent when `cnt` reached 0 and the dead child is returned, otherwise p adopts the node with `cum + gain` (`Activate`) and it is returned |
| Mcts.Search.Share | MCTS.java:379-391 | the table-hit branch with the same postconditions |
| Mcts.Search.HoldSlot | MCTS.java:381 | the arena becomes `Hold`: slot bi holds the stored node and is no longer owned, `cnt` is one lower, nothing else changes |
| Mcts.Search.Settle | MCTS.java:382-390 | every node becomes that of `Settled`; the dead child is returned when the sum does not beat the stored `cum`, with p unchanged, and otherwise the stored node, now p's owned child with the new `cum` |
| Mcts.Search.Release | MCTS.java:384 | the arena becomes `Dropped`: p, left with `cnt = 0` and a parent, is given up by that parent; p itself is unchanged |
| Arena.SharedSpec | MCTS.java:379-391 | on the settled arena p's slot holds the stored node; on the dead outcome the slot is unowned and `cnt` is one lower, and on the adopting one the node records p and the sum and the slot is owned |
| Arena.SharedAdopt | MCTS.java:389 | adopting the stored node makes it p's owned child with the new `cum` |
| Arena.DroppedKeeps | MCTS.java:384 | giving p up keeps the arena invariant and the table valid, and leaves p as it is |
| Arena.ExpandKeeps | MCTS.java:394-398 | adding the fresh node and filing it keeps the arena invariant |
| Mcts.Search.SolvedPlayout | MCTS.java:331-363 | `solved` is set; `h[depth..j]` receives the moves of the optimal path, `h[0]` is the sum of the chosen move scores plus the terminal node's `topscore`; the rest of `h` is unchanged; one resource unit per depth divisible by 8 from depth to j; `bonus` iff the path clears the board |
| Mcts.Search.Descend | MCTS.java:336-362 | the loop ends at the node without children that ends the optimal path, having written its moves and added its scores |
| Mcts.Search.Stride | MCTS.java:351-361 | one level: the chosen child is written to `h[j]`, its score added to `h[0]`, and its board has fewer blocks |
| Mcts.Search.PickBest | MCTS.java:351-356 | the lowest slot maximising child `topscore` plus move score |
| Paths.ArgMax | MCTS.java:351-356 | the first position of the largest value |
| Paths.ArgMaxUnique | MCTS.java:351-356 | a position holding the largest value, with every earlier value smaller, is `ArgMax` |
| Paths.ArgMaxStep | MCTS.java:351-356 | the running maximum on one more element switches only to a strictly larger value (also the lap choice of `metaSolve`) |
| Paths.PathIsBest | MCTS.java:351-356 | no slot beats the chosen one on child `topscore` plus move score |
| Paths.PathStep | MCTS.java:359-361 | the optimal path from a node is its chosen move followed by the optimal path from the chosen child, with score and leaf to match |
| Paths.PathLength | MCTS.java:336-362 | an optimal path has at most as many moves as the node has blocks |
| Paths.DescentDone | MCTS.java:344-347 | at the childless node the moves written are the path's and `h[0]` plus its `topscore` is the path's value |
| Paths.TicksClosed | MCTS.java:338 | the resource units charged between depths a and b are `(b+7)/8 - (a+7)/8` |
| Mcts.Search.Finalize | MCTS.java:138-167 | the slots are scanned in order; every non-owned child reachable with at least its recorded `cum` is reconquered (`activateChild`), nothing else changes; the choice is the reservoir-sampled null slot if any null slot exists, otherwise the owned unsolved child with the largest `topscore` (first on ties), otherwise -1; in that last case the finalized depth falls by one |
| Mcts.Search.ScanSlot | MCTS.java:152-164 | one slot of the scan keeps the scan's invariant |
| Mcts.Search.NullSlot | MCTS.java:154-157 | a null slot raises the null count and is the new reservoir choice as the coin decides |
| Mcts.Search.LiveSlot | MCTS.java:159-162 | a live slot is reconquered if due and becomes the best choice if it is an owned unsolved child with a larger `topscore` |
| Mcts.BestStep | MCTS.java:161-162 | the choice after one more expanded slot: it switches to the slot exactly when the slot is a candidate whose child's `topscore` beats the choice so far |
| Mcts.Search.Reconquer | MCTS.java:160 | a non-owned child reachable with at least its `cum` is adopted with that sum (every node becomes that of `Activate`), anything else is unchanged; the scan's chain of arenas grows by the new arena; returns whether the slot is now an owned unsolved child |
| Paths.Reservoir | MCTS.java:154-166 | -1 iff there is no null slot; otherwise a null slot, either the first one or one whose coin came up, and no later null slot's coin came up |
| Paths.ReservoirStep | MCTS.java:156 | one more slot of the reservoir sampling: chosen if null and first or won by its coin |
| Paths.CountStep | MCTS.java:156 | the running count grows by one exactly at matching slots |
| Paths.ChainPush | MCTS.java:160 | the scan's chain of arenas grows by one reconquest step |
| Paths.BestPush | MCTS.java:161-162 | a candidate with strictly larger `topscore`, or the first candidate, becomes the best choice |
| Paths.BestKeep | MCTS.java:161-162 | a slot that is not a candidate keeps the best choice |
| Mcts.Search.TabuTally | MCTS.java:297-308 | `h[c]` is the number of cells of colour c for `1..colors`; the tabu colour's count is at least every other count; an earlier colour with the same count means the tabu colour's draw came up, and a later colour with the same count had its draw fail; `blocks` is the number of non-empty cells; `h[0]` is reset to 0; `h` beyond `colors` unchanged |
| Mcts.Search.PickTabu | MCTS.java:299-303 | the same choice of the tabu colour, with the counts unchanged |
| Mcts.Search.CountColours | MCTS.java:297-298 | `h[c]` is the number of cells of colour c for `1..colors`, nothing beyond `colors` changes |
| Paths.TallyCovers | MCTS.java:307-308 | the sum of the colour counts is the number of non-empty cells |
| Paths.Count | MCTS.java:298 | zero exactly when the value does not occur |
| Budget.Frame | MCTS.java:64 | one level's frame is `max(2048, left/7)`: 2048 when `left <= 7*2048`, otherwise the truncated seventh of `left` |
| Mcts.Search.ResourceFrames | MCTS.java:59-66 | the array holds the 30 frames of the schedule `Frames(simlim)` |
| Budget.Frames | MCTS.java:59-66 | 30 frames, each at least 2048 |
| Budget.FramesNonIncreasing | MCTS.java:62-66 | the frames never grow from one level to the next |
| Budget.LeftDrops | MCTS.java:65 | the resources left before the frames shrink by at least 2048 per level |
| Budget.FramesSpend | MCTS.java:62-66 | the first k frames together spend exactly `simlim` minus what is left after them |
| Budget.FramesAt | MCTS.java:62-66 | an array filled frame by frame from the running `left` is the schedule |
| Mcts.Search.McTsReset | MCTS.java:97-102 | `best[0]` becomes `-225*225-1` with the rest of `best` kept, the table is emptied, the finalized depth is 0, `early_terminal` is false |
| Budget.Start | MCTS.java:56-67 | a run starts with `best[0] = -225*225-1` and the first frame, at least 2048 |
| Budget.Next | MCTS.java:73-90 | one pass: `best[0]` becomes the larger of it and `h[0]`, `best` is kept or is a copy of `h` of the returned length; the resources are those left; the finalized depth moves by at most one and the frame is always reloaded from a valid level (or the remaining resources from level 30 on), positive while resources remain |
| Mcts.Search.Pass | MCTS.java:75-90 | the loop body agrees with `Next` |
| Mcts.Search.Solve | MCTS.java:52-94 | after the reset, the main loop over the given iterations leaves the resources, finalized depth and best solution of `Play`, runs `Used` iterations, and sets `start_lim` to `simlim` |
| Budget.PlayBest | MCTS.java:81 | during a run `best[0]` never decreases, bounds every iteration's `h[0]`, and the final best is the starting one or the copy of one of the iterations' solutions that scored it |
| Budget.PlayStops | MCTS.java:73 | the run ends only once resources are used up or no iteration is left |
| Budget.PlayFrame | MCTS.java:83-90 | a positive frame stays positive while resources remain |
| Budget.PlayDepth | MCTS.java:86-89 | after k iterations the finalized depth is within k of where it started |
| Budget.CopyOf | MCTS.java:81 | `copyOf`: the given length, the prefix of the source, zero-padded |
| Budget.Quot | MCTS.java:37 | Java's division truncating toward zero: magnitude `|a|/|b|`, sign the product of the signs |
| Budget.QuotBounds | MCTS.java:37 | the quotient's magnitude times `|b|` lies within `|b|` below `|a|` |
| Mcts.Search.MetaSolve | MCTS.java:35-49 | with `simlim = tot/laps` truncated, it returns null for a negative number of laps; otherwise the copy of the best solution of the first lap whose score `[0]` is the largest over all laps |
| Mcts.Search.Runs | MCTS.java:39-46 | the laps' loop: null for no lap, otherwise the first lap best of largest score |
| Mcts.Search.Lap | MCTS.java:42-43 | one lap: the run's best is the lap's, and the answer is replaced only by a strictly better score |
| Budget.LapBests | MCTS.java:40-44 | each lap's best has a score entry |
| Budget.LapStep | MCTS.java:42 | a lap runs from the previous lap's best buffer |

## Left out

- The floating-point part of the search is not modelled. This covers UCB
  selection (`Math.log`, `Math.sqrt`, the exploration constant `c` and its
  updates in `iterate` and `leafhit`) and the running averages `avg` in
  `update`, `add` and `subtract`. The model keeps every integer field.
- `iterate` beyond its finalized branch is not modelled: the terminal case,
  the UCB branch, expansion and back-propagation. Its effect on `solve` is
  the sequence of `Budget.Round` values given to `Mcts.Search.Solve`.
- `iterate`'s terminal case, expansion and back-propagation are where
  `solved`, `bonus` and `early_terminal` are set and `update` and `leafhit`
  are called; those operations are modelled on their own.
- The root `new Node(board)` that `solve` creates (MCTS.java:70) is
  `Mcts.Search.NewRoot`. `Solve` does not call it, since the iterations
  that would use it are abstract.
- `Mcts.Search.Solve` ensures that the table ends empty. That holds only
  because the iterations are abstract: a `Budget.Round` carries no effect
  on the table or the arena. In the source the map ends holding every
  board `getChild` entered during the run (MCTS.java:395).
- The playouts are not modelled: `playout`, and `tabuPlayout` after the
  tally. Their move loops depend on `Board` and on randomness.
- `cancel` is not modelled because its only caller is commented out.
- `Board` (`getMoves`, `doMove`, `hash`, `isEmpty`, `upperscore`,
  `endscore`) is not part of this model. A node's board is represented by
  its moves and its number of blocks.
- `Mcts.Search.GetChild` takes the gain, hash and moves of the new board as
  parameters. It requires that a table hit has the block count of the new
  board, which a collision-free hash gives.
- Randomness (`rnd`) becomes parameters: the coins of
  `Mcts.Search.Finalize`, the draws of `Mcts.Search.TabuTally`, and the
  reseeding in `metaSolve`.
- `Mcts.Search.TabuTally`: the random tie break, `++h[0]*rnd.nextDouble()<1`,
  is a draw per colour. The contract states that a tie goes to a later
  colour only when its draw comes up. It does not state the distribution.
- The 32-bit wrap-around of Java `int`s is not modelled. Scores, visit
  counts and resources are unbounded integers.
- `Budget.Quot` does not model `Integer.MIN_VALUE / -1`, because of the
  wrap-around above.
- `Budget.Frame` uses integer division by 7 in place of the source's
  `(int)Math.max(2048, left/7.0)`. For `left > 7*2048` the truncated
  double is the integer quotient. Otherwise both give 2048.
- `Mcts.Search.MetaSolve` requires `laps != 0`, where the source throws an
  `ArithmeticException` on `tot/0`.
- `Mcts.Search.Solve` requires that every iteration is
  `Budget.Admissible`:
  - the finalized frontier retreats only from a level above 0;
  - an iteration with a higher score returns a solution length of at
    least 1.

  `iterate` guarantees both, but it is not modelled. The second rules out
  `copyOf(h, -1)`.
- `Mcts.Search.SolvedPlayout` requires `Paths.Complete` of its root: every
  node on the optimal path has all its children expanded. That is what
  "solved" means in the source.
- `Mcts.Search.SolvedPlayout` and `Mcts.Search.Descend` require
  `depth + |PathMoves(nodes, root)| <= h.Length`: the buffer has room for
  every move of the optimal path. The source does not check this. It
  allocates `h` with `xs*ys/2` entries (MCTS.java:13) and writes the moves
  to `h[depth]`, `h[depth+1]`, … (MCTS.java:360). A path of `xs*ys/2` moves
  that each remove two blocks, written from depth 1, would write
  `h[xs*ys/2]`, one past the end, where Java throws an index exception. The
  model does not cover that case.
- `SameGame.Game.DfsKill` requires `prv != bg`. For `prv == bg` the source
  recurses without end, because a cell it clears still has colour `prv`;
  `makeMove` calls it only with the colour of a block (Game.java:135).
- `Mcts.Search.GetChild`, `Mcts.Search.Share`, `Mcts.Search.Settle` and
  `Mcts.Search.Reconquer` (through `Paths.Activation`) state the new arena node by node (`nodes[m]` equals
  the m-th node of the specification function, for every index m), with the
  length stated beside it. That is the same sequence, written so that the
  verifier unfolds the function only at the nodes a proof looks at.
- `Mcts.Search.DeactivateChild` clears `own[i]` before the recursive call
  into the parent, not after it. The recursion writes only strict
  ancestors and never reads n's `own` or `cnt` (the parent's `subtract`
  does read n's `t`, which the clearing leaves alone), so every field the
  source changes ends the same.
- The helper methods are parts of the Java methods, split out so that each
  proof stays small:
  - `Revoke`, `Withdraw`, `Adopt`, `Share`, `HoldSlot`, `Settle`,
    `Release`, `Walk`, `Descend`, `Stride`, `PickBest`, `ScanSlot`,
    `NullSlot`, `LiveSlot`, `Reconquer`, `CountColours`, `PickTabu`,
    `Pass`, `Runs` and `Lap` of `Search`;
  - `Fall`, `Resolve`, `ClearMarks`, `Sweep`, `SweepColumn`, `ScoreCell`,
    `ScoreBlock` and `Count` of `Game`.
- The node field `c`, `avg`, `upperscore` and the board array of a node are
  not modelled. They are floating point, or they depend on `Board`.
- `SameGame.Game.constructor` takes the colour numbers as a sequence
  instead of reading `test.smg`. Colours are the numbers `1..colors`, with
  `bg` as 0, in place of `java.awt.Color` values.
- The Swing code of `Game` is not modelled: painting, double buffering,
  `simulate`'s sleeping loop, and the mouse handlers. Only their effect on
  the marks enters, through the Findings below. `GameFrame.java` is not
  part of this model.
- `redRow` shares one `zero` column array between all emptied columns.
  Columns here are values, so that aliasing is not modelled.
- `System.err` logging is not modelled.

## Findings

| source | as written | input that shows it | evidently intended | confidence | as-written member | corrected member |
|---|---|---|---|---|---|---|
| Game.java:207-216 | hovering over a group (`mouseMoved`) leaves its cells marked; a click then runs `makeMove`, whose `gameOver` flood-fills against those stale marks, so blocks that fell into marked cells are not seen and the game can be declared over (adding `endScore`) while a move remains | one column `[2,2,1,1]` (top to bottom), hover and click on the bottom cell: the pair of 1s is removed, the 2s fall into the two marked cells, and `gameOver` finds no unmarked group of two although the 2s form one | `gameOver` after a move should start from cleared marks and report the end only when no move remains | not executed | SameGame.Game.MakeMove, Rules.StaleHover | SameGame.Game.PlayMove |
