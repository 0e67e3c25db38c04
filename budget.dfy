/**
 * The resource schedule of a search run: the frames of resource units
 * given to the first levels of the solution, one pass of the run's main
 * loop over the outcome of an MCTS iteration, the run as a fold over the
 * iterations, and the best solutions of repeated runs.
 */
module Budget {
  /** best[0] before anything was found: -225*225-1. */
  const NoScore := -225 * 225 - 1

  /** The number of solution levels with a frame of their own. */
  const Levels := 30

  /** The smallest frame, 64*32 units. */
  const MinFrame := 64 * 32

  function Max(a: int, b: int): int { if a < b then b else a }

  function Abs(a: int): nat { if a < 0 then -a else a }

  /** Euclidean division of a non-negative number by a positive one rounds
      down: the quotient is non-negative and the remainder below d. */
  lemma DivNat(n: int, d: int)
    requires 0 <= n && 0 < d
    ensures 0 <= n / d && (n / d) * d <= n < (n / d) * d + d
  {
    var q, r := n / d, n % d;
    assert n == d * q + r && 0 <= r < d;
  }

  /** Integer division truncating toward zero, as the run count divides
      the total resources: the quotient of the magnitudes, negative when
      the signs differ. */
  function Quot(a: int, b: int): (q: int)
    requires b != 0
    ensures Abs(q) == Abs(a) / Abs(b)
    ensures q != 0 ==> ((q > 0) <==> ((a > 0) == (b > 0)))
  {
    var m := Abs(a) / Abs(b);
    DivNat(Abs(a), Abs(b));
    if (a < 0) == (b < 0) then m else -m
  }

  /** Truncation toward zero: |q| copies of |b| fit in |a|, one more does
      not. */
  lemma QuotBounds(a: int, b: int)
    requires b != 0
    ensures Abs(Quot(a, b)) * Abs(b) <= Abs(a) < Abs(Quot(a, b)) * Abs(b) + Abs(b)
  {
    DivNat(Abs(a), Abs(b));
  }

  /** The frame of a level when left units remain: the larger of 2048 and
      left/7, truncated; so a seventh of what is left, never below the
      minimum. */
  function Frame(left: int): (f: int)
    ensures f >= MinFrame
    ensures left <= 7 * MinFrame ==> f == MinFrame
    ensures left > 7 * MinFrame ==> 7 * f <= left < 7 * f + 7
  {
    if left / 7 > MinFrame then left / 7 else MinFrame
  }

  /** The units left before the frame of level i is taken. */
  function Left(simlim: int, i: nat): int {
    if i == 0 then simlim else Left(simlim, i - 1) - Frame(Left(simlim, i - 1))
  }

  /** The frames of the first Levels levels for a run of simlim units. */
  function Frames(simlim: int): (f: seq<int>)
    ensures |f| == Levels
    ensures forall i :: 0 <= i < Levels ==> f[i] >= MinFrame
  {
    seq(Levels, i requires 0 <= i < Levels => Frame(Left(simlim, i)))
  }

  /** Each level takes at least the minimum frame from what is left. */
  lemma {:induction false} LeftDrops(simlim: int, i: nat, j: nat)
    requires i <= j
    ensures Left(simlim, j) <= Left(simlim, i)
    ensures Left(simlim, j) <= Left(simlim, i) - MinFrame * (j - i)
    decreases j - i
  {
    if i < j {
      LeftDrops(simlim, i, j - 1);
    }
  }

  /** Less left never gives a larger frame. */
  lemma FrameMonotone(a: int, b: int)
    requires a <= b
    ensures Frame(a) <= Frame(b)
  {
    if a > 7 * MinFrame {
      assert 7 * Frame(a) <= a <= b < 7 * Frame(b) + 7;
    }
  }

  /** Deeper levels never get larger frames. */
  lemma FramesNonIncreasing(simlim: int, i: int, j: int)
    requires 0 <= i <= j < Levels
    ensures Frames(simlim)[j] <= Frames(simlim)[i]
  {
    var F := Frames(simlim);
    LeftDrops(simlim, i, j);
    assert F[j] == Frame(Left(simlim, j)) && F[i] == Frame(Left(simlim, i));
    FrameMonotone(Left(simlim, j), Left(simlim, i));
  }

  /** A sequence holding the frame of what is left at each level is the
      sequence of frames. */
  lemma FramesAt(simlim: int, s: seq<int>)
    requires |s| == Levels && forall k {:trigger s[k]} :: 0 <= k < Levels ==> s[k] == Frame(Left(simlim, k))
    ensures s == Frames(simlim)
  {
    var F := Frames(simlim);
    assert |s| == |F|;
    forall k | 0 <= k < Levels
      ensures s[k] == F[k]
    {
    }
  }

  function Sum(s: seq<int>): int {
    if |s| == 0 then 0 else Sum(s[..|s| - 1]) + s[|s| - 1]
  }

  /** The first k frames together take exactly what they leave missing. */
  lemma {:induction false} FramesSpend(simlim: int, k: int)
    requires 0 <= k <= Levels
    ensures Sum(Frames(simlim)[..k]) == simlim - Left(simlim, k)
  {
    var F := Frames(simlim);
    assert forall i {:trigger F[i]} :: 0 <= i < |F| ==> F[i] == Frame(Left(simlim, i));
    SpendsPrefix(simlim, F, k);
  }

  /** The same for any sequence that holds the frames. */
  lemma {:induction false} SpendsPrefix(simlim: int, F: seq<int>, k: int)
    requires 0 <= k <= |F|
    requires forall i {:trigger F[i]} :: 0 <= i < |F| ==> F[i] == Frame(Left(simlim, i))
    ensures Sum(F[..k]) == simlim - Left(simlim, k)
  {
    if k > 0 {
      SpendsPrefix(simlim, F, k - 1);
      assert F[..k][..k - 1] == F[..k - 1];
      assert Sum(F[..k]) == Sum(F[..k - 1]) + F[k - 1];
    }
  }

  /** The first n entries of s, padded with zeros beyond its end. */
  function CopyOf(s: seq<int>, n: nat): (c: seq<int>)
    ensures |c| == n
    ensures forall i :: 0 <= i < n ==> c[i] == if i < |s| then s[i] else 0
  {
    if n <= |s| then s[..n] else s + seq(n - |s|, _ => 0)
  }

  /** The outcome of one MCTS iteration, as the run's main loop sees it:
      the resources left after it, whether a finalized level found no
      choice (the frontier went back one level), the solution buffer it
      left (h[0] the score) and the length it returned. */
  datatype Round = Round(left: int, retreat: bool, h: seq<int>, len: int)

  /** The state of the run's main loop: resources left, resources left in
      the current level's frame, the finalized depth, the best solution. */
  datatype Run = Run(inspect: int, frame: int, depth: int, best: seq<int>)

  /** The state of a run of simlim units after the reset, with the given
      previous best buffer. */
  function Start(simlim: int, best: seq<int>): (s: Run)
    requires |best| > 0
    ensures |s.best| == |best| && s.best[0] == NoScore && s.frame >= MinFrame
  {
    Run(simlim, Frames(simlim)[0], 0, best[0 := NoScore])
  }

  /** What the main loop relies on: a frontier goes back only from a
      finalized level, and an iteration that beats the best returned a
      solution length. */
  predicate Admissible(s: Run, r: Round) {
    && 0 <= s.depth && |s.best| > 0 && |r.h| > 0
    && (r.retreat ==> s.depth > 0)
    && (r.h[0] > s.best[0] ==> r.len >= 1)
  }

  /** One pass of the main loop after iteration r: a better solution is
      copied, the used resources are taken from the frame, and an
      exhausted frame moves the frontier one level down, with that
      level's frame (or all that is left beyond the framed levels). */
  function Next(rf: seq<int>, s: Run, r: Round): (t: Run)
    requires |rf| == Levels && Admissible(s, r)
    ensures t.inspect == r.left && 0 <= t.depth && |t.best| > 0
    ensures t.best[0] == Max(s.best[0], r.h[0])
    ensures t.best == s.best || (r.len >= 1 && t.best == CopyOf(r.h, r.len))
    ensures s.depth - 1 <= t.depth <= s.depth + 1
    ensures (forall i :: 0 <= i < Levels ==> rf[i] > 0) ==> t.frame > 0 || t.inspect <= 0
  {
    var depth := s.depth - (if r.retreat then 1 else 0);
    var best := if r.h[0] > s.best[0] then CopyOf(r.h, r.len) else s.best;
    var frame := s.frame - (s.inspect - r.left);
    if frame <= 0 then
      var d := depth + 1;
      Run(r.left, if d >= Levels then r.left else rf[d], d, best)
    else
      Run(r.left, frame, depth, best)
  }

  /** Every pass the main loop makes over rounds from s is Admissible. */
  predicate Feasible(rf: seq<int>, s: Run, rounds: seq<Round>)
    decreases |rounds|
  {
    && |rf| == Levels
    && (|rounds| == 0 || s.inspect <= 0 ||
        (Admissible(s, rounds[0]) && Feasible(rf, Next(rf, s, rounds[0]), rounds[1..])))
  }

  /** The state the main loop ends in: it stops once the resources are
      used up (or no iteration is left to run). */
  function Play(rf: seq<int>, s: Run, rounds: seq<Round>): Run
    requires Feasible(rf, s, rounds)
    decreases |rounds|
  {
    if |rounds| == 0 || s.inspect <= 0 then s else Play(rf, Next(rf, s, rounds[0]), rounds[1..])
  }

  /** The number of iterations the main loop runs. */
  function Used(rf: seq<int>, s: Run, rounds: seq<Round>): (k: nat)
    requires Feasible(rf, s, rounds)
    ensures k <= |rounds|
    decreases |rounds|
  {
    if |rounds| == 0 || s.inspect <= 0 then 0 else 1 + Used(rf, Next(rf, s, rounds[0]), rounds[1..])
  }

  /** The loop ends with the resources used up, or after the last
      iteration given. */
  lemma {:induction false} PlayStops(rf: seq<int>, s: Run, rounds: seq<Round>)
    requires Feasible(rf, s, rounds)
    ensures Used(rf, s, rounds) == |rounds| || Play(rf, s, rounds).inspect <= 0
    decreases |rounds|
  {
    if |rounds| > 0 && s.inspect > 0 {
      PlayStops(rf, Next(rf, s, rounds[0]), rounds[1..]);
    }
  }

  /** The best solution of a run scores no less than the one it started
      with and than every iteration it ran, and is either the starting one
      or the copy of one of those iterations' solutions. */
  lemma {:induction false} PlayBest(rf: seq<int>, s: Run, rounds: seq<Round>)
    requires Feasible(rf, s, rounds) && |s.best| > 0
    requires forall i :: 0 <= i < |rounds| ==> |rounds[i].h| > 0
    ensures var t := Play(rf, s, rounds); var k := Used(rf, s, rounds);
      && |t.best| > 0 && t.best[0] >= s.best[0]
      && (forall i :: 0 <= i < k ==> rounds[i].h[0] <= t.best[0])
      && (t.best == s.best || exists i :: 0 <= i < k && rounds[i].len >= 1 && t.best == CopyOf(rounds[i].h, rounds[i].len) && t.best[0] == rounds[i].h[0])
    decreases |rounds|
  {
    if |rounds| > 0 && s.inspect > 0 {
      var s' := Next(rf, s, rounds[0]);
      var rest := rounds[1..];
      PlayBest(rf, s', rest);
      var t := Play(rf, s, rounds);
      assert t == Play(rf, s', rest);
      assert forall i :: 1 <= i < |rounds| ==> rounds[i] == rest[i - 1];
      if t.best != s'.best {
        var i :| 0 <= i < Used(rf, s', rest) && rest[i].len >= 1 && t.best == CopyOf(rest[i].h, rest[i].len) && t.best[0] == rest[i].h[0];
        assert rounds[i + 1] == rest[i];
      } else if s'.best != s.best {
        assert rounds[0].len >= 1 && s'.best == CopyOf(rounds[0].h, rounds[0].len) && s'.best[0] == rounds[0].h[0];
      }
    }
  }

  /** While the loop runs, the current frame has resources in it. */
  lemma {:induction false} PlayFrame(rf: seq<int>, s: Run, rounds: seq<Round>)
    requires Feasible(rf, s, rounds) && (forall i :: 0 <= i < Levels ==> rf[i] > 0)
    requires s.frame > 0 || s.inspect <= 0
    ensures var t := Play(rf, s, rounds); t.frame > 0 || t.inspect <= 0
    decreases |rounds|
  {
    if |rounds| > 0 && s.inspect > 0 {
      PlayFrame(rf, Next(rf, s, rounds[0]), rounds[1..]);
    }
  }

  /** The finalized frontier moves by at most one level per iteration. */
  lemma {:induction false} PlayDepth(rf: seq<int>, s: Run, rounds: seq<Round>)
    requires Feasible(rf, s, rounds)
    ensures var t := Play(rf, s, rounds); var k := Used(rf, s, rounds);
      s.depth - k <= t.depth <= s.depth + k
    decreases |rounds|
  {
    if |rounds| > 0 && s.inspect > 0 {
      PlayDepth(rf, Next(rf, s, rounds[0]), rounds[1..]);
    }
  }

  /** Every run of a sequence of runs of simlim units is Feasible, each
      starting from the best buffer the previous one left. */
  predicate LapsFeasible(simlim: int, best: seq<int>, laps: seq<seq<Round>>)
    decreases |laps|
  {
    && |best| > 0
    && (|laps| > 0 ==>
          && Feasible(Frames(simlim), Start(simlim, best), laps[0])
          && LapsFeasible(simlim, Play(Frames(simlim), Start(simlim, best), laps[0]).best, laps[1..]))
  }

  /** The best buffer after each run of the sequence. */
  function LapBests(simlim: int, best: seq<int>, laps: seq<seq<Round>>): (B: seq<seq<int>>)
    requires LapsFeasible(simlim, best, laps)
    ensures |B| == |laps| && forall k :: 0 <= k < |B| ==> |B[k]| > 0
    decreases |laps|
  {
    if |laps| == 0 then []
    else
      var b := Play(Frames(simlim), Start(simlim, best), laps[0]).best;
      [b] + LapBests(simlim, b, laps[1..])
  }

  /** Runs i.. of the sequence L are feasible from best, and their bests
      are B[i..]. */
  ghost predicate LapsFrom(simlim: int, best: seq<int>, L: seq<seq<Round>>, i: int, B: seq<seq<int>>) {
    && 0 <= i <= |L| && |B| == |L|
    && LapsFeasible(simlim, best, L[i..])
    && LapBests(simlim, best, L[i..]) == B[i..]
  }

  /** Before the first run, all of them lie ahead. */
  lemma LapsStart(simlim: int, best: seq<int>, L: seq<seq<Round>>)
    requires LapsFeasible(simlim, best, L)
    ensures LapsFrom(simlim, best, L, 0, LapBests(simlim, best, L))
  {
    assert L[0..] == L;
  }

  /** Run i of a sequence of runs is Feasible from the best buffer the runs
      before it left; its best is B[i], and the runs after it go on from
      there. */
  lemma LapStep(simlim: int, best: seq<int>, L: seq<seq<Round>>, i: int, B: seq<seq<int>>)
    requires LapsFrom(simlim, best, L, i, B) && i < |L|
    ensures Feasible(Frames(simlim), Start(simlim, best), L[i])
    ensures var b := Play(Frames(simlim), Start(simlim, best), L[i]).best;
      b == B[i] && LapsFrom(simlim, b, L, i + 1, B)
  {
    assert L[i..][0] == L[i] && L[i..][1..] == L[i + 1..];
    assert B[i..][0] == B[i] && B[i..][1..] == B[i + 1..];
  }

  /** The scores of a sequence of solutions. */
  function Heads(B: seq<seq<int>>): (v: seq<int>)
    requires forall k :: 0 <= k < |B| ==> |B[k]| > 0
    ensures |v| == |B| && forall k :: 0 <= k < |B| ==> v[k] == B[k][0]
  {
    seq(|B|, k requires 0 <= k < |B| => B[k][0])
  }
}
