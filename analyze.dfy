/** DiffAnalyze: the longest-common-subsequence search between two token
    sequences. FindSnake runs the greedy forward and reverse searches over
    two shared symmetric vectors and returns a middle snake; LCS recurses on
    the rectangles left and right of it and keeps the parts of each snake
    whose tokens are really Equal; BracketSnake and ApplyForwardBias put the
    resulting snake list in its canonical form.

    A side is what DiffAnalyze sees of an ISequence: its token hashes
    (`Lines()` is their number, `ProbablyEqual` compares them) and the
    exact comparison of its sequencer (`Equal` is the hash test and then
    that comparison). */
module Analyze {
  import opened Frontier

  /** A run of matching tokens: tokens x .. u-1 of the first sequence match
      tokens y .. v-1 of the second, so u - x == v - y. */
  datatype Snake = Snake(x: int, y: int, u: int, v: int)

  /** An int[] indexed by diagonal, -halfSize .. halfSize. */
  class SymmetricVector {
    var halfSize: int
    var vec: array<int>

    /** A vector with no storage yet (the null array of the source). */
    constructor ()
      ensures halfSize == 0 && vec.Length == 0
    {
      halfSize := 0;
      vec := new int[0];
    }

    ghost predicate Valid()
      reads this
    {
      halfSize >= 0 && vec.Length == 2 * halfSize + 1
    }

    function Get(k: int): (r: int)
      reads this, vec
      requires Valid() && -halfSize <= k <= halfSize
    {
      vec[halfSize + k]
    }

    method Set(k: int, v: int)
      requires Valid() && -halfSize <= k <= halfSize
      modifies vec
      ensures vec[..] == old(vec[..])[halfSize + k := v]
    {
      vec[halfSize + k] := v;
    }

    /** Fresh zeroed storage for diagonals -newHalfSize .. newHalfSize. */
    method Resize(newHalfSize: int)
      requires newHalfSize >= 0
      modifies this
      ensures halfSize == newHalfSize && Valid() && fresh(vec)
      ensures forall i :: 0 <= i < vec.Length ==> vec[i] == 0
    {
      halfSize := newHalfSize;
      vec := new int[newHalfSize * 2 + 1](_ => 0);
    }
  }

  const STHRESH := 50000
  const SLIMIT1 := 10000000
  const SLIMIT2 := 100000000

  /** The search depth Init chooses for sequences of aLines and bLines
      tokens. */
  function InitialMaxD(aLines: nat, bLines: nat, fastMaxD: int): (maxD: int)
    ensures maxD >= 42
    ensures maxD == 42 || maxD <= (aLines + bLines) / 2
    ensures var avg := (aLines + bLines) / 2;
      var sLimit := if fastMaxD == 0 && avg < STHRESH then SLIMIT2 else SLIMIT1;
      var cap := if sLimit / (if avg == 0 then 1 else avg) < avg then sLimit / (if avg == 0 then 1 else avg) else avg;
      maxD == if cap < 42 then 42 else cap
  {
    var avgLines := (aLines + bLines) / 2;
    var sLimit := if fastMaxD == 0 && avgLines < STHRESH then SLIMIT2 else SLIMIT1;
    var d0 := sLimit / (if avgLines != 0 then avgLines else 1);
    var d1 := if d0 > avgLines then avgLines else d0;
    if d1 < 42 then 42 else d1
  }

  /** Without the fast option, files of up to 10000 tokens on average get a
      depth of at least their average length, which is as deep as the
      two-sided search ever needs to go. */
  lemma {:induction false} SmallFilesSearchFully(aLines: nat, bLines: nat)
    requires (aLines + bLines) / 2 <= 10000
    ensures InitialMaxD(aLines, bLines, 0) >= (aLines + bLines) / 2
  {
    var avgLines := (aLines + bLines) / 2;
    if avgLines != 0 {
      QuotientAtLeast(avgLines);
    }
  }

  /** Dividing SLIMIT2 by at most 10000 leaves at least the divisor. */
  lemma QuotientAtLeast(d: int)
    requires 0 < d <= 10000
    ensures SLIMIT2 / d >= d
  {
    var q, r := SLIMIT2 / d, SLIMIT2 % d;
    assert SLIMIT2 == q * d + r && r < d;
    MulMono(d, 10000, d);
    assert (q - d + 1) * d == q * d - d * d + d;
    PositiveFactor(q - d + 1, d);
  }

  lemma MulMono(x: nat, y: nat, z: nat)
    requires x <= y
    ensures x * z <= y * z
  {
  }

  lemma PositiveFactor(p: int, b: int)
    requires b > 0 && p * b > 0
    ensures p > 0
  {
  }

  class DiffAnalyze {
    /** Token hashes of the two sides; Lines() is their length. */
    const a: seq<bv32>
    const b: seq<bv32>
    /** The sequencer's exact comparison of token lA of a with token lB of b. */
    const sequencerEqual: (int, int) -> bool

    var maxD: int
    const fV: SymmetricVector
    const rV: SymmetricVector
    /** The snake list firstSnake .. lastSnake, in list order. */
    var snakes: seq<Snake>

    /** The two sequences are compared when the analysis is built. */
    constructor (a: seq<bv32>, b: seq<bv32>, sequencerEqual: (int, int) -> bool, fastMaxD: int)
      ensures this.a == a && this.b == b && this.sequencerEqual == sequencerEqual
      ensures maxD == InitialMaxD(|a|, |b|, fastMaxD)
      ensures fV.halfSize == 0 && rV.halfSize == 0
      ensures SnakeList(snakes)
      ensures forall t :: 0 <= t < |snakes| - 1 ==> !Extendable(snakes[t])
    {
      this.a := a;
      this.b := b;
      this.sequencerEqual := sequencerEqual;
      fV := new SymmetricVector();
      rV := new SymmetricVector();
      new;
      Init(fastMaxD);
    }

    /** Init: choose the search depth, size the vectors, find the common
        subsequence when both sides have tokens, free the vectors, bracket
        the snake list and give it its forward bias. */
    method Init(fastMaxD: int)
      requires fV != rV
      modifies this`maxD, this`snakes, fV, rV
      ensures maxD == InitialMaxD(|a|, |b|, fastMaxD)
      ensures fV.halfSize == 0 && rV.halfSize == 0
      ensures SnakeList(snakes)
      ensures forall t :: 0 <= t < |snakes| - 1 ==> !Extendable(snakes[t])
    {
      maxD := InitialMaxD(|a|, |b|, fastMaxD);
      fV.Resize(maxD);
      rV.Resize(maxD);
      snakes := [];
      if |a| > 0 && |b| > 0 {
        LCS(0, 0, |a|, |b|);
        assert snakes == snakes[0..];
      }
      fV.Resize(0);
      rV.Resize(0);
      BracketSnake();
      ApplyForwardBias();
    }

    /** ProbablyEqual: the two tokens have the same hash. */
    predicate ProbablyEqual(lA: int, lB: int)
      requires 0 <= lA < |a| && 0 <= lB < |b|
    {
      a[lA] == b[lB]
    }

    /** Equal: the hashes agree and the sequencer confirms it. */
    predicate Equal(lA: int, lB: int)
      requires 0 <= lA < |a| && 0 <= lB < |b|
    {
      ProbablyEqual(lA, lB) && sequencerEqual(lA, lB)
    }

    /** On the diagonal through (x, y), column i is a probable match: the
        tokens exist and hash the same. */
    predicate HashMatch(x: int, y: int, i: int)
    {
      0 <= i < |a| && 0 <= i - x + y < |b| && ProbablyEqual(i, i - x + y)
    }

    /** On the diagonal through (x, y), column i is an exact match. */
    predicate Match(x: int, y: int, i: int)
    {
      0 <= i < |a| && 0 <= i - x + y < |b| && Equal(i, i - x + y)
    }

    /** HashMatch depends only on the diagonal, not on the point named. */
    lemma SameDiagonal(x: int, y: int, x': int, y': int, lo: int, hi: int)
      requires x - y == x' - y'
      requires forall i :: lo <= i < hi ==> HashMatch(x, y, i)
      ensures forall i :: lo <= i < hi ==> HashMatch(x', y', i)
    {
      forall i | lo <= i < hi
        ensures HashMatch(x', y', i)
      {
        assert HashMatch(x, y, i);
      }
    }

    /** The two vectors are allocated for depth maxD. */
    ghost predicate Searching()
      reads this`maxD, fV, rV
    {
      fV != rV && fV.vec != rV.vec && fV.Valid() && rV.Valid()
      && fV.halfSize == maxD && rV.halfSize == maxD && maxD >= 1
    }

    /** A snake of the rectangle startx..endx by starty..endy: on one
        diagonal, inside the rectangle, with every pair on it hashing the
        same. */
    ghost predicate InRect(s: Snake, startx: int, starty: int, endx: int, endy: int)
      requires 0 <= startx && 0 <= starty && endx <= |a| && endy <= |b|
    {
      && startx <= s.x <= s.u <= endx && starty <= s.y <= s.v <= endy
      && s.u - s.x == s.v - s.y
      && (forall i :: s.x <= i < s.u ==> HashMatch(s.x, s.y, i))
    }

    /** Snake s lies on one diagonal inside the rectangle startx..endx by
        starty..endy. */
    predicate Inside(s: Snake, startx: int, starty: int, endx: int, endy: int)
    {
      startx <= s.x <= s.u <= endx && starty <= s.y <= s.v <= endy && s.u - s.x == s.v - s.y
    }

    /** Every pair on snake s is Equal. */
    ghost predicate Matched(s: Snake)
    {
      forall i :: s.x <= i < s.u ==> Match(s.x, s.y, i)
    }

    /** Snake s ends, on both sides, where or before snake s' starts. */
    predicate Precedes(s: Snake, s': Snake)
    {
      s.u <= s'.x && s.v <= s'.y
    }

    /** A list of snakes, each non-empty, on one diagonal and made of Equal
        pairs, in ascending order without overlap, inside the rectangle. */
    ghost predicate Chain(ss: seq<Snake>, startx: int, starty: int, endx: int, endy: int)
    {
      && (forall t :: 0 <= t < |ss| ==> ss[t].x < ss[t].u && Inside(ss[t], startx, starty, endx, endy) && Matched(ss[t]))
      && (forall t :: 0 <= t < |ss| - 1 ==> Precedes(ss[t], ss[t + 1]))
    }

    /** Snakes within the whole comparison, each on its diagonal, in
        ascending order without overlap, every pair inside one Equal. */
    ghost predicate Sorted(ss: seq<Snake>)
    {
      && (forall t :: 0 <= t < |ss| ==> Inside(ss[t], 0, 0, |a|, |b|) && Matched(ss[t]))
      && (forall t :: 0 <= t < |ss| - 1 ==> Precedes(ss[t], ss[t + 1]))
    }

    /** The snake list of a finished analysis: sorted, starting at (0, 0)
        and ending at (|a|, |b|). */
    ghost predicate SnakeList(ss: seq<Snake>)
    {
      && |ss| >= 1 && Sorted(ss)
      && ss[0].x == 0 && ss[0].y == 0 && ss[|ss| - 1].u == |a| && ss[|ss| - 1].v == |b|
    }

    /** Every snake after index i, except the last, has at least one pair. */
    ghost predicate NonEmptyAfter(ss: seq<Snake>, i: int)
    {
      forall t :: 0 <= t && i < t < |ss| - 1 ==> ss[t].x < ss[t].u
    }

    /** A snake that could be extended by the Equal pair just past its end. */
    predicate Extendable(s: Snake)
    {
      0 <= s.u < |a| && 0 <= s.v < |b| && Equal(s.u, s.v)
    }

    /** The number of matched pairs a snake list holds. */
    ghost function Size(ss: seq<Snake>): int
    {
      if ss == [] then 0 else (ss[0].u - ss[0].x) + Size(ss[1..])
    }

    /** FollowDiagonal: advance along the diagonal while the pair at the
        cursor is ProbablyEqual and both ends are not reached. */
    method FollowDiagonal(x: int, y: int, endx: int, endy: int) returns (x': int, y': int)
      requires 0 <= x && 0 <= y && endx <= |a| && endy <= |b|
      ensures x' - y' == x - y && x <= x'
      ensures x < endx && y < endy ==> x' <= endx && y' <= endy
      ensures !(x < endx && y < endy) ==> x' == x
      ensures forall i :: x <= i < x' ==> HashMatch(x, y, i)
      ensures x' < endx && y' < endy ==> !ProbablyEqual(x', y')
    {
      x', y' := x, y;
      while x' < endx && y' < endy && ProbablyEqual(x', y')
        invariant x' - y' == x - y && x <= x'
        invariant x < x' ==> x' <= endx && y' <= endy
        invariant forall i :: x <= i < x' ==> HashMatch(x, y, i)
        decreases endx - x'
      {
        x', y' := x' + 1, y' + 1;
      }
    }

    /** FollowReverseDiagonal: step back along the diagonal while the pair
        before the cursor is ProbablyEqual and both starts are not reached. */
    method FollowReverseDiagonal(x: int, y: int, startx: int, starty: int) returns (x': int, y': int)
      requires 0 <= startx && 0 <= starty && x <= |a| && y <= |b|
      ensures x' - y' == x - y && x' <= x
      ensures x > startx && y > starty ==> x' >= startx && y' >= starty
      ensures !(x > startx && y > starty) ==> x' == x
      ensures forall i :: x' <= i < x ==> HashMatch(x, y, i)
      ensures x' > startx && y' > starty ==> !ProbablyEqual(x' - 1, y' - 1)
    {
      x', y' := x, y;
      while x' > startx && y' > starty && ProbablyEqual(x' - 1, y' - 1)
        invariant x' - y' == x - y && x' <= x
        invariant x' < x ==> x' >= startx && y' >= starty
        invariant forall i :: x' <= i < x ==> HashMatch(x, y, i)
        decreases x'
      {
        x', y' := x' - 1, y' - 1;
      }
    }

    /** LCS: the snakes of a longest common subsequence of the rectangle
        startx..endx by starty..endy, appended to the snake list in order:
        those left of the middle snake, the Equal runs of the middle snake,
        then those right of it. Each recursive call works on a strictly
        smaller rectangle. */
    method LCS(startx: int, starty: int, endx: int, endy: int)
      requires Searching()
      requires 0 <= startx < endx <= |a| && 0 <= starty < endy <= |b|
      modifies this`snakes, fV.vec, rV.vec
      ensures Searching()
      ensures |snakes| >= |old(snakes)| && snakes[..|old(snakes)|] == old(snakes)
      ensures Chain(snakes[|old(snakes)|..], startx, starty, endx, endy)
      decreases endx - startx + endy - starty
    {
      ghost var s0 := snakes;
      var s := FindSnake(startx, starty, endx, endy);
      if s.x > startx && s.y > starty {
        LCS(startx, starty, s.x, s.y);
      }
      ghost var left := snakes[|s0|..];
      assert snakes == s0 + left;
      ghost var middle: seq<Snake> := [];
      if s.u > s.x { // snake has nonzero length
        var runs := SplitSnake(s);
        RunsChain(s, runs);
        snakes := snakes + runs;
        middle := runs;
      }
      ghost var s2 := snakes;
      if endx > s.u && endy > s.v {
        LCS(s.u, s.v, endx, endy);
      }
      ghost var right := snakes[|s2|..];
      ChainJoin(left, middle, startx, starty, s.x, s.y, s.u, s.v);
      ChainJoin(left + middle, right, startx, starty, s.u, s.v, endx, endy);
      Appended(s0, left, middle, right, snakes);
    }

    /** The list after LCS is the list before it followed by what the
        three parts appended. */
    lemma Appended(s0: seq<Snake>, left: seq<Snake>, middle: seq<Snake>, right: seq<Snake>, all: seq<Snake>)
      requires |all| >= |s0 + left + middle| && all[..|s0 + left + middle|] == s0 + left + middle
      requires right == all[|s0 + left + middle|..]
      ensures |all| >= |s0| && all[..|s0|] == s0 && all[|s0|..] == left + middle + right
    {
      assert all == s0 + left + middle + right;
      assert s0 + left + middle + right == s0 + (left + middle + right);
    }

    /** The loop of LCS that verifies a snake pair by pair: the runs of
        Equal pairs on the snake, each kept as a snake of its own, the pairs
        that only hash the same left out. */
    method SplitSnake(s: Snake) returns (runs: seq<Snake>)
      requires 0 <= s.x <= s.u <= |a| && 0 <= s.y && s.v <= |b| && s.u - s.x == s.v - s.y
      ensures forall t :: 0 <= t < |runs| ==>
                && s.x <= runs[t].x < runs[t].u <= s.u
                && runs[t].x - runs[t].y == s.x - s.y && runs[t].u - runs[t].x == runs[t].v - runs[t].y
      ensures forall t :: 0 <= t < |runs| - 1 ==> runs[t].u < runs[t + 1].x
      ensures forall i :: s.x <= i < s.u ==> (Covered(runs, i) <==> Match(s.x, s.y, i))
    {
      runs := [];
      var cx, cy := s.x, s.y;
      while cx < s.u
        invariant s.x <= cx <= s.u + 1 && cx - cy == s.x - s.y
        invariant forall t :: 0 <= t < |runs| ==>
                    && s.x <= runs[t].x < runs[t].u < cx && runs[t].u <= s.u
                    && runs[t].x - runs[t].y == s.x - s.y && runs[t].u - runs[t].x == runs[t].v - runs[t].y
        invariant forall t :: 0 <= t < |runs| - 1 ==> runs[t].u < runs[t + 1].x
        invariant forall i :: s.x <= i < cx && i < s.u ==> (Covered(runs, i) <==> Match(s.x, s.y, i))
        decreases s.u - cx
      {
        var x0, y0 := cx, cy;
        while cx < s.u && Equal(cx, cy)
          invariant x0 <= cx <= s.u && cx - cy == s.x - s.y
          invariant forall i :: x0 <= i < cx ==> Match(s.x, s.y, i)
          decreases s.u - cx
        {
          cx, cy := cx + 1, cy + 1;
        }
        ghost var old_runs := runs;
        var r := Snake(x0, y0, cx, cy);
        if cx > x0 { // nonzero length snake to add
          runs := runs + [r];
        }
        forall i | s.x <= i < cx + 1 && i < s.u
          ensures Covered(runs, i) <==> Match(s.x, s.y, i)
        {
          CoveredAppend(old_runs, runs, r, i);
        }
        cx, cy := cx + 1, cy + 1;
      }
    }

    /** Pair i of the snake list lies inside one of its snakes. */
    ghost predicate Covered(ss: seq<Snake>, i: int)
    {
      exists t :: 0 <= t < |ss| && ss[t].x <= i < ss[t].u
    }

    /** The runs found so far cover what they covered and, when a run x0..cx
        was added, the pairs of that run. */
    lemma CoveredAppend(before: seq<Snake>, after: seq<Snake>, r: Snake, i: int)
      requires after == before || after == before + [r]
      ensures Covered(after, i) <==> Covered(before, i) || (after != before && r.x <= i < r.u)
    {
      if after != before {
        if Covered(before, i) {
          var t :| 0 <= t < |before| && before[t].x <= i < before[t].u;
          assert after[t] == before[t];
        }
        if r.x <= i < r.u {
          assert after[|before|] == r;
        }
        if Covered(after, i) {
          var t :| 0 <= t < |after| && after[t].x <= i < after[t].u;
          if t < |before| {
            assert before[t] == after[t];
          }
        }
      }
    }

    /** The runs SplitSnake returns form a chain inside the snake. */
    lemma RunsChain(s: Snake, runs: seq<Snake>)
      requires 0 <= s.x <= s.u <= |a| && 0 <= s.y && s.v <= |b| && s.u - s.x == s.v - s.y
      requires forall t :: 0 <= t < |runs| ==>
                 && s.x <= runs[t].x < runs[t].u <= s.u
                 && runs[t].x - runs[t].y == s.x - s.y && runs[t].u - runs[t].x == runs[t].v - runs[t].y
      requires forall t :: 0 <= t < |runs| - 1 ==> runs[t].u < runs[t + 1].x
      requires forall i :: s.x <= i < s.u ==> (Covered(runs, i) <==> Match(s.x, s.y, i))
      ensures Chain(runs, s.x, s.y, s.u, s.v)
    {
      forall t | 0 <= t < |runs|
        ensures Matched(runs[t])
      {
        forall i | runs[t].x <= i < runs[t].u
          ensures Match(runs[t].x, runs[t].y, i)
        {
          assert Covered(runs, i);
          assert Match(s.x, s.y, i);
        }
      }
    }

    /** Two chains in consecutive rectangles make one chain of the rectangle
        spanning both. */
    lemma ChainJoin(ss1: seq<Snake>, ss2: seq<Snake>, sx: int, sy: int, mx: int, my: int, ex: int, ey: int)
      requires 0 <= sx <= mx <= ex <= |a| && 0 <= sy <= my <= ey <= |b|
      requires Chain(ss1, sx, sy, mx, my) && Chain(ss2, mx, my, ex, ey)
      ensures Chain(ss1 + ss2, sx, sy, ex, ey)
    {
      var ss := ss1 + ss2;
      forall t | 0 <= t < |ss| - 1
        ensures Precedes(ss[t], ss[t + 1])
      {
        if t + 1 < |ss1| {
          assert ss[t] == ss1[t] && ss[t + 1] == ss1[t + 1];
        } else if t + 1 == |ss1| {
          assert ss[t] == ss1[t] && ss[t + 1] == ss2[0];
        } else {
          assert ss[t] == ss2[t - |ss1|] && ss[t + 1] == ss2[t + 1 - |ss1|];
        }
      }
      forall t | 0 <= t < |ss|
        ensures ss[t].x < ss[t].u && Inside(ss[t], sx, sy, ex, ey) && Matched(ss[t])
      {
        if t < |ss1| {
          assert ss[t] == ss1[t];
        } else {
          assert ss[t] == ss2[t - |ss1|];
        }
      }
    }

    /** BracketSnake: put a zero-length snake at (0, 0) in front of the list
        unless its first snake starts there, and one at (|a|, |b|) after it
        unless its last snake ends there. */
    method BracketSnake()
      requires Chain(snakes, 0, 0, |a|, |b|)
      modifies this`snakes
      ensures SnakeList(snakes) && NonEmptyAfter(snakes, 0)
      ensures forall t :: 0 <= t < |snakes| ==> snakes[t] in old(snakes) || snakes[t].x == snakes[t].u
      ensures |old(snakes)| <= |snakes| <= |old(snakes)| + 2
    {
      ChainSorted(snakes);
      if snakes == [] || snakes[0].x != 0 || snakes[0].y != 0 {
        SortedPrepend(Snake(0, 0, 0, 0), snakes);
        snakes := [Snake(0, 0, 0, 0)] + snakes;
      }
      var last := snakes[|snakes| - 1];
      if last.u < |a| || last.v < |b| {
        SortedAppend(snakes, Snake(|a|, |b|, |a|, |b|));
        snakes := snakes + [Snake(|a|, |b|, |a|, |b|)];
      }
    }

    lemma ChainSorted(ss: seq<Snake>)
      requires Chain(ss, 0, 0, |a|, |b|)
      ensures Sorted(ss) && forall t :: 0 <= t < |ss| ==> ss[t].x < ss[t].u
    {
    }

    lemma SortedPrepend(z: Snake, ss: seq<Snake>)
      requires Sorted(ss) && z == Snake(0, 0, 0, 0)
      ensures Sorted([z] + ss)
    {
      var r := [z] + ss;
      forall t | 0 < t < |r| ensures r[t] == ss[t - 1] { }
    }

    lemma SortedAppend(ss: seq<Snake>, z: Snake)
      requires Sorted(ss) && z == Snake(|a|, |b|, |a|, |b|)
      ensures Sorted(ss + [z])
    {
      var r := ss + [z];
      forall t | 0 <= t < |ss| ensures r[t] == ss[t] { }
    }

    /** ApplyForwardBias: walk the list and extend each snake over the Equal
        pairs that follow it; where the extension runs into the next snake
        that snake loses its first pair, and a next snake left empty is
        unlinked unless it is the last one. */
    method ApplyForwardBias()
      requires SnakeList(snakes) && NonEmptyAfter(snakes, 0)
      modifies this`snakes
      ensures SnakeList(snakes)
      ensures forall t :: 0 <= t < |snakes| - 1 ==> !Extendable(snakes[t])
      ensures exists idx :: Descends(old(snakes), snakes, idx)
      ensures Size(snakes) >= Size(old(snakes))
      ensures |snakes| <= |old(snakes)|
    {
      ghost var o := snakes;
      ghost var idx := Identity(|snakes|);
      var i := 0;
      while i + 1 < |snakes|
        invariant 0 <= i < |snakes| <= |old(snakes)| && SnakeList(snakes) && NonEmptyAfter(snakes, i)
        invariant forall t :: 0 <= t < i ==> !Extendable(snakes[t])
        invariant Descends(o, snakes, idx) && TailAsBefore(o, snakes, idx, i)
        invariant Size(snakes) >= Size(old(snakes))
        decreases |snakes| - i
      {
        idx := ExtendSnake(i, o, idx);
        i := i + 1;
      }
    }

    /** The inner loop of ApplyForwardBias: extend snake i while the pair at
        its end is Equal. The snakes before it are left alone. */
    method ExtendSnake(i: int, ghost o: seq<Snake>, ghost idx: seq<int>) returns (ghost idx': seq<int>)
      requires 0 <= i && i + 1 < |snakes| && SnakeList(snakes) && NonEmptyAfter(snakes, i)
      requires forall t :: 0 <= t < i ==> !Extendable(snakes[t])
      requires Descends(o, snakes, idx) && TailAsBefore(o, snakes, idx, i)
      modifies this`snakes
      ensures i + 1 < |snakes| <= |old(snakes)| && SnakeList(snakes) && NonEmptyAfter(snakes, i + 1)
      ensures snakes[..i] == old(snakes)[..i] && !Extendable(snakes[i])
      ensures forall t :: 0 <= t <= i ==> !Extendable(snakes[t])
      ensures Descends(o, snakes, idx') && TailAsBefore(o, snakes, idx', i + 1)
      ensures Size(snakes) >= Size(old(snakes))
    {
      idx' := idx;
      while Extendable(snakes[i])
        invariant i + 1 < |snakes| <= |old(snakes)| && SnakeList(snakes) && NonEmptyAfter(snakes, i)
        invariant snakes[..i] == old(snakes)[..i]
        invariant Descends(o, snakes, idx') && TailAsBefore(o, snakes, idx', i)
        invariant Size(snakes) >= Size(old(snakes))
        decreases |a| - snakes[i].u
      {
        ExtendStepKeeps(snakes, i);
        ExtendStepDescends(o, snakes, idx', i);
        idx' := NextIndex(snakes, idx', i);
        snakes := ExtendStep(snakes, i);
      }
      forall t | 0 <= t < i
        ensures !Extendable(snakes[t])
      {
        assert snakes[t] == snakes[..i][t] == old(snakes)[..i][t];
      }
    }

    /** One pass of ExtendSnake's loop on snake i: it gains the pair at its
        end; if it now overlaps snake i + 1, that snake loses its first pair,
        and is unlinked once empty unless it is the last. */
    function ExtendStep(ss: seq<Snake>, i: int): seq<Snake>
      requires 0 <= i && i + 1 < |ss|
    {
      var s := ss[i];
      var next := ss[i + 1];
      var r1 := ss[i := Snake(s.x, s.y, s.u + 1, s.v + 1)];
      if s.u + 1 > next.x || s.v + 1 > next.y then
        var r2 := r1[i + 1 := Snake(next.x + 1, next.y + 1, next.u, next.v)];
        if next.x + 1 == next.u && i + 1 != |ss| - 1 then r2[..i + 1] + r2[i + 2..] else r2
      else
        r1
    }

    /** What one step of ExtendSnake's loop keeps: the list stays sorted
        and bracketed with no empty snake after i but the last, snake i gains
        one pair, the snakes before it are left alone and no matched pair is
        lost. */
    ghost predicate StepKeeps(ss: seq<Snake>, r: seq<Snake>, i: int)
      requires 0 <= i < |ss|
    {
      && i + 1 < |r| <= |ss| && SnakeList(r) && NonEmptyAfter(r, i)
      && r[..i] == ss[..i] && r[i] == Snake(ss[i].x, ss[i].y, ss[i].u + 1, ss[i].v + 1)
      && Size(r) >= Size(ss)
    }

    lemma ExtendStepKeeps(ss: seq<Snake>, i: int)
      requires 0 <= i && i + 1 < |ss| && SnakeList(ss) && NonEmptyAfter(ss, i) && Extendable(ss[i])
      ensures StepKeeps(ss, ExtendStep(ss, i), i)
    {
      var s := ss[i];
      var next := ss[i + 1];
      if s.u + 1 > next.x || s.v + 1 > next.y {
        if next.x + 1 == next.u && i + 1 != |ss| - 1 {
          ExtendUnlink(ss, i);
        } else {
          ExtendShrink(ss, i);
        }
      } else {
        ExtendGrow(ss, i);
      }
    }

    /** Where ExtendStep leaves each snake's origin: an unlinked snake's
        entry goes with it. */
    function NextIndex(ss: seq<Snake>, idx: seq<int>, i: int): seq<int>
      requires 0 <= i && i + 1 < |ss| && |idx| == |ss|
    {
      var s, next := ss[i], ss[i + 1];
      if (s.u + 1 > next.x || s.v + 1 > next.y) && next.x + 1 == next.u && i + 1 != |ss| - 1
      then idx[..i + 1] + idx[i + 2..]
      else idx
    }

    /** One step of ExtendSnake keeps the list descended from the
        original one. */
    lemma ExtendStepDescends(o: seq<Snake>, ss: seq<Snake>, idx: seq<int>, i: int)
      requires 0 <= i && i + 1 < |ss| && SnakeList(ss) && NonEmptyAfter(ss, i) && Extendable(ss[i])
      requires Descends(o, ss, idx) && TailAsBefore(o, ss, idx, i)
      ensures Descends(o, ExtendStep(ss, i), NextIndex(ss, idx, i))
      ensures TailAsBefore(o, ExtendStep(ss, i), NextIndex(ss, idx, i), i)
    {
      var s := ss[i];
      var next := ss[i + 1];
      if s.u + 1 > next.x || s.v + 1 > next.y {
        if next.x + 1 == next.u && i + 1 != |ss| - 1 {
          UnlinkDescends(o, ss, idx, i);
        } else {
          ShrinkDescends(o, ss, idx, i);
        }
      } else {
        GrowDescends(o, ss, idx, i);
      }
    }

    lemma GrowDescends(o: seq<Snake>, ss: seq<Snake>, idx: seq<int>, i: int)
      requires 0 <= i && i + 1 < |ss| && SnakeList(ss) && Extendable(ss[i])
      requires Descends(o, ss, idx) && TailAsBefore(o, ss, idx, i)
      requires ss[i].u + 1 <= ss[i + 1].x && ss[i].v + 1 <= ss[i + 1].y
      ensures var r := ss[i := Snake(ss[i].x, ss[i].y, ss[i].u + 1, ss[i].v + 1)];
        Descends(o, r, idx) && TailAsBefore(o, r, idx, i)
    {
      var r := ss[i := Snake(ss[i].x, ss[i].y, ss[i].u + 1, ss[i].v + 1)];
      assert Trimmed(o, ss, idx, i + 1);
      forall t | 0 <= t < |idx| - 1
        ensures DroppedBy(o, r, idx, t)
      {
        assert DroppedBy(o, ss, idx, t);
      }
      forall t | 0 < t < |idx|
        ensures Trimmed(o, r, idx, t)
      {
        assert Trimmed(o, ss, idx, t);
      }
    }

    lemma ShrinkDescends(o: seq<Snake>, ss: seq<Snake>, idx: seq<int>, i: int)
      requires 0 <= i && i + 1 < |ss| && SnakeList(ss) && Extendable(ss[i])
      requires Descends(o, ss, idx) && TailAsBefore(o, ss, idx, i)
      requires ss[i].u + 1 > ss[i + 1].x || ss[i].v + 1 > ss[i + 1].y
      ensures var r := ss[i := Snake(ss[i].x, ss[i].y, ss[i].u + 1, ss[i].v + 1)]
                         [i + 1 := Snake(ss[i + 1].x + 1, ss[i + 1].y + 1, ss[i + 1].u, ss[i + 1].v)];
        Descends(o, r, idx) && TailAsBefore(o, r, idx, i)
    {
      var r := ss[i := Snake(ss[i].x, ss[i].y, ss[i].u + 1, ss[i].v + 1)]
                 [i + 1 := Snake(ss[i + 1].x + 1, ss[i + 1].y + 1, ss[i + 1].u, ss[i + 1].v)];
      assert Precedes(ss[i], ss[i + 1]);
      forall t | 0 <= t < |idx| - 1
        ensures DroppedBy(o, r, idx, t)
      {
        assert DroppedBy(o, ss, idx, t);
      }
      forall t | 0 < t < |idx|
        ensures Trimmed(o, r, idx, t)
      {
        assert Trimmed(o, ss, idx, t);
      }
    }

    lemma UnlinkDescends(o: seq<Snake>, ss: seq<Snake>, idx: seq<int>, i: int)
      requires 0 <= i && i + 2 < |ss| && SnakeList(ss) && Extendable(ss[i])
      requires Descends(o, ss, idx) && TailAsBefore(o, ss, idx, i)
      requires ss[i].u + 1 > ss[i + 1].x || ss[i].v + 1 > ss[i + 1].y
      requires ss[i + 1].x + 1 == ss[i + 1].u
      ensures var r2 := ss[i := Snake(ss[i].x, ss[i].y, ss[i].u + 1, ss[i].v + 1)]
                          [i + 1 := Snake(ss[i + 1].x + 1, ss[i + 1].y + 1, ss[i + 1].u, ss[i + 1].v)];
        var r, idx' := r2[..i + 1] + r2[i + 2..], idx[..i + 1] + idx[i + 2..];
        Descends(o, r, idx') && TailAsBefore(o, r, idx', i)
    {
      var r2 := ss[i := Snake(ss[i].x, ss[i].y, ss[i].u + 1, ss[i].v + 1)]
                  [i + 1 := Snake(ss[i + 1].x + 1, ss[i + 1].y + 1, ss[i + 1].u, ss[i + 1].v)];
      ShrinkDescends(o, ss, idx, i);
      assert Precedes(ss[i], ss[i + 1]);
      assert Inside(ss[i + 1], 0, 0, |a|, |b|);
      assert UsedUp(o[idx[i + 1]], r2[i]);
      RemoveDescends(o, r2, idx, i + 1);
    }

    lemma ExtendGrow(ss: seq<Snake>, i: int)
      requires 0 <= i && i + 1 < |ss| && SnakeList(ss) && NonEmptyAfter(ss, i) && Extendable(ss[i])
      requires ss[i].u + 1 <= ss[i + 1].x && ss[i].v + 1 <= ss[i + 1].y
      ensures StepKeeps(ss, ss[i := Snake(ss[i].x, ss[i].y, ss[i].u + 1, ss[i].v + 1)], i)
    {
      var s' := Snake(ss[i].x, ss[i].y, ss[i].u + 1, ss[i].v + 1);
      SizeUpdate(ss, i, s');
      GrowSorted(ss, i);
    }

    lemma ExtendShrink(ss: seq<Snake>, i: int)
      requires 0 <= i && i + 1 < |ss| && SnakeList(ss) && NonEmptyAfter(ss, i) && Extendable(ss[i])
      requires ss[i].u + 1 > ss[i + 1].x || ss[i].v + 1 > ss[i + 1].y
      requires ss[i + 1].x + 1 != ss[i + 1].u || i + 2 == |ss|
      ensures StepKeeps(ss, ss[i := Snake(ss[i].x, ss[i].y, ss[i].u + 1, ss[i].v + 1)]
                              [i + 1 := Snake(ss[i + 1].x + 1, ss[i + 1].y + 1, ss[i + 1].u, ss[i + 1].v)], i)
    {
      var s' := Snake(ss[i].x, ss[i].y, ss[i].u + 1, ss[i].v + 1);
      var next' := Snake(ss[i + 1].x + 1, ss[i + 1].y + 1, ss[i + 1].u, ss[i + 1].v);
      SizeUpdate(ss, i, s');
      SizeUpdate(ss[i := s'], i + 1, next');
      GrowShrinkSorted(ss, i);
    }

    lemma ExtendUnlink(ss: seq<Snake>, i: int)
      requires 0 <= i && i + 2 < |ss| && SnakeList(ss) && NonEmptyAfter(ss, i) && Extendable(ss[i])
      requires ss[i].u + 1 > ss[i + 1].x || ss[i].v + 1 > ss[i + 1].y
      requires ss[i + 1].x + 1 == ss[i + 1].u
      ensures var r2 := ss[i := Snake(ss[i].x, ss[i].y, ss[i].u + 1, ss[i].v + 1)]
                          [i + 1 := Snake(ss[i + 1].x + 1, ss[i + 1].y + 1, ss[i + 1].u, ss[i + 1].v)];
        StepKeeps(ss, r2[..i + 1] + r2[i + 2..], i)
    {
      var r2 := ss[i := Snake(ss[i].x, ss[i].y, ss[i].u + 1, ss[i].v + 1)]
                  [i + 1 := Snake(ss[i + 1].x + 1, ss[i + 1].y + 1, ss[i + 1].u, ss[i + 1].v)];
      var s' := r2[i];
      SizeUpdate(ss, i, s');
      SizeUpdate(ss[i := s'], i + 1, r2[i + 1]);
      GrowShrinkSorted(ss, i);
      var r := r2[..i + 1] + r2[i + 2..];
      SortedRemove(r2, i + 1);
      SizeRemove(r2, i + 1);
      assert r[..i] == ss[..i] && r[i] == r2[i];
      assert forall t :: i + 1 <= t < |r| ==> r[t] == ss[t + 1];
    }

    /** Growing snake i into a gap before snake i + 1 keeps the list sorted. */
    lemma GrowSorted(ss: seq<Snake>, i: int)
      requires 0 <= i && i + 1 < |ss| && Sorted(ss) && Extendable(ss[i])
      requires ss[i].u + 1 <= ss[i + 1].x && ss[i].v + 1 <= ss[i + 1].y
      ensures Sorted(ss[i := Snake(ss[i].x, ss[i].y, ss[i].u + 1, ss[i].v + 1)])
    {
      MatchedGrow(ss[i]);
    }

    /** Growing snake i into snake i + 1 and taking the first pair off that
        snake keeps the list sorted. */
    lemma GrowShrinkSorted(ss: seq<Snake>, i: int)
      requires 0 <= i && i + 1 < |ss| && SnakeList(ss) && NonEmptyAfter(ss, i) && Extendable(ss[i])
      requires ss[i].u + 1 > ss[i + 1].x || ss[i].v + 1 > ss[i + 1].y
      ensures Sorted(ss[i := Snake(ss[i].x, ss[i].y, ss[i].u + 1, ss[i].v + 1)]
                        [i + 1 := Snake(ss[i + 1].x + 1, ss[i + 1].y + 1, ss[i + 1].u, ss[i + 1].v)])
    {
      var s := ss[i];
      var next := ss[i + 1];
      if i + 1 == |ss| - 1 {
        assert next.u == |a| && next.v == |b|;
      }
      assert next.x < next.u;
      MatchedGrow(s);
      MatchedShrink(next);
      var r := ss[i := Snake(s.x, s.y, s.u + 1, s.v + 1)][i + 1 := Snake(next.x + 1, next.y + 1, next.u, next.v)];
      assert |r| == |ss|;
      forall t | 0 <= t < |r|
        ensures Inside(r[t], 0, 0, |a|, |b|) && Matched(r[t])
      {
        if t != i && t != i + 1 {
          assert r[t] == ss[t];
        }
      }
      forall t | 0 <= t < |r| - 1
        ensures Precedes(r[t], r[t + 1])
      {
        assert Precedes(ss[t], ss[t + 1]);
        if t + 2 < |ss| {
          assert Precedes(ss[t + 1], ss[t + 2]);
        }
      }
    }

    /** A snake extended by the Equal pair at its end stays Matched. */
    lemma MatchedGrow(s: Snake)
      requires Matched(s) && Extendable(s) && s.u - s.x == s.v - s.y
      ensures Matched(Snake(s.x, s.y, s.u + 1, s.v + 1))
    {
      forall i | s.x <= i < s.u + 1
        ensures Match(s.x, s.y, i)
      {
      }
    }

    /** A snake without its first pair stays Matched. */
    lemma MatchedShrink(s: Snake)
      requires Matched(s)
      ensures Matched(Snake(s.x + 1, s.y + 1, s.u, s.v))
    {
      var s' := Snake(s.x + 1, s.y + 1, s.u, s.v);
      forall i | s'.x <= i < s'.u
        ensures Match(s'.x, s'.y, i)
      {
        assert Match(s.x, s.y, i);
      }
    }

    /** Unlinking an empty snake that is neither first nor last keeps the
        list sorted. */
    lemma SortedRemove(ss: seq<Snake>, j: int)
      requires Sorted(ss) && 0 < j < |ss| - 1 && ss[j].x == ss[j].u
      ensures Sorted(ss[..j] + ss[j + 1..])
    {
      var r := ss[..j] + ss[j + 1..];
      assert forall t :: 0 <= t < |r| ==> r[t] == if t < j then ss[t] else ss[t + 1];
    }

    /** Size adds up over concatenation. */
    lemma {:induction false} SizeAppend(p: seq<Snake>, q: seq<Snake>)
      ensures Size(p + q) == Size(p) + Size(q)
      decreases |p|
    {
      if p == [] {
        assert p + q == q;
      } else {
        assert (p + q)[1..] == p[1..] + q;
        SizeAppend(p[1..], q);
      }
    }

    lemma SizeCons(s: Snake, q: seq<Snake>)
      ensures Size([s] + q) == (s.u - s.x) + Size(q)
    {
      assert ([s] + q)[1..] == q;
    }

    lemma SizeUpdate(ss: seq<Snake>, j: int, s: Snake)
      requires 0 <= j < |ss|
      ensures Size(ss[j := s]) == Size(ss) - (ss[j].u - ss[j].x) + (s.u - s.x)
    {
      var p, q := ss[..j], ss[j + 1..];
      assert ss == p + ([ss[j]] + q);
      assert ss[j := s] == p + ([s] + q);
      SizeAppend(p, [ss[j]] + q);
      SizeAppend(p, [s] + q);
      SizeCons(ss[j], q);
      SizeCons(s, q);
    }

    lemma SizeRemove(ss: seq<Snake>, j: int)
      requires 0 <= j < |ss|
      ensures Size(ss[..j] + ss[j + 1..]) == Size(ss) - (ss[j].u - ss[j].x)
    {
      var p, q := ss[..j], ss[j + 1..];
      SplitAt(ss, j);
      SizeAppend(p, [ss[j]] + q);
      SizeAppend(p, q);
      SizeCons(ss[j], q);
    }

    /** FindSnake: a snake of the rectangle startx..endx by starty..endy
        that leaves a strictly smaller rectangle before it and after it.
        Step 0 returns a common prefix or suffix when there is one; steps
        1 .. maxD alternate the forward and the reverse search until one of
        them meets the other; when maxD steps do not suffice, the snake
        through the middle of the rectangle is returned. */
    method FindSnake(startx: int, starty: int, endx: int, endy: int) returns (s: Snake)
      requires Searching()
      requires 0 <= startx < endx <= |a| && 0 <= starty < endy <= |b|
      modifies fV.vec, rV.vec
      ensures InRect(s, startx, starty, endx, endy)
      ensures (s.x, s.y) != (endx, endy) && (s.u, s.v) != (startx, starty)
    {
      fV.Set(0, startx);
      var pu, pv := FollowDiagonal(startx, starty, endx, endy);
      if pu > startx {
        // initial prefix
        s := Snake(startx, starty, pu, pv);
        return;
      }
      rV.Set(0, endx);
      var sx, sy := FollowReverseDiagonal(endx, endy, startx, starty);
      if endx > sx {
        // initial suffix
        s := Snake(sx, sy, endx, endy);
        SameDiagonal(endx, endy, sx, sy, sx, endx);
        return;
      }
      s := Search(startx, starty, endx, endy);
    }

    /** Steps 1 .. maxD of FindSnake, from the step 0 vectors, and the
        middle snake when they do not meet. */
    method Search(startx: int, starty: int, endx: int, endy: int) returns (s: Snake)
      requires Searching()
      requires 0 <= startx < endx <= |a| && 0 <= starty < endy <= |b|
      requires fV.Get(0) == startx && rV.Get(0) == endx
      modifies fV.vec, rV.vec
      ensures InRect(s, startx, starty, endx, endy)
      ensures (s.x, s.y) != (endx, endy) && (s.u, s.v) != (startx, starty)
    {
      var n := endx - startx;
      var m := endy - starty;
      ghost var odd := OddDelta(startx, starty, endx, endy);
      InitInv(fV.vec[..], maxD, FwdFrame(startx, endx, m), odd);
      InitInv(rV.vec[..], maxD, RevFrame(startx, endx, m), !odd);
      var d := 1;
      while d <= maxD
        invariant 1 <= d <= maxD + 1
        invariant Inv(fV.vec[..], maxD, FwdFrame(startx, endx, m), d - 1, odd)
        invariant Inv(rV.vec[..], maxD, RevFrame(startx, endx, m), d - 1, !odd)
        invariant d >= 2 ==> !(n == 1 && m == 1)
        decreases maxD - d
      {
        var found;
        found, s := ForwardPass(startx, starty, endx, endy, d, rV.vec[..]);
        if found {
          return;
        }
        found, s := ReversePass(startx, starty, endx, endy, d, fV.vec[..]);
        if found {
          return;
        }
        d := d + 1;
      }
      s := MiddleSnake(startx, starty, endx, endy);
    }

    /** The fallback when maxD steps do not meet: the snake through the
        middle point of the rectangle, extended both ways. */
    method MiddleSnake(startx: int, starty: int, endx: int, endy: int) returns (s: Snake)
      requires 0 <= startx < endx <= |a| && 0 <= starty < endy <= |b|
      requires !(endx - startx == 1 && endy - starty == 1)
      ensures InRect(s, startx, starty, endx, endy)
      ensures (s.x, s.y) != (endx, endy) && (s.u, s.v) != (startx, starty)
      ensures s.x <= startx + (endx - startx) / 2 <= s.u
      ensures s.u - s.x == s.v - s.y && s.x - s.y == (endx - startx) / 2 - (endy - starty) / 2 + startx - starty
    {
      var mx := startx + (endx - startx) / 2;
      var my := starty + (endy - starty) / 2;
      var x, y := FollowReverseDiagonal(mx, my, startx, starty);
      var u, v := FollowDiagonal(mx, my, endx, endy);
      s := Snake(x, y, u, v);
      SameDiagonal(mx, my, x, y, x, u);
    }

    /** One forward step d of FindSnake: for every diagonal of the step,
        the furthest-reaching point, the snake followed from it, and the
        overlap test against the reverse search one step behind when delta
        is odd. */
    method ForwardPass(startx: int, starty: int, endx: int, endy: int, d: int, ghost rv: seq<int>)
      returns (found: bool, s: Snake)
      requires Searching() && rV.vec[..] == rv
      requires 0 <= startx < endx <= |a| && 0 <= starty < endy <= |b|
      requires 1 <= d <= maxD
      requires Inv(fV.vec[..], maxD, FwdFrame(startx, endx, endy - starty), d - 1, OddDelta(startx, starty, endx, endy))
      requires Inv(rv, maxD, RevFrame(startx, endx, endy - starty), d - 1, !OddDelta(startx, starty, endx, endy))
      modifies fV.vec
      ensures found ==> OddDelta(startx, starty, endx, endy)
      ensures found ==> InRect(s, startx, starty, endx, endy)
      ensures found ==> (s.x, s.y) != (endx, endy) && (s.u, s.v) != (startx, starty)
      ensures !found ==> Inv(fV.vec[..], maxD, FwdFrame(startx, endx, endy - starty), d, OddDelta(startx, starty, endx, endy))
    {
      var n := endx - startx;
      var m := endy - starty;
      ghost var ff := FwdFrame(startx, endx, m);
      ghost var ov := fV.vec[..];
      ghost var odd := OddDelta(startx, starty, endx, endy);
      var minkF := if d <= m then -d else -(2 * m - d);
      var maxkF := if d <= n then d else 2 * n - d;
      PartialInit(ov, maxD, ff, d, odd);
      var k := minkF;
      ghost var i := 0;
      while k <= maxkF
        invariant 0 <= i && k == minkF + 2 * i
        invariant Partial(ov, fV.vec[..], maxD, ff, d, odd, maxD + k)
        invariant rV.vec[..] == rv
        decreases maxkF - k
      {
        DiagonalUp(d, n, m, i);
        found, s := ForwardDiagonal(startx, starty, endx, endy, d, k, minkF, maxkF, ov, rv);
        if found {
          return;
        }
        k, i := k + 2, i + 1;
      }
      PartialDone(ov, fV.vec[..], maxD, ff, d, odd, maxD + k);
      found, s := false, Snake(0, 0, 0, 0);
    }

    /** The body of the forward loop for diagonal k: choose the start point,
        follow the diagonal, test for overlap and store the new point. */
    method ForwardDiagonal(startx: int, starty: int, endx: int, endy: int, d: int, k: int, minkF: int, maxkF: int,
                           ghost ov: seq<int>, ghost rv: seq<int>)
      returns (found: bool, s: Snake)
      requires Searching() && rV.vec[..] == rv
      requires 0 <= startx < endx <= |a| && 0 <= starty < endy <= |b|
      requires 1 <= d <= maxD
      requires minkF == FMin(d, endy - starty) && maxkF == FMax(d, endx - startx)
      requires InF(k, d, endx - startx, endy - starty)
      requires Inv(ov, maxD, FwdFrame(startx, endx, endy - starty), d - 1, OddDelta(startx, starty, endx, endy))
      requires Inv(rv, maxD, RevFrame(startx, endx, endy - starty), d - 1, !OddDelta(startx, starty, endx, endy))
      requires Partial(ov, fV.vec[..], maxD, FwdFrame(startx, endx, endy - starty), d, OddDelta(startx, starty, endx, endy), maxD + k)
      modifies fV.vec
      ensures found ==> OddDelta(startx, starty, endx, endy)
      ensures found ==> InRect(s, startx, starty, endx, endy)
      ensures found ==> (s.x, s.y) != (endx, endy) && (s.u, s.v) != (startx, starty)
      ensures !found ==> Partial(ov, fV.vec[..], maxD, FwdFrame(startx, endx, endy - starty), d, OddDelta(startx, starty, endx, endy), maxD + k + 2)
    {
      var n := endx - startx;
      var m := endy - starty;
      var delta := n - m;
      var deltaEven := delta % 2 == 0;
      ghost var h := maxD;
      ghost var ff := FwdFrame(startx, endx, m);
      ghost var rf := RevFrame(startx, endx, m);
      ghost var odd := !deltaEven;
      var x := ForwardStart(startx, endx, m, d, k, minkF, maxkF, ov, odd);
      var u, v := FollowDiagonal(x, MapXToY(x, k, startx, starty), endx, endy);
      if !deltaEven {
        var hit := ForwardOverlap(startx, starty, endx, endy, d, k, u, rv);
        if hit {
          s := Snake(x, MapXToY(x, k, startx, starty), u, v);
          ForwardHit(startx, starty, endx, endy, d, k, ov, h, s);
          found := true;
          return;
        }
      }
      ForwardStore(startx, endx, m, d, k, u, ov, odd);
      found, s := false, Snake(0, 0, 0, 0);
    }

    /** The start column of diagonal k at step d: down from diagonal k + 1
        or right from diagonal k - 1, whichever of the step d - 1 points
        reaches further, down being forced at minkF and right at maxkF. */
    method ForwardStart(startx: int, endx: int, m: int, d: int, k: int, minkF: int, maxkF: int,
                        ghost ov: seq<int>, ghost checks: bool)
      returns (x: int)
      requires fV.Valid() && fV.halfSize == maxD && 1 <= d <= maxD
      requires startx < endx && m >= 1
      requires minkF == FMin(d, m) && maxkF == FMax(d, endx - startx) && InF(k, d, endx - startx, m)
      requires Inv(ov, maxD, FwdFrame(startx, endx, m), d - 1, checks)
      requires Partial(ov, fV.vec[..], maxD, FwdFrame(startx, endx, m), d, checks, maxD + k)
      ensures x - startx == Start(ov, maxD, FwdFrame(startx, endx, m), d, k)
      ensures x - startx >= 0 && x - startx - k >= 0
    {
      ForwardRead(ov, fV.vec[..], maxD, FwdFrame(startx, endx, m), d, checks, k);
      if k == minkF || (k != maxkF && fV.Get(k + 1) > fV.Get(k - 1)) {
        x := fV.Get(k + 1);     // down in the edit graph
      } else {
        x := fV.Get(k - 1) + 1; // to the right in the edit graph
      }
    }

    /** Store the new point of diagonal k, the column u where following its
        diagonal ended. */
    method ForwardStore(startx: int, endx: int, m: int, d: int, k: int, u: int,
                        ghost ov: seq<int>, ghost checks: bool)
      requires fV.Valid() && fV.halfSize == maxD && 1 <= d <= maxD
      requires startx < endx && m >= 1 && InF(k, d, endx - startx, m)
      requires Inv(ov, maxD, FwdFrame(startx, endx, m), d - 1, checks)
      requires Partial(ov, fV.vec[..], maxD, FwdFrame(startx, endx, m), d, checks, maxD + k)
      requires FollowOK(Start(ov, maxD, FwdFrame(startx, endx, m), d, k), u - startx, k, endx - startx, m)
      requires FwdClear(checks, k, d, endx - startx, m, u - startx)
      modifies fV.vec
      ensures Partial(ov, fV.vec[..], maxD, FwdFrame(startx, endx, m), d, checks, maxD + k + 2)
    {
      ForwardStored(ov, fV.vec[..], maxD, startx, endx, m, d, checks, k, u);
      fV.Set(k, u);
    }

    /** The snake the forward overlap test returns, from the start point of
        diagonal k to where following the diagonal ended. */
    lemma ForwardHit(startx: int, starty: int, endx: int, endy: int, d: int, k: int, ov: seq<int>, h: int, s: Snake)
      requires 0 <= startx < endx <= |a| && 0 <= starty < endy <= |b| && 1 <= d <= h
      requires Inv(ov, h, FwdFrame(startx, endx, endy - starty), d - 1, true)
      requires InF(k, d, endx - startx, endy - starty)
      requires InR(k - (endx - startx - (endy - starty)), d - 1, endx - startx, endy - starty)
      requires s.x - startx == Start(ov, h, FwdFrame(startx, endx, endy - starty), d, k)
      requires s.y == MapXToY(s.x, k, startx, starty) && s.u - s.v == s.x - s.y
      requires FollowOK(s.x - startx, s.u - startx, k, endx - startx, endy - starty)
      requires forall i :: s.x <= i < s.u ==> HashMatch(s.x, s.y, i)
      ensures InRect(s, startx, starty, endx, endy)
      ensures (s.x, s.y) != (endx, endy) && (s.u, s.v) != (startx, starty)
    {
      HitInside(ov, h, FwdFrame(startx, endx, endy - starty), d, k, s.u - startx);
      SnakeInside(s, startx, starty, endx, endy);
    }

    /** One reverse step d of FindSnake: for every diagonal of the step,
        the furthest-reaching point from the bottom right corner, the snake
        followed back from it, and the overlap test against the forward
        search of the same step when delta is even. */
    method ReversePass(startx: int, starty: int, endx: int, endy: int, d: int, ghost fv: seq<int>)
      returns (found: bool, s: Snake)
      requires Searching() && fV.vec[..] == fv
      requires 0 <= startx < endx <= |a| && 0 <= starty < endy <= |b|
      requires 1 <= d <= maxD
      requires Inv(fv, maxD, FwdFrame(startx, endx, endy - starty), d, OddDelta(startx, starty, endx, endy))
      requires Inv(rV.vec[..], maxD, RevFrame(startx, endx, endy - starty), d - 1, !OddDelta(startx, starty, endx, endy))
      modifies rV.vec
      ensures found ==> !OddDelta(startx, starty, endx, endy)
      ensures found ==> InRect(s, startx, starty, endx, endy)
      ensures found ==> (s.x, s.y) != (endx, endy) && (s.u, s.v) != (startx, starty)
      ensures !found ==> Inv(rV.vec[..], maxD, RevFrame(startx, endx, endy - starty), d, !OddDelta(startx, starty, endx, endy))
      ensures d == 1 && endx - startx == 1 && endy - starty == 1 ==> found
    {
      var n := endx - startx;
      var m := endy - starty;
      ghost var rf := RevFrame(startx, endx, m);
      ghost var ov := rV.vec[..];
      ghost var even := !OddDelta(startx, starty, endx, endy);
      var minkF := if d <= m then -d else -(2 * m - d);
      var maxkF := if d <= n then d else 2 * n - d;
      var minkR := -maxkF;
      var maxkR := -minkF;
      PartialInit(ov, maxD, rf, d, even);
      var k := minkR;
      ghost var i := 0;
      while k <= maxkR
        invariant 0 <= i && k == minkR + 2 * i
        invariant Partial(ov, rV.vec[..], maxD, rf, d, even, maxD + k)
        invariant fV.vec[..] == fv
        invariant d == 1 && n == 1 && m == 1 ==> i == 0
        decreases maxkR - k
      {
        DiagonalDown(d, n, m, i);
        found, s := ReverseDiagonal(startx, starty, endx, endy, d, k, minkF, maxkF, ov, fv);
        if found {
          return;
        }
        k, i := k + 2, i + 1;
      }
      PartialDone(ov, rV.vec[..], maxD, rf, d, even, maxD + k);
      found, s := false, Snake(0, 0, 0, 0);
    }

    /** The body of the reverse loop for diagonal k (numbered as the
        forward search numbers it). */
    method ReverseDiagonal(startx: int, starty: int, endx: int, endy: int, d: int, k: int, minkF: int, maxkF: int,
                           ghost ov: seq<int>, ghost fv: seq<int>)
      returns (found: bool, s: Snake)
      requires Searching() && fV.vec[..] == fv
      requires 0 <= startx < endx <= |a| && 0 <= starty < endy <= |b|
      requires 1 <= d <= maxD
      requires minkF == FMin(d, endy - starty) && maxkF == FMax(d, endx - startx)
      requires InF(-k, d, endx - startx, endy - starty)
      requires Inv(fv, maxD, FwdFrame(startx, endx, endy - starty), d, OddDelta(startx, starty, endx, endy))
      requires Inv(ov, maxD, RevFrame(startx, endx, endy - starty), d - 1, !OddDelta(startx, starty, endx, endy))
      requires Partial(ov, rV.vec[..], maxD, RevFrame(startx, endx, endy - starty), d, !OddDelta(startx, starty, endx, endy), maxD + k)
      modifies rV.vec
      ensures found ==> !OddDelta(startx, starty, endx, endy)
      ensures found ==> InRect(s, startx, starty, endx, endy)
      ensures found ==> (s.x, s.y) != (endx, endy) && (s.u, s.v) != (startx, starty)
      ensures !found ==> Partial(ov, rV.vec[..], maxD, RevFrame(startx, endx, endy - starty), d, !OddDelta(startx, starty, endx, endy), maxD + k + 2)
      ensures d == 1 && endx - startx == 1 && endy - starty == 1 && k == -1 ==> found
    {
      var n := endx - startx;
      var m := endy - starty;
      var delta := n - m;
      var deltaEven := delta % 2 == 0;
      ghost var even := !OddDelta(startx, starty, endx, endy);
      assert even == deltaEven;
      var x, y, u := ReverseFollow(startx, starty, endx, endy, d, k, minkF, maxkF, ov, even);
      if deltaEven {
        var hit := ReverseOverlap(startx, starty, endx, endy, d, k, minkF, maxkF, x, fv);
        if hit {
          s := Snake(x, y, u, MapXToY(u, k, endx, endy));
          ReverseHit(startx, starty, endx, endy, d, k, ov, maxD, s);
          found := true;
          return;
        }
      }
      ReverseStore(startx, endx, m, d, k, x, ov, even);
      found, s := false, Snake(0, 0, 0, 0);
    }

    /** The start point of reverse diagonal k at step d, and the snake
        followed back from it to (x, y). In a 1 by 1 rectangle the first
        reverse diagonal of step 1 ends on the near edge. */
    method ReverseFollow(startx: int, starty: int, endx: int, endy: int, d: int, k: int, minkF: int, maxkF: int,
                         ghost ov: seq<int>, ghost checks: bool)
      returns (x: int, y: int, u: int)
      requires rV.Valid() && rV.halfSize == maxD && 1 <= d <= maxD
      requires 0 <= startx < endx <= |a| && 0 <= starty < endy <= |b|
      requires minkF == FMin(d, endy - starty) && maxkF == FMax(d, endx - startx)
      requires InF(-k, d, endx - startx, endy - starty)
      requires Inv(ov, maxD, RevFrame(startx, endx, endy - starty), d - 1, checks)
      requires Partial(ov, rV.vec[..], maxD, RevFrame(startx, endx, endy - starty), d, checks, maxD + k)
      ensures endx - u == Start(ov, maxD, RevFrame(startx, endx, endy - starty), d, -k)
      ensures x - y == u - MapXToY(u, k, endx, endy)
      ensures FollowOK(endx - u, endx - x, -k, endx - startx, endy - starty)
      ensures forall i :: x <= i < u ==> HashMatch(u, MapXToY(u, k, endx, endy), i)
      ensures d == 1 && endx - startx == 1 && endy - starty == 1 && k == -1 ==> x == startx
    {
      var n := endx - startx;
      var m := endy - starty;
      if d == 1 && n == 1 && m == 1 {
        UnitStart(ov, maxD, endx, checks);
      }
      u := ReverseStart(startx, endx, m, d, k, -maxkF, -minkF, ov, checks);
      x, y := FollowReverseDiagonal(u, MapXToY(u, k, endx, endy), startx, starty);
    }

    /** The end column of the reverse point of diagonal k at step d: up
        from diagonal k - 1 or left from diagonal k + 1, whichever of the
        step d - 1 points reaches further back, up being forced at maxkR and
        left at minkR. */
    method ReverseStart(startx: int, endx: int, m: int, d: int, k: int, minkR: int, maxkR: int,
                        ghost ov: seq<int>, ghost checks: bool)
      returns (u: int)
      requires rV.Valid() && rV.halfSize == maxD && 1 <= d <= maxD
      requires startx < endx && m >= 1
      requires minkR == -FMax(d, endx - startx) && maxkR == -FMin(d, m) && InF(-k, d, endx - startx, m)
      requires Inv(ov, maxD, RevFrame(startx, endx, m), d - 1, checks)
      requires Partial(ov, rV.vec[..], maxD, RevFrame(startx, endx, m), d, checks, maxD + k)
      ensures endx - u == Start(ov, maxD, RevFrame(startx, endx, m), d, -k)
      ensures endx - u >= 0 && endx - u + k >= 0
    {
      ReverseRead(ov, rV.vec[..], maxD, RevFrame(startx, endx, m), d, checks, k);
      if k == maxkR || (k != minkR && rV.Get(k - 1) < rV.Get(k + 1)) {
        u := rV.Get(k - 1);     // up in the edit graph
      } else {
        u := rV.Get(k + 1) - 1; // to the left in the edit graph
      }
    }

    /** Store the new reverse point of diagonal k, the column x where
        following its diagonal back ended. */
    method ReverseStore(startx: int, endx: int, m: int, d: int, k: int, x: int,
                        ghost ov: seq<int>, ghost checks: bool)
      requires rV.Valid() && rV.halfSize == maxD && 1 <= d <= maxD
      requires startx < endx && m >= 1 && InF(-k, d, endx - startx, m)
      requires Inv(ov, maxD, RevFrame(startx, endx, m), d - 1, checks)
      requires Partial(ov, rV.vec[..], maxD, RevFrame(startx, endx, m), d, checks, maxD + k)
      requires FollowOK(Start(ov, maxD, RevFrame(startx, endx, m), d, -k), endx - x, -k, endx - startx, m)
      requires RevClear(checks, k, d, endx - startx, m, endx - x)
      modifies rV.vec
      ensures Partial(ov, rV.vec[..], maxD, RevFrame(startx, endx, m), d, checks, maxD + k + 2)
    {
      ReverseStored(ov, rV.vec[..], maxD, startx, endx, m, d, checks, k, x);
      rV.Set(k, x);
    }

    /** The overlap test of the reverse loop: diagonal k + delta is one the
        forward search reached at step d and the reverse point x is at or
        before the forward point there. When it does not fire, the reverse
        point is strictly inside the rectangle wherever it looked. */
    method ReverseOverlap(startx: int, starty: int, endx: int, endy: int, d: int, k: int, minkF: int, maxkF: int,
                          x: int, ghost fv: seq<int>)
      returns (hit: bool)
      requires Searching() && fV.vec[..] == fv
      requires 0 <= startx < endx && 0 <= starty < endy
      requires 1 <= d <= maxD && !OddDelta(startx, starty, endx, endy)
      requires minkF == FMin(d, endy - starty) && maxkF == FMax(d, endx - startx)
      requires InF(-k, d, endx - startx, endy - starty)
      requires Inv(fv, maxD, FwdFrame(startx, endx, endy - starty), d, false)
      ensures hit ==> InF(k + (endx - startx - (endy - starty)), d, endx - startx, endy - starty)
      ensures !hit ==> RevClear(true, k, d, endx - startx, endy - starty, endx - x)
    {
      var n := endx - startx;
      var m := endy - starty;
      var delta := n - m;
      ReverseTestRange(k, d, n, m);
      hit := false;
      if k + delta >= minkF && k + delta <= maxkF {
        if x <= fV.Get(k + delta) {
          hit := true;
        } else {
          ReverseMissInside(fv, maxD, FwdFrame(startx, endx, m), d, k, x);
        }
      }
    }

    /** What FollowReverseDiagonal promises, from (u, v) on diagonal k back
        to (x, y), is FollowOK in the reverse search's rotated coordinates. */
    lemma FollowedBack(startx: int, starty: int, endx: int, endy: int, k: int, u: int, x: int, y: int)
      requires x - y == u - MapXToY(u, k, endx, endy) && x <= u
      requires u > startx && MapXToY(u, k, endx, endy) > starty ==> x >= startx && y >= starty
      requires !(u > startx && MapXToY(u, k, endx, endy) > starty) ==> x == u
      ensures FollowOK(endx - u, endx - x, -k, endx - startx, endy - starty)
    {
    }

    /** The snake the reverse overlap test returns, from where following
        diagonal k back ended to the reverse start point. */
    lemma ReverseHit(startx: int, starty: int, endx: int, endy: int, d: int, k: int, ov: seq<int>, h: int, s: Snake)
      requires 0 <= startx < endx <= |a| && 0 <= starty < endy <= |b| && 1 <= d <= h
      requires Inv(ov, h, RevFrame(startx, endx, endy - starty), d - 1, true)
      requires InF(-k, d, endx - startx, endy - starty)
      requires InF(k + (endx - startx - (endy - starty)), d, endx - startx, endy - starty)
      requires endx - s.u == Start(ov, h, RevFrame(startx, endx, endy - starty), d, -k)
      requires s.v == MapXToY(s.u, k, endx, endy) && s.u - s.v == s.x - s.y
      requires FollowOK(endx - s.u, endx - s.x, -k, endx - startx, endy - starty)
      requires forall i :: s.x <= i < s.u ==> HashMatch(s.u, s.v, i)
      ensures InRect(s, startx, starty, endx, endy)
      ensures (s.x, s.y) != (endx, endy) && (s.u, s.v) != (startx, starty)
    {
      var n, m := endx - startx, endy - starty;
      InRMirror(-k - (n - m), d, n, m);
      HitInside(ov, h, RevFrame(startx, endx, m), d, -k, endx - s.x);
      SameDiagonal(s.u, s.v, s.x, s.y, s.x, s.u);
      SnakeInside(s, startx, starty, endx, endy);
    }

    /** The overlap test of the forward loop: diagonal k - delta is one the
        reverse search reached at step d - 1 and the forward point u is at or
        past the reverse point there. When it does not fire, the forward
        point is strictly inside the rectangle wherever it looked. */
    method ForwardOverlap(startx: int, starty: int, endx: int, endy: int, d: int, k: int, u: int, ghost rv: seq<int>)
      returns (hit: bool)
      requires Searching() && rV.vec[..] == rv
      requires 0 <= startx < endx && 0 <= starty < endy
      requires 1 <= d <= maxD && OddDelta(startx, starty, endx, endy)
      requires InF(k, d, endx - startx, endy - starty)
      requires Inv(rv, maxD, RevFrame(startx, endx, endy - starty), d - 1, false)
      ensures hit ==> InR(k - (endx - startx - (endy - starty)), d - 1, endx - startx, endy - starty)
      ensures !hit ==> FwdClear(true, k, d, endx - startx, endy - starty, u - startx)
    {
      var n := endx - startx;
      var m := endy - starty;
      var delta := n - m;
      ForwardTestRange(k, d, n, m);
      var dr := d - 1;
      var pminkR := if dr <= n then -dr else -(2 * n - dr);
      var pmaxkR := if dr <= m then dr else 2 * m - dr;
      hit := false;
      if k - delta >= pminkR && k - delta <= pmaxkR {
        if u >= rV.Get(k - delta) {
          hit := true;
        } else {
          ForwardMissInside(rv, maxD, RevFrame(startx, endx, m), d, k, u - startx);
        }
      }
    }

    /** A snake whose ends, in the rectangle's own coordinates, satisfy the
        facts the overlap test establishes is a snake of the rectangle that
        leaves a smaller rectangle on either side. */
    lemma SnakeInside(s: Snake, startx: int, starty: int, endx: int, endy: int)
      requires 0 <= startx && 0 <= starty && endx <= |a| && endy <= |b|
      requires s.u - s.x == s.v - s.y
      requires 0 <= s.x - startx <= s.u - startx <= endx - startx
      requires 0 <= s.y - starty && s.v - starty <= endy - starty
      requires !(s.x == endx && s.y == endy) && !(s.u == startx && s.v == starty)
      requires forall i :: s.x <= i < s.u ==> HashMatch(s.x, s.y, i)
      ensures InRect(s, startx, starty, endx, endy)
      ensures (s.x, s.y) != (endx, endy) && (s.u, s.v) != (startx, starty)
    {
    }
  }

  /** The frame of the forward vector of the rectangle startx..endx whose
      height is m. */
  function FwdFrame(startx: int, endx: int, m: int): Frame
  {
    Frame(true, startx, endx - startx, m)
  }

  /** Where the overlap test with the other search applies (checks) and
      the other search reached diagonal k, the forward column ux on it is
      strictly inside the rectangle. */
  predicate FwdClear(checks: bool, k: int, d: int, n: int, m: int, ux: int)
  {
    checks && InR(k - (n - m), d - 1, n, m) ==> ux < n && ux - k < m
  }

  /** The same for the reverse column xx (counted back from endx) on
      diagonal k, against the forward search at step d. */
  predicate RevClear(checks: bool, k: int, d: int, n: int, m: int, xx: int)
  {
    checks && InF(k + (n - m), d, n, m) ==> xx < n && xx + k < m
  }

  /** Storing the forward point u of diagonal k advances the step. */
  lemma ForwardStored(ov: seq<int>, cur: seq<int>, h: int, startx: int, endx: int, m: int, d: int, checks: bool,
                      k: int, u: int)
    requires 1 <= d <= h && startx < endx && m >= 1 && InF(k, d, endx - startx, m)
    requires Inv(ov, h, FwdFrame(startx, endx, m), d - 1, checks)
    requires Partial(ov, cur, h, FwdFrame(startx, endx, m), d, checks, h + k)
    requires FollowOK(Start(ov, h, FwdFrame(startx, endx, m), d, k), u - startx, k, endx - startx, m)
    requires FwdClear(checks, k, d, endx - startx, m, u - startx)
    ensures -h <= k <= h && 0 <= h + k < |cur|
    ensures Partial(ov, cur[h + k := u], h, FwdFrame(startx, endx, m), d, checks, h + k + 2)
  {
    InFBounds(k, d, endx - startx, m);
    PartialStep(ov, cur, h, FwdFrame(startx, endx, m), d, checks, k, u);
  }

  /** Storing the reverse point x of diagonal k (forward numbering)
      advances the step. */
  lemma ReverseStored(ov: seq<int>, cur: seq<int>, h: int, startx: int, endx: int, m: int, d: int, checks: bool,
                      k: int, x: int)
    requires 1 <= d <= h && startx < endx && m >= 1 && InF(-k, d, endx - startx, m)
    requires Inv(ov, h, RevFrame(startx, endx, m), d - 1, checks)
    requires Partial(ov, cur, h, RevFrame(startx, endx, m), d, checks, h + k)
    requires FollowOK(Start(ov, h, RevFrame(startx, endx, m), d, -k), endx - x, -k, endx - startx, m)
    requires RevClear(checks, k, d, endx - startx, m, endx - x)
    ensures -h <= k <= h && 0 <= h + k < |cur|
    ensures Partial(ov, cur[h + k := x], h, RevFrame(startx, endx, m), d, checks, h + k + 2)
  {
    ReverseStep(ov, cur, h, RevFrame(startx, endx, m), d, checks, k, x);
  }

  /** The frame of the reverse vector of the same rectangle. */
  function RevFrame(startx: int, endx: int, m: int): Frame
  {
    Frame(false, endx, endx - startx, m)
  }

  /** delta = n - m is odd: the forward search does the overlap test. */
  predicate OddDelta(startx: int, starty: int, endx: int, endy: int)
  {
    (endx - startx - (endy - starty)) % 2 != 0
  }

  /** Snake r is snake o on the same diagonal, possibly shortened at its
      front and lengthened at its end. */
  predicate Grown(o: Snake, r: Snake)
  {
    r.x - r.y == o.x - o.y && o.x <= r.x && o.u <= r.u
  }

  /** Snake r has reached the end of snake o on at least one side. */
  predicate UsedUp(o: Snake, r: Snake)
  {
    o.u <= r.u || o.v <= r.v
  }

  /** The list r came out of the list o by forward bias: idx[t] is the
      snake of o that r[t] grew from; the first and the last snake are
      kept, the order is kept, every snake of o left out lies under the
      snake before it (used up by it), and a snake shortened at its front
      starts where the snake before it ends, on one side. */
  ghost predicate Descends(o: seq<Snake>, r: seq<Snake>, idx: seq<int>)
  {
    && |r| == |idx| >= 1 && idx[0] == 0 && idx[|idx| - 1] == |o| - 1
    && (forall t :: 0 <= t < |idx| ==> 0 <= idx[t] < |o| && Grown(o[idx[t]], r[t]))
    && (forall t :: 0 <= t < |idx| - 1 ==> idx[t] < idx[t + 1] && DroppedBy(o, r, idx, t))
    && (forall t :: 0 < t < |idx| ==> Trimmed(o, r, idx, t))
  }

  /** The snakes of o between idx[t] and idx[t + 1] are used up by r[t]. */
  ghost predicate DroppedBy(o: seq<Snake>, r: seq<Snake>, idx: seq<int>, t: int)
  {
    0 <= t < |idx| - 1 && |r| == |idx| ==>
      forall j :: idx[t] < j < idx[t + 1] && 0 <= j < |o| ==> UsedUp(o[j], r[t])
  }

  /** If r[t] lost pairs at its front, it starts where r[t - 1] ends, on
      one side. */
  ghost predicate Trimmed(o: seq<Snake>, r: seq<Snake>, idx: seq<int>, t: int)
  {
    0 < t < |idx| == |r| && 0 <= idx[t] < |o| && r[t].x != o[idx[t]].x ==>
      r[t - 1].u == r[t].x || r[t - 1].v == r[t].y
  }

  /** Past position i, r is still the tail of o, untouched except that
      r[i + 1] may have been shortened at its front. */
  ghost predicate TailAsBefore(o: seq<Snake>, r: seq<Snake>, idx: seq<int>, i: int)
  {
    && |r| == |idx| <= |o|
    && (forall t :: 0 <= t && i < t < |idx| ==>
          && idx[t] == t + (|o| - |r|)
          && r[t].u == o[idx[t]].u && r[t].v == o[idx[t]].v
          && (i + 1 < t ==> r[t] == o[idx[t]]))
  }

  /** Every snake its own origin. */
  function Identity(n: nat): (idx: seq<int>)
    ensures |idx| == n && forall t :: 0 <= t < n ==> idx[t] == t
  {
    seq(n, t => t)
  }
  /** Dropping snake k, used up by the snake before it, from a list still
      untouched past k keeps it descended from o. */
  lemma RemoveDescends(o: seq<Snake>, r: seq<Snake>, idx: seq<int>, k: int)
    requires 1 <= k < |r| - 1
    requires Descends(o, r, idx) && TailAsBefore(o, r, idx, k - 1)
    requires UsedUp(o[idx[k]], r[k - 1])
    ensures Descends(o, r[..k] + r[k + 1..], idx[..k] + idx[k + 1..])
    ensures TailAsBefore(o, r[..k] + r[k + 1..], idx[..k] + idx[k + 1..], k - 1)
  {
    var r', idx' := r[..k] + r[k + 1..], idx[..k] + idx[k + 1..];
    RemoveAt(r, r', k);
    RemoveAt(idx, idx', k);
    forall t | 0 <= t < |idx'| - 1
      ensures idx'[t] < idx'[t + 1] && DroppedBy(o, r', idx', t)
    {
      if t < k - 1 {
        assert DroppedBy(o, r, idx, t);
      } else if t == k - 1 {
        assert DroppedBy(o, r, idx, t);
        assert idx[k + 1] == idx[k] + 1;
      } else {
        assert DroppedBy(o, r, idx, t + 1);
      }
    }
    forall t | 0 < t < |idx'|
      ensures Trimmed(o, r', idx', t)
    {
      if t < k {
        assert Trimmed(o, r, idx, t);
      }
    }
  }

  /** The elements of s with the one at k removed. */
  lemma RemoveAt<T>(s: seq<T>, s': seq<T>, k: int)
    requires 0 <= k < |s| && s' == s[..k] + s[k + 1..]
    ensures |s'| == |s| - 1
    ensures forall t :: 0 <= t < k ==> s'[t] == s[t]
    ensures forall t :: k <= t < |s| - 1 ==> s'[t] == s[t + 1]
  {
  }

  /** A sequence is its prefix, the element at j and its suffix. */
  lemma SplitAt<T>(s: seq<T>, j: int)
    requires 0 <= j < |s|
    ensures s == s[..j] + ([s[j]] + s[j + 1..])
  {
  }
}
