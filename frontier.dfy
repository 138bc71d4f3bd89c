/** The geometry of the greedy middle-snake search that DiffAnalyze.FindSnake
    runs (Myers, "An O(ND) Difference Algorithm and Its Variations", 1986,
    section 4b): the diagonal ranges of each step, the furthest-reaching
    frontier kept in a symmetric vector, and the facts about that frontier
    which keep every snake FindSnake returns inside the rectangle it searches.

    Coordinates are relative to the rectangle: the forward search starts at
    (0, 0) and the reverse search at (n, m). A point (X, Y) lies on diagonal
    k = X - Y. The reverse search is read in rotated coordinates
    (n - X, m - Y), in which it is the forward search again; a `Frame` says
    which of the two a vector holds, so every fact below is proved once for
    both. */
module Frontier {

  /** minkF: the lowest diagonal the forward search reaches at step d. */
  function FMin(d: int, m: int): int
  {
    if d <= m then -d else -(2 * m - d)
  }

  /** maxkF: the highest diagonal the forward search reaches at step d. */
  function FMax(d: int, n: int): int
  {
    if d <= n then d else 2 * n - d
  }

  /** minkR and maxkR: the reverse search's diagonal range at step d. */
  function RMin(d: int, n: int): int
  {
    -FMax(d, n)
  }

  function RMax(d: int, m: int): int
  {
    -FMin(d, m)
  }

  /** Diagonal k is one the forward search visits at step d. */
  predicate InF(k: int, d: int, n: int, m: int)
  {
    FMin(d, m) <= k <= FMax(d, n) && (k - d) % 2 == 0
  }

  /** The forward loop's i-th diagonal, counted up from minkF. */
  lemma DiagonalUp(d: int, n: int, m: int, i: int)
    requires 0 <= i && FMin(d, m) + 2 * i <= FMax(d, n)
    ensures InF(FMin(d, m) + 2 * i, d, n, m)
  {
    assert FMin(d, m) + 2 * i - d == 2 * (i - d) || FMin(d, m) + 2 * i - d == 2 * (i - m);
  }

  /** The reverse loop's i-th diagonal, counted down from maxkF. */
  lemma DiagonalDown(d: int, n: int, m: int, i: int)
    requires 0 <= i && FMin(d, m) <= FMax(d, n) - 2 * i
    ensures InF(FMax(d, n) - 2 * i, d, n, m)
  {
    assert FMax(d, n) - 2 * i - d == -2 * i || FMax(d, n) - 2 * i - d == 2 * (n - d - i);
  }

  /** Reverse diagonal j is one the reverse search visits at step d. */
  predicate InR(j: int, d: int, n: int, m: int)
  {
    RMin(d, n) <= j <= RMax(d, m) && (j - d) % 2 == 0
  }

  /** mapxtoy: the row of column x on diagonal k counted from an origin. */
  function MapXToY(x: int, diagonal: int, originx: int, originy: int): (y: int)
    ensures (x - originx) - (y - originy) == diagonal
  {
    x - (diagonal + (originx - originy))
  }

  /** Which search a vector belongs to. `base` is startx for the forward
      vector and endx for the reverse one; n and m are the rectangle's width
      and height. */
  datatype Frame = Frame(fwd: bool, base: int, n: int, m: int)
  {
    function Delta(): int { n - m }

    /** The forward search's overlap test looks at the reverse search one
        step behind; the reverse search's test looks at the same step. */
    function Lag(): int { if fwd then 1 else 0 }
  }

  /** A SymmetricVector's contents: slots for diagonals -h .. h. */
  predicate VecOK(v: seq<int>, h: int)
  {
    h >= 0 && |v| == 2 * h + 1
  }

  /** The column, in the frame's own coordinates, of the frontier point the
      vector holds for diagonal k. */
  function X(v: seq<int>, h: int, f: Frame, k: int): int
    requires VecOK(v, h) && -h <= k <= h
  {
    if f.fwd then v[h + k] - f.base else f.base - v[h - k]
  }

  /** The choice FindSnake makes for diagonal k at step d: down from
      diagonal k + 1 or right from diagonal k - 1, whichever reaches
      further, down being forced at minkF and right at maxkF. */
  function Start(v: seq<int>, h: int, f: Frame, d: int, k: int): int
    requires VecOK(v, h) && 1 <= d <= h && f.n >= 1 && f.m >= 1
    requires InF(k, d, f.n, f.m)
  {
    if k == FMin(d, f.m) || (k != FMax(d, f.n) && X(v, h, f, k + 1) > X(v, h, f, k - 1))
    then X(v, h, f, k + 1)
    else X(v, h, f, k - 1) + 1
  }

  /** What following a diagonal does to a start column xs: it only moves
      forward, only from a point strictly inside the rectangle, and never
      past its far edges. */
  predicate FollowOK(xs: int, xp: int, k: int, n: int, m: int)
  {
    xs <= xp
    && (xs < n && xs - k < m ==> xp <= n && xp - k <= m)
    && (!(xs < n && xs - k < m) ==> xp == xs)
  }

  /** The frontier facts for diagonal k after step d.
      - the point is right of and below the start corner;
      - on the extreme diagonals -d and d it has not crossed the far edge;
      - where the opposite search's overlap test looked at it and did not
        stop (`checks`), it is strictly inside the rectangle;
      - a point below the bottom edge has a neighbour two diagonals up that
        reaches further, and a point beyond the right edge has a neighbour
        two diagonals down that reaches lower. */
  ghost predicate AtK(v: seq<int>, h: int, f: Frame, d: int, checks: bool, k: int)
    requires VecOK(v, h) && 0 <= d <= h && f.n >= 1 && f.m >= 1
    requires InF(k, d, f.n, f.m)
  {
    var x := X(v, h, f, k);
    && x >= 0 && x - k >= 0
    && (k == -d ==> x <= f.n)
    && (k == d ==> x - k <= f.m)
    && (checks && InR(k - f.Delta(), d - f.Lag(), f.n, f.m) ==> x < f.n && x - k < f.m)
    && (k + 2 <= FMax(d, f.n) && x - k > f.m ==> X(v, h, f, k + 2) > x)
    && (k - 2 >= FMin(d, f.m) && x > f.n ==> X(v, h, f, k - 2) - (k - 2) > x - k)
  }

  /** The frontier invariant after step d, over every diagonal of that step;
      at step 0 the single point is the start corner. */
  ghost predicate Inv(v: seq<int>, h: int, f: Frame, d: int, checks: bool)
  {
    && VecOK(v, h) && 0 <= d <= h && f.n >= 1 && f.m >= 1
    && (forall k {:trigger AtK(v, h, f, d, checks, k)} :: InF(k, d, f.n, f.m) ==> AtK(v, h, f, d, checks, k))
    && (d == 0 ==> X(v, h, f, 0) == 0)
  }

  /** The facts about the new point on diagonal k at step d, relative to the
      step d - 1 frontier `ov` it was computed from. */
  ghost predicate NewAt(nv: seq<int>, ov: seq<int>, h: int, f: Frame, d: int, checks: bool, k: int)
    requires VecOK(nv, h) && VecOK(ov, h) && 1 <= d <= h && f.n >= 1 && f.m >= 1
    requires InF(k, d, f.n, f.m)
  {
    var x := X(nv, h, f, k);
    && x >= 0 && x - k >= 0
    && (k == -d ==> x <= f.n)
    && (k == d ==> x - k <= f.m)
    && (checks && InR(k - f.Delta(), d - f.Lag(), f.n, f.m) ==> x < f.n && x - k < f.m)
    && (k != FMin(d, f.m) ==> x >= X(ov, h, f, k - 1) + 1)
    && (k != FMax(d, f.n) ==> x >= X(ov, h, f, k + 1))
    && (k != FMax(d, f.n) && x - k > f.m ==> x <= X(ov, h, f, k + 1))
    && (k != FMin(d, f.m) && x > f.n ==> x <= X(ov, h, f, k - 1) + 1)
  }

  // ---------------------------------------------------------------------
  // Diagonal ranges

  /** Every diagonal of step d lies in -d .. d. */
  lemma InFBounds(k: int, d: int, n: int, m: int)
    requires d >= 0 && InF(k, d, n, m)
    ensures -d <= k <= d
  {
  }

  /** InR is InF seen from the other corner. */
  lemma InRMirror(j: int, d: int, n: int, m: int)
    ensures InR(j, d, n, m) <==> InF(-j, d, n, m)
  {
  }

  /** The diagonals a step reads lie in the previous step's range: k + 1
      unless k is the last one and not forced down, k - 1 unless k is
      forced down. */
  lemma Neighbours(k: int, d: int, n: int, m: int)
    requires d >= 1 && n >= 1 && m >= 1 && InF(k, d, n, m)
    ensures k != FMin(d, m) ==> InF(k - 1, d - 1, n, m)
    ensures k != FMax(d, n) || k == FMin(d, m) ==> InF(k + 1, d - 1, n, m)
    ensures k != FMax(d, n) ==> k + 2 <= FMax(d, n)
    ensures k != FMin(d, m) ==> k - 2 >= FMin(d, m)
    ensures k == FMin(d, m) ==> k + 1 <= d - 1
  {
  }

  /** The overlap tests' diagonal ranges at their top end: the reverse
      diagonal j of step e whose right-hand neighbour is not in step e - 1. */
  lemma RTopEnd(j: int, e: int, n: int, m: int)
    requires e >= 1 && InR(j, e, n, m) && !InR(j + 1, e - 1, n, m)
    ensures j == e && e <= m
  {
  }

  lemma RBottomEnd(j: int, e: int, n: int, m: int)
    requires e >= 1 && InR(j, e, n, m) && !InR(j - 1, e - 1, n, m)
    ensures j == -e && e <= n
  {
  }

  // ---------------------------------------------------------------------
  // One step of the search

  /** Accessor for the invariant at one diagonal. */
  lemma InvAt(v: seq<int>, h: int, f: Frame, d: int, checks: bool, k: int)
    requires Inv(v, h, f, d, checks) && InF(k, d, f.n, f.m)
    ensures AtK(v, h, f, d, checks, k)
  {
  }

  /** The point FindSnake stores for diagonal k at step d keeps the
      frontier facts that do not depend on the overlap test. */
  lemma {:induction false} StepFacts(ov: seq<int>, nv: seq<int>, h: int, f: Frame, d: int, checks: bool, k: int)
    requires 1 <= d && Inv(ov, h, f, d - 1, checks) && VecOK(nv, h) && d <= h
    requires InF(k, d, f.n, f.m)
    requires FollowOK(Start(ov, h, f, d, k), X(nv, h, f, k), k, f.n, f.m)
    requires checks && InR(k - f.Delta(), d - f.Lag(), f.n, f.m) ==> X(nv, h, f, k) < f.n && X(nv, h, f, k) - k < f.m
    ensures NewAt(nv, ov, h, f, d, checks, k)
  {
    Neighbours(k, d, f.n, f.m);
    InFBounds(k, d, f.n, f.m);
    if k != FMin(d, f.m) {
      InvAt(ov, h, f, d - 1, checks, k - 1);
    }
    if k != FMax(d, f.n) || k == FMin(d, f.m) {
      InvAt(ov, h, f, d - 1, checks, k + 1);
    }
    StepNear(ov, nv, h, f, d, checks, k);
  }

  /** StepFacts from the facts about the two diagonals it reads. */
  lemma {:induction false} StepNear(ov: seq<int>, nv: seq<int>, h: int, f: Frame, d: int, checks: bool, k: int)
    requires 1 <= d <= h && VecOK(ov, h) && VecOK(nv, h) && f.n >= 1 && f.m >= 1
    requires InF(k, d, f.n, f.m)
    requires k != FMin(d, f.m) ==> InF(k - 1, d - 1, f.n, f.m) && AtK(ov, h, f, d - 1, checks, k - 1)
    requires k != FMax(d, f.n) || k == FMin(d, f.m) ==> InF(k + 1, d - 1, f.n, f.m) && AtK(ov, h, f, d - 1, checks, k + 1)
    requires FollowOK(Start(ov, h, f, d, k), X(nv, h, f, k), k, f.n, f.m)
    requires checks && InR(k - f.Delta(), d - f.Lag(), f.n, f.m) ==> X(nv, h, f, k) < f.n && X(nv, h, f, k) - k < f.m
    ensures NewAt(nv, ov, h, f, d, checks, k)
  {
    var n, m := f.n, f.m;
    var lo, hi := FMin(d, m), FMax(d, n);
    InFBounds(k, d, n, m);
    Neighbours(k, d, n, m);
    // the extreme diagonals
    if k == -d {
      assert k == lo;
      assert k + 1 == -(d - 1);
    }
    if k == d {
      assert k == hi && k != lo;
      assert k - 1 == d - 1;
    }
    // L4: a point beyond the right edge came right from k - 1
    if k != lo && X(nv, h, f, k) > n && k != hi {
      assert k + 1 - 2 >= FMin(d - 1, m);
    }
  }

  /** The forward search's overlap test, as the code writes it: with delta
      odd, diagonal k - delta is examined exactly when the reverse search
      visited it at step d - 1. */
  lemma {:induction false} ForwardTestRange(k: int, d: int, n: int, m: int)
    requires d >= 1 && (k - d) % 2 == 0 && (n - m) % 2 != 0
    ensures var dr := d - 1;
      InR(k - (n - m), dr, n, m) <==>
        (k - (n - m) >= (if dr <= n then -dr else -(2 * n - dr)) && k - (n - m) <= (if dr <= m then dr else 2 * m - dr))
    ensures InR(k - (n - m), d - 1, n, m) ==> -(d - 1) <= k - (n - m) <= d - 1
  {
    assert (k - (n - m) - (d - 1)) % 2 == 0;
  }

  /** The reverse search's overlap test: with delta even, diagonal
      kr + delta is examined exactly when the forward search visited it at
      step d. */
  lemma {:induction false} ReverseTestRange(kr: int, d: int, n: int, m: int)
    requires d >= 1 && (kr - d) % 2 == 0 && (n - m) % 2 == 0
    ensures InF(kr + (n - m), d, n, m) <==>
        (kr + (n - m) >= (if d <= m then -d else -(2 * m - d)) && kr + (n - m) <= (if d <= n then d else 2 * n - d))
    ensures InF(kr + (n - m), d, n, m) ==> -d <= kr + (n - m) <= d
  {
    assert (kr + (n - m) - d) % 2 == 0;
  }

  /** Odd delta: a forward point that stopped short of the reverse point
      on its diagonal (which is right of and below the reverse search's
      start) lies strictly inside the rectangle. */
  lemma {:induction false} ForwardMissInside(rv: seq<int>, h: int, rf: Frame, d: int, k: int, xp: int)
    requires !rf.fwd && 1 <= d
    requires Inv(rv, h, rf, d - 1, rf.Delta() % 2 == 0)
    requires InR(k - rf.Delta(), d - 1, rf.n, rf.m)
    requires xp + (rf.base - rf.n) < rv[h + k - rf.Delta()]
    ensures xp < rf.n && xp - k < rf.m
  {
    InRMirror(k - rf.Delta(), d - 1, rf.n, rf.m);
    InvAt(rv, h, rf, d - 1, rf.Delta() % 2 == 0, rf.Delta() - k);
  }

  /** Even delta: a reverse point that stopped short of the forward point
      on its diagonal lies strictly inside the rectangle, in the reverse
      search's rotated coordinates (kr is the diagonal in the forward
      numbering, whose rotated number is -kr). */
  lemma {:induction false} ReverseMissInside(fv: seq<int>, h: int, ff: Frame, d: int, kr: int, x: int)
    requires ff.fwd && 0 <= d
    requires Inv(fv, h, ff, d, ff.Delta() % 2 != 0)
    requires InF(kr + ff.Delta(), d, ff.n, ff.m)
    requires x > fv[h + kr + ff.Delta()]
    ensures (ff.base + ff.n) - x < ff.n && (ff.base + ff.n) - x + kr < ff.m
  {
    InvAt(fv, h, ff, d, ff.Delta() % 2 != 0, kr + ff.Delta());
  }

  /** Once every diagonal of step d has its new point, the frontier
      invariant holds for step d. */
  lemma {:induction false} CloseStep(ov: seq<int>, nv: seq<int>, h: int, f: Frame, d: int, checks: bool)
    requires 1 <= d <= h && VecOK(ov, h) && VecOK(nv, h) && f.n >= 1 && f.m >= 1
    requires forall k :: InF(k, d, f.n, f.m) ==> NewAt(nv, ov, h, f, d, checks, k)
    ensures Inv(nv, h, f, d, checks)
  {
    var n, m := f.n, f.m;
    forall k | InF(k, d, n, m)
      ensures AtK(nv, h, f, d, checks, k)
    {
      if k + 2 <= FMax(d, n) {
        assert InF(k + 2, d, n, m);
      }
      if k - 2 >= FMin(d, m) {
        assert InF(k - 2, d, n, m);
      }
      CloseAt(ov, nv, h, f, d, checks, k);
    }
  }

  /** The frontier facts of one diagonal after step d, from the new points
      of that diagonal and of its neighbours two diagonals away. */
  lemma {:induction false} CloseAt(ov: seq<int>, nv: seq<int>, h: int, f: Frame, d: int, checks: bool, k: int)
    requires 1 <= d <= h && VecOK(ov, h) && VecOK(nv, h) && f.n >= 1 && f.m >= 1
    requires InF(k, d, f.n, f.m) && NewAt(nv, ov, h, f, d, checks, k)
    requires k + 2 <= FMax(d, f.n) ==> InF(k + 2, d, f.n, f.m) && NewAt(nv, ov, h, f, d, checks, k + 2)
    requires k - 2 >= FMin(d, f.m) ==> InF(k - 2, d, f.n, f.m) && NewAt(nv, ov, h, f, d, checks, k - 2)
    ensures AtK(nv, h, f, d, checks, k)
  {
    InFBounds(k, d, f.n, f.m);
    Neighbours(k, d, f.n, f.m);
  }


  // ---------------------------------------------------------------------
  // The loop over the diagonals of one step

  /** The vector slot that holds diagonal j. */
  function Slot(h: int, f: Frame, j: int): int
  {
    if f.fwd then h + j else h - j
  }

  /** The column, in the frame's coordinates, of a value stored in the
      vector. */
  function XOf(f: Frame, val: int): int
  {
    if f.fwd then val - f.base else f.base - val
  }

  /** Part way through step d, with the loop at vector slot pos: every
      diagonal whose slot is below pos holds its new point, and the vector
      from slot pos - 1 up is still the step d - 1 frontier `ov`. */
  ghost predicate Partial(ov: seq<int>, cur: seq<int>, h: int, f: Frame, d: int, checks: bool, pos: int)
  {
    && VecOK(ov, h) && VecOK(cur, h) && 1 <= d <= h && f.n >= 1 && f.m >= 1
    && (forall i :: 0 <= i < |cur| && pos - 1 <= i ==> cur[i] == ov[i])
    && (forall j {:trigger NewAt(cur, ov, h, f, d, checks, j)} ::
          InF(j, d, f.n, f.m) && Slot(h, f, j) < pos ==> NewAt(cur, ov, h, f, d, checks, j))
  }

  /** Before the first diagonal of the step (the lowest slot in either
      vector) nothing has been stored. */
  lemma {:induction false} PartialInit(ov: seq<int>, h: int, f: Frame, d: int, checks: bool)
    requires VecOK(ov, h) && 1 <= d <= h && f.n >= 1 && f.m >= 1
    ensures Partial(ov, ov, h, f, d, checks, if f.fwd then h + FMin(d, f.m) else h - FMax(d, f.n))
  {
  }

  /** The forward search's choice, made on the vector part way through the
      step, is Start on the step d - 1 frontier. */
  lemma {:induction false} ForwardRead(ov: seq<int>, cur: seq<int>, h: int, f: Frame, d: int, checks: bool, k: int)
    requires f.fwd && Inv(ov, h, f, d - 1, checks) && Partial(ov, cur, h, f, d, checks, h + k)
    requires InF(k, d, f.n, f.m)
    ensures -h <= k <= h && (k != FMin(d, f.m) ==> -h < k) && (k == FMin(d, f.m) || k != FMax(d, f.n) ==> k < h)
    ensures Start(ov, h, f, d, k) >= 0 && Start(ov, h, f, d, k) - k >= 0
    ensures Start(ov, h, f, d, k) + f.base ==
      if k == FMin(d, f.m) || (k != FMax(d, f.n) && cur[h + k + 1] > cur[h + k - 1])
      then cur[h + k + 1] else cur[h + k - 1] + 1
  {
    Neighbours(k, d, f.n, f.m);
    InFBounds(k, d, f.n, f.m);
    StartBounds(ov, h, f, d, checks, k);
  }

  /** The reverse search's choice on diagonal kr (forward numbering, -kr in
      the rotated frame), made on the vector part way through the step, is
      Start on the step d - 1 frontier. */
  lemma {:induction false} ReverseRead(ov: seq<int>, cur: seq<int>, h: int, f: Frame, d: int, checks: bool, kr: int)
    requires !f.fwd && Inv(ov, h, f, d - 1, checks) && Partial(ov, cur, h, f, d, checks, h + kr)
    requires InF(-kr, d, f.n, f.m)
    ensures -h <= kr <= h && (kr != -FMin(d, f.m) ==> kr < h) && (kr == -FMin(d, f.m) || kr != -FMax(d, f.n) ==> -h < kr)
    ensures Start(ov, h, f, d, -kr) >= 0 && Start(ov, h, f, d, -kr) + kr >= 0
    ensures f.base - Start(ov, h, f, d, -kr) ==
      if kr == -FMin(d, f.m) || (kr != -FMax(d, f.n) && cur[h + kr - 1] < cur[h + kr + 1])
      then cur[h + kr - 1] else cur[h + kr + 1] - 1
  {
    Neighbours(-kr, d, f.n, f.m);
    InFBounds(-kr, d, f.n, f.m);
    StartBounds(ov, h, f, d, checks, -kr);
  }

  lemma {:induction false} StartBounds(ov: seq<int>, h: int, f: Frame, d: int, checks: bool, k: int)
    requires 1 <= d <= h && Inv(ov, h, f, d - 1, checks) && InF(k, d, f.n, f.m)
    ensures Start(ov, h, f, d, k) >= 0 && Start(ov, h, f, d, k) - k >= 0
  {
    Neighbours(k, d, f.n, f.m);
    InFBounds(k, d, f.n, f.m);
    if k != FMin(d, f.m) {
      InvAt(ov, h, f, d - 1, checks, k - 1);
    }
    if k != FMax(d, f.n) || k == FMin(d, f.m) {
      InvAt(ov, h, f, d - 1, checks, k + 1);
    }
    StartNear(ov, h, f, d, checks, k);
  }

  lemma {:induction false} StartNear(ov: seq<int>, h: int, f: Frame, d: int, checks: bool, k: int)
    requires 1 <= d <= h && VecOK(ov, h) && f.n >= 1 && f.m >= 1 && InF(k, d, f.n, f.m)
    requires k != FMin(d, f.m) ==> InF(k - 1, d - 1, f.n, f.m) && AtK(ov, h, f, d - 1, checks, k - 1)
    requires k != FMax(d, f.n) || k == FMin(d, f.m) ==> InF(k + 1, d - 1, f.n, f.m) && AtK(ov, h, f, d - 1, checks, k + 1)
    ensures Start(ov, h, f, d, k) >= 0 && Start(ov, h, f, d, k) - k >= 0
  {
    InFBounds(k, d, f.n, f.m);
  }


  /** Storing the followed point of diagonal k moves the loop on by two
      slots. */
  lemma {:induction false} PartialStep(ov: seq<int>, cur: seq<int>, h: int, f: Frame, d: int, checks: bool, k: int, val: int)
    requires Inv(ov, h, f, d - 1, checks) && Partial(ov, cur, h, f, d, checks, Slot(h, f, k))
    requires InF(k, d, f.n, f.m)
    requires FollowOK(Start(ov, h, f, d, k), XOf(f, val), k, f.n, f.m)
    requires checks && InR(k - f.Delta(), d - f.Lag(), f.n, f.m) ==> XOf(f, val) < f.n && XOf(f, val) - k < f.m
    ensures 0 <= Slot(h, f, k) < |cur|
    ensures Partial(ov, cur[Slot(h, f, k) := val], h, f, d, checks, Slot(h, f, k) + 2)
  {
    InFBounds(k, d, f.n, f.m);
    var nv := cur[Slot(h, f, k) := val];
    assert X(nv, h, f, k) == XOf(f, val);
    StepFacts(ov, nv, h, f, d, checks, k);
    PartialKeep(ov, cur, h, f, d, checks, k, val);
  }

  /** PartialStep for the reverse vector, with diagonal k numbered as the
      forward search numbers it and the overlap test on the forward
      search's diagonal k + delta. */
  lemma ReverseStep(ov: seq<int>, cur: seq<int>, h: int, f: Frame, d: int, checks: bool, k: int, x: int)
    requires !f.fwd && Inv(ov, h, f, d - 1, checks) && Partial(ov, cur, h, f, d, checks, h + k)
    requires InF(-k, d, f.n, f.m)
    requires FollowOK(Start(ov, h, f, d, -k), f.base - x, -k, f.n, f.m)
    requires checks && InF(k + f.Delta(), d, f.n, f.m) ==> f.base - x < f.n && f.base - x + k < f.m
    ensures -h <= k <= h && 0 <= h + k < |cur|
    ensures Partial(ov, cur[h + k := x], h, f, d, checks, h + k + 2)
  {
    InFBounds(-k, d, f.n, f.m);
    InRMirror(-k - f.Delta(), d, f.n, f.m);
    PartialStep(ov, cur, h, f, d, checks, -k, x);
  }

  /** Storing diagonal k's point keeps what the loop knows of the other
      diagonals. */
  lemma {:induction false} PartialKeep(ov: seq<int>, cur: seq<int>, h: int, f: Frame, d: int, checks: bool, k: int, val: int)
    requires Partial(ov, cur, h, f, d, checks, Slot(h, f, k)) && InF(k, d, f.n, f.m)
    requires -h <= k <= h
    requires NewAt(cur[Slot(h, f, k) := val], ov, h, f, d, checks, k)
    ensures Partial(ov, cur[Slot(h, f, k) := val], h, f, d, checks, Slot(h, f, k) + 2)
  {
    var p := Slot(h, f, k);
    var nv := cur[p := val];
    forall j | InF(j, d, f.n, f.m) && Slot(h, f, j) < p + 2
      ensures NewAt(nv, ov, h, f, d, checks, j)
    {
      if j != k {
        InFBounds(j, d, f.n, f.m);
        assert Slot(h, f, j) < p;
        NewAtSame(cur, nv, ov, h, f, d, checks, j);
      }
    }
  }

  /** NewAt depends on the new vector only through diagonal k's point. */
  lemma NewAtSame(cur: seq<int>, nv: seq<int>, ov: seq<int>, h: int, f: Frame, d: int, checks: bool, k: int)
    requires VecOK(cur, h) && VecOK(nv, h) && VecOK(ov, h) && 1 <= d <= h && f.n >= 1 && f.m >= 1
    requires InF(k, d, f.n, f.m) && -h <= k <= h && X(nv, h, f, k) == X(cur, h, f, k)
    requires NewAt(cur, ov, h, f, d, checks, k)
    ensures NewAt(nv, ov, h, f, d, checks, k)
  {
  }


  /** Past the last diagonal of the step, the invariant holds for step d. */
  lemma {:induction false} PartialDone(ov: seq<int>, cur: seq<int>, h: int, f: Frame, d: int, checks: bool, pos: int)
    requires Partial(ov, cur, h, f, d, checks, pos)
    requires pos > (if f.fwd then h + FMax(d, f.n) else h - FMin(d, f.m))
    ensures Inv(cur, h, f, d, checks)
  {
    forall j | InF(j, d, f.n, f.m)
      ensures NewAt(cur, ov, h, f, d, checks, j)
    {
      assert Slot(h, f, j) < pos;
    }
    CloseStep(ov, cur, h, f, d, checks);
  }

  // ---------------------------------------------------------------------
  // Where the search stops

  /** When the overlap test fires on diagonal k at step d, the start of the
      snake it returns lies inside the rectangle, is not its far corner
      (so the rectangle left of it is smaller) and is not its near corner
      (so the rectangle right of it is smaller). */
  lemma {:induction false} ReturnInside(ov: seq<int>, h: int, f: Frame, d: int, k: int)
    requires 1 <= d <= h && Inv(ov, h, f, d - 1, true)
    requires InF(k, d, f.n, f.m) && InR(k - f.Delta(), d - f.Lag(), f.n, f.m)
    ensures var s := Start(ov, h, f, d, k);
      && 0 <= s <= f.n && 0 <= s - k <= f.m
      && !(s == f.n && s - k == f.m)
      && !(s == 0 && s - k == 0)
  {
    Neighbours(k, d, f.n, f.m);
    InFBounds(k, d, f.n, f.m);
    if k != FMin(d, f.m) {
      InvAt(ov, h, f, d - 1, true, k - 1);
    }
    if k != FMax(d, f.n) || k == FMin(d, f.m) {
      InvAt(ov, h, f, d - 1, true, k + 1);
    }
    ReturnNear(ov, h, f, d, k);
  }

  /** ReturnInside from the facts about the two diagonals the step reads. */
  lemma {:induction false} ReturnNear(ov: seq<int>, h: int, f: Frame, d: int, k: int)
    requires 1 <= d <= h && VecOK(ov, h) && f.n >= 1 && f.m >= 1
    requires InF(k, d, f.n, f.m) && InR(k - f.Delta(), d - f.Lag(), f.n, f.m)
    requires k != FMin(d, f.m) ==> InF(k - 1, d - 1, f.n, f.m) && AtK(ov, h, f, d - 1, true, k - 1)
    requires k != FMax(d, f.n) || k == FMin(d, f.m) ==> InF(k + 1, d - 1, f.n, f.m) && AtK(ov, h, f, d - 1, true, k + 1)
    requires d == 1 ==> X(ov, h, f, 0) == 0
    ensures var s := Start(ov, h, f, d, k);
      && 0 <= s <= f.n && 0 <= s - k <= f.m
      && !(s == f.n && s - k == f.m)
      && !(s == 0 && s - k == 0)
  {
    Neighbours(k, d, f.n, f.m);
    InFBounds(k, d, f.n, f.m);
    if k == FMin(d, f.m) || (k != FMax(d, f.n) && X(ov, h, f, k + 1) > X(ov, h, f, k - 1)) {
      ReturnDown(ov, h, f, d, k);
    } else {
      ReturnRight(ov, h, f, d, k);
    }
  }


  /** The snake returned when the overlap test fires runs from the start
      point to where following its diagonal ended (column xe): all of it
      inside the rectangle, starting short of the far corner and ending
      past the near one. */
  lemma {:induction false} HitInside(ov: seq<int>, h: int, f: Frame, d: int, k: int, xe: int)
    requires 1 <= d <= h && Inv(ov, h, f, d - 1, true)
    requires InF(k, d, f.n, f.m) && InR(k - f.Delta(), d - f.Lag(), f.n, f.m)
    requires FollowOK(Start(ov, h, f, d, k), xe, k, f.n, f.m)
    ensures var s := Start(ov, h, f, d, k);
      && 0 <= s <= xe <= f.n && 0 <= s - k && xe - k <= f.m
      && !(s == f.n && s - k == f.m) && !(xe == 0 && xe - k == 0)
  {
    ReturnInside(ov, h, f, d, k);
  }

  /** The overlap test fired on a point reached by a step down. */
  lemma {:induction false} ReturnDown(ov: seq<int>, h: int, f: Frame, d: int, k: int)
    requires 1 <= d <= h && VecOK(ov, h) && f.n >= 1 && f.m >= 1
    requires InF(k, d, f.n, f.m) && InR(k - f.Delta(), d - f.Lag(), f.n, f.m)
    requires k == FMin(d, f.m) || (k != FMax(d, f.n) && X(ov, h, f, k + 1) > X(ov, h, f, k - 1))
    requires InF(k + 1, d - 1, f.n, f.m) && AtK(ov, h, f, d - 1, true, k + 1)
    requires k != FMin(d, f.m) ==> InF(k - 1, d - 1, f.n, f.m) && AtK(ov, h, f, d - 1, true, k - 1)
    requires d == 1 ==> X(ov, h, f, 0) == 0
    ensures var q := X(ov, h, f, k + 1);
      && 0 <= q <= f.n && 0 <= q - k - 1 < f.m
      && !(q == f.n && q - k == f.m)
  {
    if d == 1 {
      InFBounds(k, d, f.n, f.m);
      assert k + 1 == 0;
    } else if !InR(k + 1 - f.Delta(), d - 1 - f.Lag(), f.n, f.m) {
      DownAtTopEnd(ov, h, f, d, k);
    }
  }


  /** An unforced step down at the top end of the overlap test's range:
      diagonal k - 1 was examined and is strictly inside, so diagonal k + 1,
      which reaches further, cannot have crossed the right edge. */
  lemma {:induction false} DownAtTopEnd(ov: seq<int>, h: int, f: Frame, d: int, k: int)
    requires 2 <= d <= h && VecOK(ov, h) && f.n >= 1 && f.m >= 1
    requires InF(k, d, f.n, f.m) && InR(k - f.Delta(), d - f.Lag(), f.n, f.m)
    requires !InR(k + 1 - f.Delta(), d - 1 - f.Lag(), f.n, f.m)
    requires k == FMin(d, f.m) || (k != FMax(d, f.n) && X(ov, h, f, k + 1) > X(ov, h, f, k - 1))
    requires InF(k + 1, d - 1, f.n, f.m) && AtK(ov, h, f, d - 1, true, k + 1)
    requires k != FMin(d, f.m) ==> InF(k - 1, d - 1, f.n, f.m) && AtK(ov, h, f, d - 1, true, k - 1)
    ensures var q := X(ov, h, f, k + 1);
      && 0 <= q <= f.n && 0 <= q - k - 1 < f.m
      && !(q == f.n && q - k == f.m)
  {
    var n, m := f.n, f.m;
    Neighbours(k, d, n, m);
    InFBounds(k, d, n, m);
    RTopEnd(k - f.Delta(), d - f.Lag(), n, m);
    if k == FMin(d, m) {
      assert d <= m;
      assert k + 1 == -(d - 1);
    } else {
      assert InR(k - 1 - f.Delta(), d - 1 - f.Lag(), f.n, f.m);
      assert k - 1 + 2 <= FMax(d - 1, f.n);
    }
  }


  /** The overlap test fired on a point reached by a step right. */
  lemma {:induction false} ReturnRight(ov: seq<int>, h: int, f: Frame, d: int, k: int)
    requires 1 <= d <= h && VecOK(ov, h) && f.n >= 1 && f.m >= 1
    requires InF(k, d, f.n, f.m) && InR(k - f.Delta(), d - f.Lag(), f.n, f.m)
    requires !(k == FMin(d, f.m) || (k != FMax(d, f.n) && X(ov, h, f, k + 1) > X(ov, h, f, k - 1)))
    requires InF(k - 1, d - 1, f.n, f.m) && AtK(ov, h, f, d - 1, true, k - 1)
    requires k != FMax(d, f.n) ==> InF(k + 1, d - 1, f.n, f.m)
    requires d == 1 ==> X(ov, h, f, 0) == 0
    ensures var q := X(ov, h, f, k - 1);
      && 0 <= q < f.n && 0 <= q - k + 1 <= f.m
      && !(q + 1 == f.n && q - k + 1 == f.m)
  {
    if d == 1 {
      InFBounds(k, d, f.n, f.m);
      assert k - 1 == 0;
    } else if !InR(k - 1 - f.Delta(), d - 1 - f.Lag(), f.n, f.m) {
      RightAtBottomEnd(ov, h, f, d, k);
    }
  }

  /** A step right at the bottom end of the overlap test's range, where
      diagonal k - 1 was not itself examined. */
  lemma {:induction false} RightAtBottomEnd(ov: seq<int>, h: int, f: Frame, d: int, k: int)
    requires 2 <= d <= h && VecOK(ov, h) && f.n >= 1 && f.m >= 1
    requires InF(k, d, f.n, f.m) && InR(k - f.Delta(), d - f.Lag(), f.n, f.m)
    requires !InR(k - 1 - f.Delta(), d - 1 - f.Lag(), f.n, f.m)
    requires !(k == FMin(d, f.m) || (k != FMax(d, f.n) && X(ov, h, f, k + 1) > X(ov, h, f, k - 1)))
    requires InF(k - 1, d - 1, f.n, f.m) && AtK(ov, h, f, d - 1, true, k - 1)
    requires k != FMax(d, f.n) ==> InF(k + 1, d - 1, f.n, f.m)
    ensures var q := X(ov, h, f, k - 1);
      && 0 <= q < f.n && 0 <= q - k + 1 <= f.m
      && !(q + 1 == f.n && q - k + 1 == f.m)
  {
    var n, m := f.n, f.m;
    Neighbours(k, d, n, m);
    InFBounds(k, d, n, m);
    RBottomEnd(k - f.Delta(), d - f.Lag(), n, m);
    if k == FMax(d, n) {
      assert d <= n;
      assert k - 1 == d - 1;
    } else {
      assert k - 1 + 2 <= FMax(d - 1, n);
    }
  }


  // ---------------------------------------------------------------------
  // Step 0

  /** After step 0 each vector holds its start corner on diagonal 0, which
      is all the invariant asks of step 0. */
  lemma {:induction false} InitInv(v: seq<int>, h: int, f: Frame, checks: bool)
    requires VecOK(v, h) && f.n >= 1 && f.m >= 1 && X(v, h, f, 0) == 0
    ensures Inv(v, h, f, 0, checks)
  {
    forall k | InF(k, 0, f.n, f.m)
      ensures AtK(v, h, f, 0, checks, k)
    {
      assert k == 0;
    }
  }

  /** In a 1 by 1 rectangle the reverse search's first diagonal at step 1
      is forced to the left of its start corner, all the way to the near
      edge. */
  lemma {:induction false} UnitStart(ov: seq<int>, h: int, endx: int, checks: bool)
    requires h >= 1 && Inv(ov, h, Frame(false, endx, 1, 1), 0, checks)
    ensures Start(ov, h, Frame(false, endx, 1, 1), 1, 1) == 1
  {
  }

  // ---------------------------------------------------------------------
  // The reverse choice as written

  /** The reverse loop's choice as the source writes it: the "up" test
      reads the reverse vector at diagonal -1 whatever diagonal is being
      extended, so in frame coordinates it compares against the point of
      diagonal 1 rather than diagonal j + 1. */
  function StartAsWritten(v: seq<int>, h: int, f: Frame, d: int, j: int): (x: int)
    requires VecOK(v, h) && 1 <= d <= h && f.n >= 1 && f.m >= 1
    requires InF(j, d, f.n, f.m)
    ensures j == 0 ==> x == Start(v, h, f, d, j)
    ensures (|| j == FMin(d, f.m) || j == FMax(d, f.n)
             || (X(v, h, f, 1) > X(v, h, f, j - 1)) == (X(v, h, f, j + 1) > X(v, h, f, j - 1)))
            ==> x == Start(v, h, f, d, j)
  {
    if j == FMin(d, f.m) || (j != FMax(d, f.n) && X(v, h, f, 1) > X(v, h, f, j - 1))
    then X(v, h, f, j + 1)
    else X(v, h, f, j - 1) + 1
  }

  /** A reverse frontier after step 3 for a 5 by 11 rectangle that keeps the
      invariant, yet on diagonal -2 of step 4 the choice as written starts
      two columns behind the furthest-reaching start. */
  lemma AsWrittenFallsBehind()
    ensures var v := [0, 0, 3, 3, 4, 0, 3, 3, 0];
            var f := Frame(false, 5, 5, 11);
            && Inv(v, 4, f, 3, true)
            && StartAsWritten(v, 4, f, 4, -2) == 3
            && Start(v, 4, f, 4, -2) == 5
  {
    var v := [0, 0, 3, 3, 4, 0, 3, 3, 0];
    var f := Frame(false, 5, 5, 11);
    forall k | InF(k, 3, f.n, f.m)
      ensures AtK(v, 4, f, 3, true, k)
    {
      assert k == -3 || k == -1 || k == 1 || k == 3;
    }
  }
}
