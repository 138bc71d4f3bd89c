/** DiffAnalyze.FindSnake on token hashes, as a pure function, with the
    reverse step's "up or left" test either as the source writes it
    (comparing against the reverse vector's slot -1) or as the forward step
    mirrors it (comparing against slot k - 1). Analyze.FindSnake is the
    search the model runs, with the second test; this module replays the
    first on one pair of inputs to show where it goes. */
module ReverseChoice {
  import opened JavaTypes
  import opened Frontier
  import opened Analyze

  /** SymmetricVector.Get on a vector as a map from diagonal to column: a
      slot never set still holds the 0 that `new int[]` put there. */
  function Cell(v: map<int, int>, k: int): int
  {
    if k in v then v[k] else 0
  }

  /** The outcome of a pass of the search: the middle snake when the two
      searches meet, else the pass's updated vector; `Thrown` when a token
      is looked up outside its sequence, where the source's table lookup
      throws. */
  datatype Pass = Met(s: Snake) | Next(v: map<int, int>) | Thrown

  /** FollowDiagonal on the hashes A and B: from (x, y), step while both
      ends are not reached and the hashes agree. None when the pair to
      compare lies outside the sequences. */
  function Follow(A: seq<bv32>, B: seq<bv32>, x: int, y: int, endx: int, endy: int): (r: Option<(int, int)>)
    ensures r.Some? ==> r.value.0 - r.value.1 == x - y && x <= r.value.0
    ensures r.Some? && x < endx && y < endy ==> r.value.0 <= endx && r.value.1 <= endy
    decreases endx - x
  {
    if x < endx && y < endy then
      if !(0 <= x < |A| && 0 <= y < |B|) then None
      else if A[x] == B[y] then Follow(A, B, x + 1, y + 1, endx, endy)
      else Some((x, y))
    else Some((x, y))
  }

  /** FollowReverseDiagonal on the hashes: from (x, y), step back while
      both near edges are not reached and the hashes of the pair before
      agree. */
  function FollowBack(A: seq<bv32>, B: seq<bv32>, x: int, y: int, startx: int, starty: int): (r: Option<(int, int)>)
    ensures r.Some? ==> r.value.0 - r.value.1 == x - y && r.value.0 <= x
    ensures r.Some? && x > startx && y > starty ==> startx <= r.value.0 && starty <= r.value.1
    decreases x - startx
  {
    if x > startx && y > starty then
      if !(0 <= x - 1 < |A| && 0 <= y - 1 < |B|) then None
      else if A[x - 1] == B[y - 1] then FollowBack(A, B, x - 1, y - 1, startx, starty)
      else Some((x, y))
    else Some((x, y))
  }

  /** The forward loop's body for diagonal k of step d, fV being fv and
      rV being rv: start down from k + 1 or right from k - 1, follow the
      diagonal, and, when delta is odd, stop at an overlap with the reverse
      search one step behind; else store the end of the diagonal. */
  function ForwardAt(A: seq<bv32>, B: seq<bv32>, startx: int, starty: int, endx: int, endy: int,
                     d: int, k: int, fv: map<int, int>, rv: map<int, int>): Pass
  {
    var n, m := endx - startx, endy - starty;
    var delta := n - m;
    var minkF, maxkF := FMin(d, m), FMax(d, n);
    var x := if k == minkF || (k != maxkF && Cell(fv, k + 1) > Cell(fv, k - 1))
             then Cell(fv, k + 1) else Cell(fv, k - 1) + 1;
    var y := MapXToY(x, k, startx, starty);
    match Follow(A, B, x, y, endx, endy)
    case None => Thrown
    case Some((u, v)) =>
      var dr := d - 1;
      var pminkR := if dr <= n then -dr else -(2 * n - dr);
      var pmaxkR := if dr <= m then dr else 2 * m - dr;
      if delta % 2 != 0 && pminkR <= k - delta <= pmaxkR && u >= Cell(rv, k - delta)
      then Met(Snake(x, y, u, v))
      else Next(fv[k := u])
  }

  /** The forward loop of step d from diagonal k on. */
  function ForwardPass(A: seq<bv32>, B: seq<bv32>, startx: int, starty: int, endx: int, endy: int,
                       d: int, k: int, fv: map<int, int>, rv: map<int, int>): Pass
    decreases FMax(d, endx - startx) - k
  {
    if k > FMax(d, endx - startx) then Next(fv)
    else
      match ForwardAt(A, B, startx, starty, endx, endy, d, k, fv, rv)
      case Next(fv') => ForwardPass(A, B, startx, starty, endx, endy, d, k + 2, fv', rv)
      case stop => stop
  }

  /** The reverse loop's body for diagonal k of step d: start up from
      k - 1 or left from k + 1, follow the diagonal back, and, when delta
      is even, stop at an overlap with the forward search of the same
      step; else store the start of the diagonal. The up test compares
      slot k + 1 against slot -1 when `asWritten` holds and against slot
      k - 1 otherwise. */
  function ReverseAt(A: seq<bv32>, B: seq<bv32>, startx: int, starty: int, endx: int, endy: int,
                     d: int, k: int, fv: map<int, int>, rv: map<int, int>, asWritten: bool): Pass
  {
    var n, m := endx - startx, endy - starty;
    var delta := n - m;
    var minkF, maxkF := FMin(d, m), FMax(d, n);
    var minkR, maxkR := -maxkF, -minkF;
    var probe := if asWritten then -1 else k - 1;
    var u := if k == maxkR || (k != minkR && Cell(rv, probe) < Cell(rv, k + 1))
             then Cell(rv, k - 1) else Cell(rv, k + 1) - 1;
    var v := MapXToY(u, k, endx, endy);
    match FollowBack(A, B, u, v, startx, starty)
    case None => Thrown
    case Some((x, y)) =>
      if delta % 2 == 0 && minkF <= k + delta <= maxkF && x <= Cell(fv, k + delta)
      then Met(Snake(x, y, u, v))
      else Next(rv[k := x])
  }

  /** The reverse loop of step d from diagonal k on. */
  function ReversePass(A: seq<bv32>, B: seq<bv32>, startx: int, starty: int, endx: int, endy: int,
                       d: int, k: int, fv: map<int, int>, rv: map<int, int>, asWritten: bool): Pass
    decreases -FMin(d, endy - starty) - k
  {
    if k > -FMin(d, endy - starty) then Next(rv)
    else
      match ReverseAt(A, B, startx, starty, endx, endy, d, k, fv, rv, asWritten)
      case Next(rv') => ReversePass(A, B, startx, starty, endx, endy, d, k + 2, fv, rv', asWritten)
      case stop => stop
  }

  /** Steps d .. maxD of the search, then the middle snake. None when a
      lookup throws. */
  function Search(A: seq<bv32>, B: seq<bv32>, startx: int, starty: int, endx: int, endy: int,
                  maxD: int, d: int, fv: map<int, int>, rv: map<int, int>, asWritten: bool): Option<Snake>
    decreases maxD - d
  {
    if d > maxD then Middle(A, B, startx, starty, endx, endy)
    else
      match ForwardPass(A, B, startx, starty, endx, endy, d, FMin(d, endy - starty), fv, rv)
      case Thrown => None
      case Met(s) => Some(s)
      case Next(fv') =>
        match ReversePass(A, B, startx, starty, endx, endy, d, -FMax(d, endx - startx), fv', rv, asWritten)
        case Thrown => None
        case Met(s) => Some(s)
        case Next(rv') => Search(A, B, startx, starty, endx, endy, maxD, d + 1, fv', rv', asWritten)
  }

  /** The fallback: the diagonal run through the middle of the rectangle. */
  function Middle(A: seq<bv32>, B: seq<bv32>, startx: int, starty: int, endx: int, endy: int): Option<Snake>
  {
    var mx, my := startx + (endx - startx) / 2, starty + (endy - starty) / 2;
    match FollowBack(A, B, mx, my, startx, starty)
    case None => None
    case Some((x, y)) =>
      match Follow(A, B, mx, my, endx, endy)
      case None => None
      case Some((u, v)) => Some(Snake(x, y, u, v))
  }

  /** FindSnake from the vectors fv and rv the previous call left behind:
      a common prefix, else a common suffix, else the search. */
  function FindSnake(A: seq<bv32>, B: seq<bv32>, startx: int, starty: int, endx: int, endy: int,
                     maxD: int, fv: map<int, int>, rv: map<int, int>, asWritten: bool): Option<Snake>
  {
    match Follow(A, B, startx, starty, endx, endy)
    case None => None
    case Some((pu, pv)) =>
      if pu > startx then Some(Snake(startx, starty, pu, pv))
      else
        match FollowBack(A, B, endx, endy, startx, starty)
        case None => None
        case Some((sx, sy)) =>
          if endx > sx then Some(Snake(sx, sy, endx, endy))
          else Search(A, B, startx, starty, endx, endy, maxD, 1, fv[0 := startx], rv[0 := endx], asWritten)
  }

  /** The two files of the example: "a a b b b" against
      "b b b b b a a b b a a", one token per line, a hashing as 0 and b as
      1 (any two distinct hashes give the same search). */
  const FileA: seq<bv32> := [0, 0, 1, 1, 1]
  const FileB: seq<bv32> := [1, 1, 1, 1, 1, 0, 0, 1, 1, 0, 0]

  /** The vectors after each step of the search on the two files, the
      forward one F and the reverse one R; they agree for both tests up to
      step 3. */
  const F0: map<int, int> := map[0 := 0]
  const R0: map<int, int> := map[0 := 5]
  const F1: map<int, int> := F0[-1 := 0][1 := 1]
  const R1: map<int, int> := R0[-1 := 4][1 := 5]
  const F2: map<int, int> := F1[-2 := 0][0 := 1][2 := 5]
  const R2: map<int, int> := R1[-2 := 3][0 := 4][2 := 3]
  const F3: map<int, int> := F2[-3 := 0][-1 := 1][1 := 5][3 := 6]
  const R3: map<int, int> := R2[-3 := 0][-1 := 3][1 := 0][3 := 3]
  const F4: map<int, int> := F3[-4 := 0][-2 := 1][0 := 5][2 := 6][4 := 7]
  const R4: map<int, int> := R3[-4 := -1][-2 := 1][0 := -1][2 := 1][4 := 2]
  const F5: map<int, int> := F4[-5 := 4][-3 := 1][-1 := 5][1 := 6][3 := 7][5 := 8]

  /** The forward loop of step 1 on the two files. */
  lemma Forward1()
    ensures ForwardPass(FileA, FileB, 0, 0, 5, 11, 1, -1, F0, R0) == Next(F1)
  {
    assert Follow(FileA, FileB, 0, 1, 5, 11) == Some((0, 1));
    assert ForwardAt(FileA, FileB, 0, 0, 5, 11, 1, -1, F0, R0) == Next(F0[-1 := 0]);
    assert Follow(FileA, FileB, 1, 0, 5, 11) == Some((1, 0));
    assert ForwardAt(FileA, FileB, 0, 0, 5, 11, 1, 1, F0[-1 := 0], R0) == Next(F0[-1 := 0][1 := 1]);
    assert ForwardPass(FileA, FileB, 0, 0, 5, 11, 1, 3, F0[-1 := 0][1 := 1], R0) == Next(F0[-1 := 0][1 := 1]);
  }

  /** The reverse loop of step 1 on the two files, with either test. */
  lemma Reverse1(w: bool)
    ensures ReversePass(FileA, FileB, 0, 0, 5, 11, 1, -1, F1, R0, w) == Next(R1)
  {
    assert FollowBack(FileA, FileB, 4, 11, 0, 0) == Some((4, 11));
    assert ReverseAt(FileA, FileB, 0, 0, 5, 11, 1, -1, F1, R0, w) == Next(R0[-1 := 4]);
    assert FollowBack(FileA, FileB, 5, 10, 0, 0) == Some((5, 10));
    assert ReverseAt(FileA, FileB, 0, 0, 5, 11, 1, 1, F1, R0[-1 := 4], w) == Next(R0[-1 := 4][1 := 5]);
    assert ReversePass(FileA, FileB, 0, 0, 5, 11, 1, 3, F1, R0[-1 := 4][1 := 5], w) == Next(R0[-1 := 4][1 := 5]);
  }

  /** The forward loop of step 2 on the two files, diagonals -2 to 0. */
  lemma Forward2Part1()
    ensures ForwardPass(FileA, FileB, 0, 0, 5, 11, 2, -2, F1, R1) == ForwardPass(FileA, FileB, 0, 0, 5, 11, 2, 2, F1[-2 := 0][0 := 1], R1)
  {
    assert Follow(FileA, FileB, 0, 2, 5, 11) == Some((0, 2));
    assert ForwardAt(FileA, FileB, 0, 0, 5, 11, 2, -2, F1, R1) == Next(F1[-2 := 0]);
    assert Follow(FileA, FileB, 1, 1, 5, 11) == Some((1, 1));
    assert ForwardAt(FileA, FileB, 0, 0, 5, 11, 2, 0, F1[-2 := 0], R1) == Next(F1[-2 := 0][0 := 1]);
  }

  /** The forward loop of step 2 on the two files, diagonal 2. */
  lemma Forward2Part2()
    ensures ForwardPass(FileA, FileB, 0, 0, 5, 11, 2, 2, F1[-2 := 0][0 := 1], R1) == Next(F2)
  {
    assert Follow(FileA, FileB, 2, 0, 5, 11) == Some((5, 3));
    assert ForwardAt(FileA, FileB, 0, 0, 5, 11, 2, 2, F1[-2 := 0][0 := 1], R1) == Next(F1[-2 := 0][0 := 1][2 := 5]);
    assert ForwardPass(FileA, FileB, 0, 0, 5, 11, 2, 4, F1[-2 := 0][0 := 1][2 := 5], R1) == Next(F1[-2 := 0][0 := 1][2 := 5]);
  }

  /** The reverse loop of step 2 on the two files, with either test (part 1). */
  lemma Reverse2Part1(w: bool)
    ensures ReversePass(FileA, FileB, 0, 0, 5, 11, 2, -2, F2, R1, w) == ReversePass(FileA, FileB, 0, 0, 5, 11, 2, 2, F2, R1[-2 := 3][0 := 4], w)
  {
    assert FollowBack(FileA, FileB, 3, 11, 0, 0) == Some((3, 11));
    assert ReverseAt(FileA, FileB, 0, 0, 5, 11, 2, -2, F2, R1, w) == Next(R1[-2 := 3]);
    assert FollowBack(FileA, FileB, 4, 10, 0, 0) == Some((4, 10));
    assert ReverseAt(FileA, FileB, 0, 0, 5, 11, 2, 0, F2, R1[-2 := 3], w) == Next(R1[-2 := 3][0 := 4]);
  }

  /** The reverse loop of step 2 on the two files, with either test (part 2). */
  lemma Reverse2Part2(w: bool)
    ensures ReversePass(FileA, FileB, 0, 0, 5, 11, 2, 2, F2, R1[-2 := 3][0 := 4], w) == Next(R2)
  {
    assert FollowBack(FileA, FileB, 5, 9, 0, 0) == Some((3, 7));
    assert ReverseAt(FileA, FileB, 0, 0, 5, 11, 2, 2, F2, R1[-2 := 3][0 := 4], w) == Next(R1[-2 := 3][0 := 4][2 := 3]);
    assert ReversePass(FileA, FileB, 0, 0, 5, 11, 2, 4, F2, R1[-2 := 3][0 := 4][2 := 3], w) == Next(R1[-2 := 3][0 := 4][2 := 3]);
  }

  /** The forward loop of step 3 on the two files, diagonals -3 to -1. */
  lemma Forward3Part1()
    ensures ForwardPass(FileA, FileB, 0, 0, 5, 11, 3, -3, F2, R2) == ForwardPass(FileA, FileB, 0, 0, 5, 11, 3, 1, F2[-3 := 0][-1 := 1], R2)
  {
    assert Follow(FileA, FileB, 0, 3, 5, 11) == Some((0, 3));
    assert ForwardAt(FileA, FileB, 0, 0, 5, 11, 3, -3, F2, R2) == Next(F2[-3 := 0]);
    assert Follow(FileA, FileB, 1, 2, 5, 11) == Some((1, 2));
    assert ForwardAt(FileA, FileB, 0, 0, 5, 11, 3, -1, F2[-3 := 0], R2) == Next(F2[-3 := 0][-1 := 1]);
  }

  /** The forward loop of step 3 on the two files, diagonals 1 to 3. */
  lemma Forward3Part2()
    ensures ForwardPass(FileA, FileB, 0, 0, 5, 11, 3, 1, F2[-3 := 0][-1 := 1], R2) == Next(F3)
  {
    assert Follow(FileA, FileB, 5, 4, 5, 11) == Some((5, 4));
    assert ForwardAt(FileA, FileB, 0, 0, 5, 11, 3, 1, F2[-3 := 0][-1 := 1], R2) == Next(F2[-3 := 0][-1 := 1][1 := 5]);
    assert Follow(FileA, FileB, 6, 3, 5, 11) == Some((6, 3));
    assert ForwardAt(FileA, FileB, 0, 0, 5, 11, 3, 3, F2[-3 := 0][-1 := 1][1 := 5], R2) == Next(F2[-3 := 0][-1 := 1][1 := 5][3 := 6]);
    assert ForwardPass(FileA, FileB, 0, 0, 5, 11, 3, 5, F2[-3 := 0][-1 := 1][1 := 5][3 := 6], R2) == Next(F2[-3 := 0][-1 := 1][1 := 5][3 := 6]);
  }

  /** The reverse loop of step 3 on the two files, with either test (part 1). */
  lemma Reverse3Part1(w: bool)
    ensures ReversePass(FileA, FileB, 0, 0, 5, 11, 3, -3, F3, R2, w) == ReversePass(FileA, FileB, 0, 0, 5, 11, 3, 1, F3, R2[-3 := 0][-1 := 3], w)
  {
    assert FollowBack(FileA, FileB, 2, 11, 0, 0) == Some((0, 9));
    assert ReverseAt(FileA, FileB, 0, 0, 5, 11, 3, -3, F3, R2, w) == Next(R2[-3 := 0]);
    assert FollowBack(FileA, FileB, 3, 10, 0, 0) == Some((3, 10));
    assert ReverseAt(FileA, FileB, 0, 0, 5, 11, 3, -1, F3, R2[-3 := 0], w) == Next(R2[-3 := 0][-1 := 3]);
  }

  /** The reverse loop of step 3 on the two files, with either test (part 2). */
  lemma Reverse3Part2(w: bool)
    ensures ReversePass(FileA, FileB, 0, 0, 5, 11, 3, 1, F3, R2[-3 := 0][-1 := 3], w) == Next(R3)
  {
    assert FollowBack(FileA, FileB, 2, 7, 0, 0) == Some((0, 5));
    assert ReverseAt(FileA, FileB, 0, 0, 5, 11, 3, 1, F3, R2[-3 := 0][-1 := 3], w) == Next(R2[-3 := 0][-1 := 3][1 := 0]);
    assert FollowBack(FileA, FileB, 3, 6, 0, 0) == Some((3, 6));
    assert ReverseAt(FileA, FileB, 0, 0, 5, 11, 3, 3, F3, R2[-3 := 0][-1 := 3][1 := 0], w) == Next(R2[-3 := 0][-1 := 3][1 := 0][3 := 3]);
    assert ReversePass(FileA, FileB, 0, 0, 5, 11, 3, 5, F3, R2[-3 := 0][-1 := 3][1 := 0][3 := 3], w) == Next(R2[-3 := 0][-1 := 3][1 := 0][3 := 3]);
  }

  /** The forward loop of step 4 on the two files, diagonals -4 to -2. */
  lemma Forward4Part1()
    ensures ForwardPass(FileA, FileB, 0, 0, 5, 11, 4, -4, F3, R3) == ForwardPass(FileA, FileB, 0, 0, 5, 11, 4, 0, F3[-4 := 0][-2 := 1], R3)
  {
    assert Follow(FileA, FileB, 0, 4, 5, 11) == Some((0, 4));
    assert ForwardAt(FileA, FileB, 0, 0, 5, 11, 4, -4, F3, R3) == Next(F3[-4 := 0]);
    assert Follow(FileA, FileB, 1, 3, 5, 11) == Some((1, 3));
    assert ForwardAt(FileA, FileB, 0, 0, 5, 11, 4, -2, F3[-4 := 0], R3) == Next(F3[-4 := 0][-2 := 1]);
  }

  /** The forward loop of step 4 on the two files, diagonals 0 to 2. */
  lemma Forward4Part2()
    ensures ForwardPass(FileA, FileB, 0, 0, 5, 11, 4, 0, F3[-4 := 0][-2 := 1], R3) == ForwardPass(FileA, FileB, 0, 0, 5, 11, 4, 4, F3[-4 := 0][-2 := 1][0 := 5][2 := 6], R3)
  {
    assert Follow(FileA, FileB, 5, 5, 5, 11) == Some((5, 5));
    assert ForwardAt(FileA, FileB, 0, 0, 5, 11, 4, 0, F3[-4 := 0][-2 := 1], R3) == Next(F3[-4 := 0][-2 := 1][0 := 5]);
    assert Follow(FileA, FileB, 6, 4, 5, 11) == Some((6, 4));
    assert ForwardAt(FileA, FileB, 0, 0, 5, 11, 4, 2, F3[-4 := 0][-2 := 1][0 := 5], R3) == Next(F3[-4 := 0][-2 := 1][0 := 5][2 := 6]);
  }

  /** The forward loop of step 4 on the two files, diagonal 4. */
  lemma Forward4Part3()
    ensures ForwardPass(FileA, FileB, 0, 0, 5, 11, 4, 4, F3[-4 := 0][-2 := 1][0 := 5][2 := 6], R3) == Next(F4)
  {
    assert Follow(FileA, FileB, 7, 3, 5, 11) == Some((7, 3));
    assert ForwardAt(FileA, FileB, 0, 0, 5, 11, 4, 4, F3[-4 := 0][-2 := 1][0 := 5][2 := 6], R3) == Next(F3[-4 := 0][-2 := 1][0 := 5][2 := 6][4 := 7]);
    assert ForwardPass(FileA, FileB, 0, 0, 5, 11, 4, 6, F3[-4 := 0][-2 := 1][0 := 5][2 := 6][4 := 7], R3) == Next(F3[-4 := 0][-2 := 1][0 := 5][2 := 6][4 := 7]);
  }

  /** The reverse loop of step 4 on the two files, with the test as written (part 1). */
  lemma WrittenReverse4Part1()
    ensures ReversePass(FileA, FileB, 0, 0, 5, 11, 4, -4, F4, R3, true) == ReversePass(FileA, FileB, 0, 0, 5, 11, 4, 0, F4, R3[-4 := -1][-2 := 1], true)
  {
    assert FollowBack(FileA, FileB, -1, 9, 0, 0) == Some((-1, 9));
    assert ReverseAt(FileA, FileB, 0, 0, 5, 11, 4, -4, F4, R3, true) == Next(R3[-4 := -1]);
    assert FollowBack(FileA, FileB, 2, 10, 0, 0) == Some((1, 9));
    assert ReverseAt(FileA, FileB, 0, 0, 5, 11, 4, -2, F4, R3[-4 := -1], true) == Next(R3[-4 := -1][-2 := 1]);
  }

  /** The reverse loop of step 4 on the two files, with the test as written (part 2). */
  lemma WrittenReverse4Part2()
    ensures ReversePass(FileA, FileB, 0, 0, 5, 11, 4, 0, F4, R3[-4 := -1][-2 := 1], true) == ReversePass(FileA, FileB, 0, 0, 5, 11, 4, 4, F4, R3[-4 := -1][-2 := 1][0 := -1][2 := 1], true)
  {
    assert FollowBack(FileA, FileB, -1, 5, 0, 0) == Some((-1, 5));
    assert ReverseAt(FileA, FileB, 0, 0, 5, 11, 4, 0, F4, R3[-4 := -1][-2 := 1], true) == Next(R3[-4 := -1][-2 := 1][0 := -1]);
    assert FollowBack(FileA, FileB, 2, 6, 0, 0) == Some((1, 5));
    assert ReverseAt(FileA, FileB, 0, 0, 5, 11, 4, 2, F4, R3[-4 := -1][-2 := 1][0 := -1], true) == Next(R3[-4 := -1][-2 := 1][0 := -1][2 := 1]);
  }

  /** The reverse loop of step 4 on the two files, with the test as written (part 3). */
  lemma WrittenReverse4Part3()
    ensures ReversePass(FileA, FileB, 0, 0, 5, 11, 4, 4, F4, R3[-4 := -1][-2 := 1][0 := -1][2 := 1], true) == Next(R4)
  {
    assert FollowBack(FileA, FileB, 3, 5, 0, 0) == Some((2, 4));
    assert ReverseAt(FileA, FileB, 0, 0, 5, 11, 4, 4, F4, R3[-4 := -1][-2 := 1][0 := -1][2 := 1], true) == Next(R3[-4 := -1][-2 := 1][0 := -1][2 := 1][4 := 2]);
    assert ReversePass(FileA, FileB, 0, 0, 5, 11, 4, 6, F4, R3[-4 := -1][-2 := 1][0 := -1][2 := 1][4 := 2], true) == Next(R3[-4 := -1][-2 := 1][0 := -1][2 := 1][4 := 2]);
  }

  /** The reverse loop of step 4 on the two files, with the mirrored test (part 1). */
  lemma MirroredReverse4Part1()
    ensures ReversePass(FileA, FileB, 0, 0, 5, 11, 4, -4, F4, R3, false) == ReversePass(FileA, FileB, 0, 0, 5, 11, 4, 0, F4, R3[-4 := -1][-2 := 0], false)
  {
    assert FollowBack(FileA, FileB, -1, 9, 0, 0) == Some((-1, 9));
    assert ReverseAt(FileA, FileB, 0, 0, 5, 11, 4, -4, F4, R3, false) == Next(R3[-4 := -1]);
    assert FollowBack(FileA, FileB, 0, 8, 0, 0) == Some((0, 8));
    assert ReverseAt(FileA, FileB, 0, 0, 5, 11, 4, -2, F4, R3[-4 := -1], false) == Next(R3[-4 := -1][-2 := 0]);
  }

  /** The reverse loop of step 4 on the two files, with the mirrored test (part 2). */
  lemma MirroredReverse4Part2()
    ensures ReversePass(FileA, FileB, 0, 0, 5, 11, 4, 0, F4, R3[-4 := -1][-2 := 0], false) == Met(Snake(0, 4, 0, 4))
  {
    assert FollowBack(FileA, FileB, -1, 5, 0, 0) == Some((-1, 5));
    assert ReverseAt(FileA, FileB, 0, 0, 5, 11, 4, 0, F4, R3[-4 := -1][-2 := 0], false) == Next(R3[-4 := -1][-2 := 0][0 := -1]);
    assert FollowBack(FileA, FileB, 0, 4, 0, 0) == Some((0, 4));
    assert ReverseAt(FileA, FileB, 0, 0, 5, 11, 4, 2, F4, R3[-4 := -1][-2 := 0][0 := -1], false) == Met(Snake(0, 4, 0, 4));
  }

  /** The forward loop of step 5 on the two files, diagonals -5 to -3. */
  lemma Forward5Part1()
    ensures ForwardPass(FileA, FileB, 0, 0, 5, 11, 5, -5, F4, R4) == ForwardPass(FileA, FileB, 0, 0, 5, 11, 5, -1, F4[-5 := 4][-3 := 1], R4)
  {
    assert Follow(FileA, FileB, 0, 5, 5, 11) == Some((4, 9));
    assert ForwardAt(FileA, FileB, 0, 0, 5, 11, 5, -5, F4, R4) == Next(F4[-5 := 4]);
    assert Follow(FileA, FileB, 1, 4, 5, 11) == Some((1, 4));
    assert ForwardAt(FileA, FileB, 0, 0, 5, 11, 5, -3, F4[-5 := 4], R4) == Next(F4[-5 := 4][-3 := 1]);
  }

  /** The forward loop of step 5 on the two files, diagonals -1 to 1. */
  lemma Forward5Part2()
    ensures ForwardPass(FileA, FileB, 0, 0, 5, 11, 5, -1, F4[-5 := 4][-3 := 1], R4) == ForwardPass(FileA, FileB, 0, 0, 5, 11, 5, 3, F4[-5 := 4][-3 := 1][-1 := 5][1 := 6], R4)
  {
    assert Follow(FileA, FileB, 5, 6, 5, 11) == Some((5, 6));
    assert ForwardAt(FileA, FileB, 0, 0, 5, 11, 5, -1, F4[-5 := 4][-3 := 1], R4) == Next(F4[-5 := 4][-3 := 1][-1 := 5]);
    assert Follow(FileA, FileB, 6, 5, 5, 11) == Some((6, 5));
    assert ForwardAt(FileA, FileB, 0, 0, 5, 11, 5, 1, F4[-5 := 4][-3 := 1][-1 := 5], R4) == Next(F4[-5 := 4][-3 := 1][-1 := 5][1 := 6]);
  }

  /** The forward loop of step 5 on the two files, diagonals 3 to 5. */
  lemma Forward5Part3()
    ensures ForwardPass(FileA, FileB, 0, 0, 5, 11, 5, 3, F4[-5 := 4][-3 := 1][-1 := 5][1 := 6], R4) == Next(F5)
  {
    assert Follow(FileA, FileB, 7, 4, 5, 11) == Some((7, 4));
    assert ForwardAt(FileA, FileB, 0, 0, 5, 11, 5, 3, F4[-5 := 4][-3 := 1][-1 := 5][1 := 6], R4) == Next(F4[-5 := 4][-3 := 1][-1 := 5][1 := 6][3 := 7]);
    assert Follow(FileA, FileB, 8, 3, 5, 11) == Some((8, 3));
    assert ForwardAt(FileA, FileB, 0, 0, 5, 11, 5, 5, F4[-5 := 4][-3 := 1][-1 := 5][1 := 6][3 := 7], R4) == Next(F4[-5 := 4][-3 := 1][-1 := 5][1 := 6][3 := 7][5 := 8]);
    assert ForwardPass(FileA, FileB, 0, 0, 5, 11, 5, 7, F4[-5 := 4][-3 := 1][-1 := 5][1 := 6][3 := 7][5 := 8], R4) == Next(F4[-5 := 4][-3 := 1][-1 := 5][1 := 6][3 := 7][5 := 8]);
  }

  /** The reverse loop of step 5 on the two files, with the test as written (part 1). */
  lemma WrittenReverse5Part1()
    ensures ReversePass(FileA, FileB, 0, 0, 5, 11, 5, -5, F5, R4, true) == ReversePass(FileA, FileB, 0, 0, 5, 11, 5, -1, F5, R4[-5 := -2][-3 := 0], true)
  {
    assert FollowBack(FileA, FileB, -2, 9, 0, 0) == Some((-2, 9));
    assert ReverseAt(FileA, FileB, 0, 0, 5, 11, 5, -5, F5, R4, true) == Next(R4[-5 := -2]);
    assert FollowBack(FileA, FileB, 0, 9, 0, 0) == Some((0, 9));
    assert ReverseAt(FileA, FileB, 0, 0, 5, 11, 5, -3, F5, R4[-5 := -2], true) == Next(R4[-5 := -2][-3 := 0]);
  }

  /** The reverse loop of step 5 on the two files, with the test as written (part 2). */
  lemma WrittenReverse5Part2()
    ensures ReversePass(FileA, FileB, 0, 0, 5, 11, 5, -1, F5, R4[-5 := -2][-3 := 0], true) == Met(Snake(-1, 4, -1, 4))
  {
    assert FollowBack(FileA, FileB, -2, 5, 0, 0) == Some((-2, 5));
    assert ReverseAt(FileA, FileB, 0, 0, 5, 11, 5, -1, F5, R4[-5 := -2][-3 := 0], true) == Next(R4[-5 := -2][-3 := 0][-1 := -2]);
    assert FollowBack(FileA, FileB, -1, 4, 0, 0) == Some((-1, 4));
    assert ReverseAt(FileA, FileB, 0, 0, 5, 11, 5, 1, F5, R4[-5 := -2][-3 := 0][-1 := -2], true) == Met(Snake(-1, 4, -1, 4));
  }

  /** Comparing the two files, Init picks depth 42, and the first
      FindSnake, over the whole 5 by 11 rectangle with fresh vectors, meets
      at step 5 of the reverse search. As written it returns the empty
      snake at (-1, 4), a column left of the rectangle, so LCS goes on with
      the rectangle (-1, 4) .. (5, 11), whose FindSnake looks up token -1
      of file 1 at once: the source throws. With the mirrored test the same
      search returns the empty snake at (0, 4), inside the rectangle. */
  lemma AsWrittenLeavesRectangle()
    ensures InitialMaxD(|FileA|, |FileB|, 0) == 42
    ensures FindSnake(FileA, FileB, 0, 0, 5, 11, 42, map[], map[], true) == Some(Snake(-1, 4, -1, 4))
    ensures FindSnake(FileA, FileB, 0, 0, 5, 11, 42, map[], map[], false) == Some(Snake(0, 4, 0, 4))
    ensures forall fv, rv, w :: FindSnake(FileA, FileB, -1, 4, 5, 11, 42, fv, rv, w) == None
  {
    assert Follow(FileA, FileB, 0, 0, 5, 11) == Some((0, 0));
    assert FollowBack(FileA, FileB, 5, 11, 0, 0) == Some((5, 11));
    assert map[0 := 0] == F0 && map[0 := 5] == R0;
    Forward1();
    Reverse1(true);
    Reverse1(false);
    Forward2Part1();
    Forward2Part2();
    Reverse2Part1(true);
    Reverse2Part1(false);
    Reverse2Part2(true);
    Reverse2Part2(false);
    Forward3Part1();
    Forward3Part2();
    Reverse3Part1(true);
    Reverse3Part1(false);
    Reverse3Part2(true);
    Reverse3Part2(false);
    Forward4Part1();
    Forward4Part2();
    Forward4Part3();
    WrittenReverse4Part1();
    WrittenReverse4Part2();
    WrittenReverse4Part3();
    MirroredReverse4Part1();
    MirroredReverse4Part2();
    Forward5Part1();
    Forward5Part2();
    Forward5Part3();
    WrittenReverse5Part1();
    WrittenReverse5Part2();
    assert Follow(FileA, FileB, -1, 4, 5, 11) == None;
  }
}
