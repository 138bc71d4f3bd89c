/** The diff printer: the snake list of an analysis of two files, written
    out as a normal, context, unified, RCS, HTML or summary diff. */
module Diffs {
  import opened JavaTypes
  import opened Flags
  import opened Buffered
  import opened Compare
  import opened Sequences
  import opened Analyze

  /** P4TUNE_FILESYS_BUFSIZE: the buffer each file is read through. */
  const FILESYS_BUFSIZE := 64 * 1024 * 1024

  // ---------------------------------------------------------------------
  // Text.

  /** A string printed to the writer: each character as its UTF-16 unit
      (every literal printed here is ASCII). */
  function Str(s: string): (r: seq<JChar>)
    ensures |r| == |s|
  {
    seq(|s|, i requires 0 <= i < |s| => (s[i] as int) % 0x1_0000)
  }

  /** `%d`. */
  function Dec(n: int): seq<JChar>
  {
    Str(IntToString(n))
  }

  // ---------------------------------------------------------------------
  // Snakes and the gaps between them.

  /** The gap between two consecutive snakes: lines x0 .. x1 - 1 of file 1
      give way to lines y0 .. y1 - 1 of file 2. */
  datatype Hunk = Hunk(x0: int, x1: int, y0: int, y1: int)

  /** A gap with no line on either side. */
  predicate Empty(h: Hunk)
  {
    h.x1 <= h.x0 && h.y1 <= h.y0
  }

  /** The gaps of a snake list, one between each snake and the next. */
  function Hunks(ss: seq<Snake>): (hs: seq<Hunk>)
    ensures |hs| == if |ss| == 0 then 0 else |ss| - 1
    ensures forall k :: 0 <= k < |hs| ==> hs[k] == Hunk(ss[k].u, ss[k + 1].x, ss[k].v, ss[k + 1].y)
  {
    if |ss| <= 1 then []
    else seq(|ss| - 1, k requires 0 <= k < |ss| - 1 => Hunk(ss[k].u, ss[k + 1].x, ss[k].v, ss[k + 1].y))
  }

  /** Snakes in ascending order within files of n and m tokens: what the
      printers need of the list they walk. */
  predicate Ordered(ss: seq<Snake>, n: int, m: int)
  {
    && |ss| >= 1
    && (forall k :: 0 <= k < |ss| ==> 0 <= ss[k].x <= ss[k].u <= n && 0 <= ss[k].y <= ss[k].v <= m)
    && (forall k :: 0 <= k < |ss| - 1 ==> ss[k].u <= ss[k + 1].x && ss[k].v <= ss[k + 1].y)
  }

  /** Along an ordered list, snakes start and end further on in both
      files. */
  lemma {:induction false} Rising(ss: seq<Snake>, n: int, m: int, i: int, j: int)
    requires Ordered(ss, n, m) && 0 <= i <= j < |ss|
    ensures ss[i].x <= ss[j].x && ss[i].y <= ss[j].y
    ensures i < j ==> ss[i].u <= ss[j].x && ss[i].v <= ss[j].y
    decreases j - i
  {
    if i < j {
      Rising(ss, n, m, i + 1, j);
    }
  }

  /** A gap within files of n and m tokens. */
  predicate Fits(h: Hunk, n: int, m: int)
  {
    0 <= h.x0 <= h.x1 <= n && 0 <= h.y0 <= h.y1 <= m
  }

  predicate AllFit(hs: seq<Hunk>, n: int, m: int)
  {
    forall k :: 0 <= k < |hs| ==> Fits(hs[k], n, m)
  }

  lemma OrderedFit(ss: seq<Snake>, n: int, m: int)
    requires Ordered(ss, n, m)
    ensures AllFit(Hunks(ss), n, m)
  {
  }

  // ---------------------------------------------------------------------
  // What the hunks mean: file 2 rebuilt from file 1.

  /** The gaps lie in order from position pos of file 1 (n tokens) on, and
      within file 2 (m tokens). */
  predicate Chained(hs: seq<Hunk>, pos: int, n: int, m: int)
    decreases |hs|
  {
    hs == [] || (pos <= hs[0].x0 && Fits(hs[0], n, m) && Chained(hs[1..], hs[0].x1, n, m))
  }

  /** File 1 from position pos on, with the lines of each gap replaced by
      the gap's lines of file 2. */
  function Patched(X: seq<seq<JChar>>, Y: seq<seq<JChar>>, hs: seq<Hunk>, pos: int): seq<seq<JChar>>
    requires 0 <= pos <= |X| && Chained(hs, pos, |X|, |Y|)
    decreases |hs|
  {
    if hs == [] then X[pos..]
    else X[pos..hs[0].x0] + Y[hs[0].y0..hs[0].y1] + Patched(X, Y, hs[1..], hs[0].x1)
  }

  /** Gaps in order lie within the files. */
  lemma {:induction false} ChainedFit(hs: seq<Hunk>, pos: int, n: int, m: int)
    requires Chained(hs, pos, n, m)
    ensures AllFit(hs, n, m)
    decreases |hs|
  {
    if hs != [] {
      ChainedFit(hs[1..], hs[0].x1, n, m);
      assert forall k :: 1 <= k < |hs| ==> hs[k] == hs[1..][k - 1];
    }
  }

  /** The gaps of an ordered list, from snake k on, lie in order from where
      snake k starts. */
  lemma {:induction false} OrderedChained(ss: seq<Snake>, n: int, m: int, k: int)
    requires Ordered(ss, n, m) && 0 <= k < |ss|
    ensures Chained(Hunks(ss)[k..], ss[k].x, n, m)
    decreases |ss| - k
  {
    var hs := Hunks(ss)[k..];
    if k < |ss| - 1 {
      OrderedChained(ss, n, m, k + 1);
      assert hs[1..] == Hunks(ss)[k + 1..];
    } else {
      assert hs == [];
    }
  }

  /** Each snake pairs equal runs of tokens of the two files. */
  ghost predicate SameOnSnakes(ss: seq<Snake>, X: seq<seq<JChar>>, Y: seq<seq<JChar>>)
    requires Ordered(ss, |X|, |Y|)
  {
    forall k :: 0 <= k < |ss| ==> X[ss[k].x..ss[k].u] == Y[ss[k].y..ss[k].v]
  }

  /** A run of equal lines before the first gap, then the gap, then the
      rest patched into file 2's rest: file 2 from where the run starts. */
  lemma PatchedStep(X: seq<seq<JChar>>, Y: seq<seq<JChar>>, hs: seq<Hunk>, sx: int, sy: int)
    requires |hs| >= 1 && 0 <= sx <= |X| && Chained(hs, sx, |X|, |Y|) && 0 <= sy <= hs[0].y0
    requires X[sx..hs[0].x0] == Y[sy..hs[0].y0]
    requires Patched(X, Y, hs[1..], hs[0].x1) == Y[hs[0].y1..]
    ensures Patched(X, Y, hs, sx) == Y[sy..]
  {
    var h := hs[0];
    calc {
      Patched(X, Y, hs, sx);
      X[sx..h.x0] + Y[h.y0..h.y1] + Y[h.y1..];
      Y[sy..h.y0] + Y[h.y0..h.y1] + Y[h.y1..];
      { assert Y[sy..] == Y[sy..h.y0] + Y[h.y0..h.y1] + Y[h.y1..]; }
      Y[sy..];
    }
  }

  /** Without gaps, file 1 from sx on is patched into itself: file 2
      from sy on when the two are equal to the end. */
  lemma PatchedNone(X: seq<seq<JChar>>, Y: seq<seq<JChar>>, sx: int, sy: int)
    requires 0 <= sx <= |X| && 0 <= sy <= |Y| && X[sx..|X|] == Y[sy..|Y|]
    ensures Patched(X, Y, [], sx) == Y[sy..]
  {
    assert X[sx..] == X[sx..|X|] && Y[sy..] == Y[sy..|Y|];
  }

  /** The gaps from snake k on: the one after snake k, then those from
      snake k + 1 on. */
  lemma HunksFrom(ss: seq<Snake>, k: int)
    requires 0 <= k < |ss| - 1
    ensures Hunks(ss)[k..] != [] && Hunks(ss)[k..][0] == Hunk(ss[k].u, ss[k + 1].x, ss[k].v, ss[k + 1].y)
    ensures Hunks(ss)[k..][1..] == Hunks(ss)[k + 1..]
  {
  }

  /** The gaps of a snake list that runs to both files' ends and pairs
      equal tokens rebuild file 2 from file 1: from where snake k starts,
      the patched file 1 is file 2 from where snake k starts in it. */
  lemma {:induction false} Rebuilds(ss: seq<Snake>, X: seq<seq<JChar>>, Y: seq<seq<JChar>>, k: int)
    requires Ordered(ss, |X|, |Y|) && SameOnSnakes(ss, X, Y) && 0 <= k < |ss|
    requires ss[|ss| - 1].u == |X| && ss[|ss| - 1].v == |Y|
    ensures Chained(Hunks(ss)[k..], ss[k].x, |X|, |Y|)
    ensures Patched(X, Y, Hunks(ss)[k..], ss[k].x) == Y[ss[k].y..]
    decreases |ss| - k
  {
    OrderedChained(ss, |X|, |Y|, k);
    var s := ss[k];
    assert X[s.x..s.u] == Y[s.y..s.v];
    if k == |ss| - 1 {
      assert Hunks(ss)[k..] == [];
      PatchedNone(X, Y, s.x, s.y);
    } else {
      Rebuilds(ss, X, Y, k + 1);
      HunksFrom(ss, k);
      PatchedStep(X, Y, Hunks(ss)[k..], s.x, s.y);
    }
  }

  // ---------------------------------------------------------------------
  // Walker: a run of lines, each behind a mark.

  /** Tokens lo .. hi - 1 of T, each after the mark. */
  function Marked(mark: seq<JChar>, T: seq<seq<JChar>>, lo: int, hi: int): seq<JChar>
    requires 0 <= lo && hi <= |T|
    decreases hi - lo
  {
    if hi <= lo then [] else Marked(mark, T, lo, hi - 1) + mark + T[hi - 1]
  }

  lemma MarkedStep(mark: seq<JChar>, T: seq<seq<JChar>>, lo: int, hi: int)
    requires 0 <= lo <= hi < |T|
    ensures Marked(mark, T, lo, hi + 1) == Marked(mark, T, lo, hi) + (mark + T[hi])
  {
  }

  /** A dump ends a line when it is empty or its last character is LF. */
  predicate EndsLine(t: seq<JChar>)
  {
    t == [] || t[|t| - 1] == LF
  }

  /** Walker's lineEnd: no token walked, or the last one walked ends a
      line. */
  predicate LastEnds(T: seq<seq<JChar>>, lo: int, hi: int)
    requires hi <= |T|
  {
    hi <= lo || (0 <= hi - 1 && EndsLine(T[hi - 1]))
  }

  function NoNewline(nl: seq<JChar>): seq<JChar>
  {
    nl + Str("\\ No newline at end of file") + nl
  }

  /** What Walker prints: the marked lines and, under a unified diff, a
      note when the last of them has no line end. */
  function Walked(mark: seq<JChar>, T: seq<seq<JChar>>, lo: int, hi: int, unified: bool, nl: seq<JChar>): seq<JChar>
    requires 0 <= lo && hi <= |T|
  {
    Marked(mark, T, lo, hi) + (if unified && !LastEnds(T, lo, hi) then NoNewline(nl) else [])
  }

  // ---------------------------------------------------------------------
  // Normal diffs.

  /** A line number, followed by `,end` when the range runs past it. */
  function Range(n: int, end: int): seq<JChar>
  {
    Dec(n) + (if end > n then Str(",") + Dec(end) else [])
  }

  /** The edit a gap is: a change when it has lines on both sides, a
      deletion when only file 1's side has some, an addition otherwise. */
  function NormOp(h: Hunk): char
  {
    if h.x0 < h.x1 && h.y0 < h.y1 then 'c' else if h.x0 < h.x1 then 'd' else 'a'
  }

  /** The header of a gap with lines: `2c2`, `2,3d1`, `4a5,6`. */
  function NormHeader(h: Hunk, nl: seq<JChar>): seq<JChar>
  {
    var nx := if h.x0 < h.x1 then h.x0 + 1 else h.x0;
    var ny := if h.y0 < h.y1 then h.y0 + 1 else h.y0;
    Range(nx, h.x1) + Str([NormOp(h)]) + Range(ny, h.y1) + nl
  }

  /** The lines of a gap with lines: file 1's after "< ", `---` for a
      change, file 2's after "> ". */
  function NormBody(h: Hunk, X: seq<seq<JChar>>, Y: seq<seq<JChar>>, nl: seq<JChar>, unified: bool): seq<JChar>
    requires Fits(h, |X|, |Y|)
  {
    Walked(Str("< "), X, h.x0, h.x1, unified, nl)
    + (if NormOp(h) == 'c' then Str("---") + nl else [])
    + Walked(Str("> "), Y, h.y0, h.y1, unified, nl)
  }

  /** The header as DiffNorm assembles it: the edit letter and the first
      line numbers, bumped past the snake's end on a side with lines. */
  lemma HeaderIs(h: Hunk, c: char, nx: int, ny: int, nl: seq<JChar>)
    requires !Empty(h) && c == NormOp(h)
    requires nx == (if h.x0 < h.x1 then h.x0 + 1 else h.x0) && ny == (if h.y0 < h.y1 then h.y0 + 1 else h.y0)
    ensures Range(nx, h.x1) + Str([c]) + Range(ny, h.y1) + nl == NormHeader(h, nl)
  {
  }

  /** A gap as a normal diff prints it: nothing for an empty gap;
      otherwise the header and the lines. */
  function NormHunk(h: Hunk, X: seq<seq<JChar>>, Y: seq<seq<JChar>>, nl: seq<JChar>, unified: bool): seq<JChar>
    requires Fits(h, |X|, |Y|)
  {
    if Empty(h) then [] else NormHeader(h, nl) + NormBody(h, X, Y, nl, unified)
  }

  function NormText(hs: seq<Hunk>, X: seq<seq<JChar>>, Y: seq<seq<JChar>>, nl: seq<JChar>, unified: bool): seq<JChar>
    requires AllFit(hs, |X|, |Y|)
  {
    if hs == [] then [] else NormHunk(hs[0], X, Y, nl, unified) + NormText(hs[1..], X, Y, nl, unified)
  }

  /** The normal diff of the gaps from k on: gap k's, then the rest's. */
  lemma NormTextFrom(hs: seq<Hunk>, k: int, X: seq<seq<JChar>>, Y: seq<seq<JChar>>, nl: seq<JChar>, unified: bool)
    requires 0 <= k < |hs| && AllFit(hs[k..], |X|, |Y|)
    ensures Fits(hs[k], |X|, |Y|) && AllFit(hs[k + 1..], |X|, |Y|)
    ensures NormText(hs[k..], X, Y, nl, unified) == NormHunk(hs[k], X, Y, nl, unified) + NormText(hs[k + 1..], X, Y, nl, unified)
  {
    assert hs[k..][0] == hs[k] && hs[k..][1..] == hs[k + 1..];
  }

  /** A gap prints something exactly when it has a line on some side, and
      then its header names the edit the gap is. */
  lemma NormPrintsChanges(h: Hunk, X: seq<seq<JChar>>, Y: seq<seq<JChar>>, nl: seq<JChar>, unified: bool)
    requires Fits(h, |X|, |Y|)
    ensures NormHunk(h, X, Y, nl, unified) == [] <==> Empty(h)
    ensures !Empty(h) ==> (NormOp(h) == 'c' <==> h.x0 < h.x1 && h.y0 < h.y1)
    ensures !Empty(h) ==> (NormOp(h) == 'd' <==> h.x0 < h.x1 && h.y0 == h.y1)
    ensures !Empty(h) ==> (NormOp(h) == 'a' <==> h.x0 == h.x1 && h.y0 < h.y1)
  {
    if !Empty(h) {
      var nx := if h.x0 < h.x1 then h.x0 + 1 else h.x0;
      assert |Range(nx, h.x1)| > 0;
    }
  }

  // ---------------------------------------------------------------------
  // RCS diffs.

  /** An RCS edit command: delete `count` lines from line `line` of file
      1, or append `count` lines of text after line `after` of file 1
      (lines counted from 1). */
  datatype Command = Delete(line: int, count: int) | Append(after: int, count: int, text: seq<seq<JChar>>)
  {
    /** Where in file 1 (from 0) the command acts. */
    function At(): int { if Delete? then line - 1 else after }

    /** Where in file 1 the next command may act. */
    function Resume(): int { if Delete? then line - 1 + count else after }

    /** The lines the command puts in. */
    function Inserted(): seq<seq<JChar>> { if Delete? then [] else text }

    /** A count that is not negative and, for an addition, is the number of
        lines it carries. */
    predicate WellFormed() { 0 <= count && (Append? ==> |text| == count) }
  }

  /** The commands of one gap: a deletion of its lines of file 1, then an
      addition of its lines of file 2 after them. */
  function RcsCommands(h: Hunk, Y: seq<seq<JChar>>): seq<Command>
    requires 0 <= h.y0 <= h.y1 <= |Y|
  {
    DelCommands(h) + AddCommands(h, Y)
  }

  function DelCommands(h: Hunk): seq<Command>
  {
    if h.x0 < h.x1 then [Delete(h.x0 + 1, h.x1 - h.x0)] else []
  }

  function AddCommands(h: Hunk, Y: seq<seq<JChar>>): seq<Command>
    requires 0 <= h.y0 <= h.y1 <= |Y|
  {
    if h.y0 < h.y1 then [Append(h.x1, h.y1 - h.y0, Y[h.y0..h.y1])] else []
  }

  function RcsScript(hs: seq<Hunk>, Y: seq<seq<JChar>>): seq<Command>
    requires forall k :: 0 <= k < |hs| ==> 0 <= hs[k].y0 <= hs[k].y1 <= |Y|
    decreases |hs|
  {
    if hs == [] then [] else RcsCommands(hs[0], Y) + RcsScript(hs[1..], Y)
  }

  /** `d<line> <count>` or `a<after> <count>` and the appended text. */
  function RenderCommand(c: Command, nl: seq<JChar>): seq<JChar>
  {
    match c
    case Delete(l, n) => Str("d") + Dec(l) + Str(" ") + Dec(n) + nl
    case Append(l, n, T) => Str("a") + Dec(l) + Str(" ") + Dec(n) + nl + Concat(T)
  }

  /** The printer of commands under line separator nl. */
  function Printer(nl: seq<JChar>): Command -> seq<JChar>
  {
    c => RenderCommand(c, nl)
  }

  /** Each command as printed. */
  function Pieces(cs: seq<Command>, f: Command -> seq<JChar>): (ps: seq<seq<JChar>>)
    ensures |ps| == |cs|
  {
    seq(|cs|, i requires 0 <= i < |cs| => f(cs[i]))
  }

  lemma PiecesAppend(p: seq<Command>, q: seq<Command>, f: Command -> seq<JChar>)
    ensures Pieces(p + q, f) == Pieces(p, f) + Pieces(q, f)
  {
  }

  /** A script as printed: its commands one after another. */
  function Render(cs: seq<Command>, nl: seq<JChar>): seq<JChar>
  {
    Concat(Pieces(cs, Printer(nl)))
  }

  /** A script printed in two parts prints as the two parts. */
  lemma RenderAppend(p: seq<Command>, q: seq<Command>, nl: seq<JChar>)
    ensures Render(p + q, nl) == Render(p, nl) + Render(q, nl)
  {
    PiecesAppend(p, q, Printer(nl));
    ConcatAppend(Pieces(p, Printer(nl)), Pieces(q, Printer(nl)));
  }

  /** The commands lie in order from position pos of file 1 (n lines), each
      appended text as long as its count. */
  predicate RcsChained(cs: seq<Command>, pos: int, n: int)
    decreases |cs|
  {
    cs == [] ||
    (cs[0].WellFormed() && pos <= cs[0].At() && cs[0].Resume() <= n && RcsChained(cs[1..], cs[0].Resume(), n))
  }

  /** What an RCS script does to file 1 from position pos on: copy the
      lines before each command, drop the deleted ones, insert the
      appended ones. */
  function ApplyRcs(X: seq<seq<JChar>>, cs: seq<Command>, pos: int): seq<seq<JChar>>
    requires 0 <= pos <= |X| && RcsChained(cs, pos, |X|)
    decreases |cs|
  {
    if cs == [] then X[pos..]
    else X[pos..cs[0].At()] + cs[0].Inserted() + ApplyRcs(X, cs[1..], cs[0].Resume())
  }

  lemma Regroup4<T>(a: seq<T>, b: seq<T>, c: seq<T>, d: seq<T>)
    ensures (a + b) + c + d == a + (b + c + d)
  {
  }

  /** Applied from an earlier position, a script first copies the lines
      up to where it would otherwise start. */
  lemma ApplyFrom(X: seq<seq<JChar>>, cs: seq<Command>, p: int, pos: int)
    requires 0 <= p <= pos <= |X| && RcsChained(cs, pos, |X|)
    ensures RcsChained(cs, p, |X|)
    ensures ApplyRcs(X, cs, p) == X[p..pos] + ApplyRcs(X, cs, pos)
  {
    if cs == [] {
      SliceJoin(X, p, pos, |X|);
    } else {
      var c := cs[0];
      SliceJoin(X, p, pos, c.At());
      Regroup4(X[p..pos], X[pos..c.At()], c.Inserted(), ApplyRcs(X, cs[1..], c.Resume()));
    }
  }

  /** A command at the head of a script: the lines up to it, what it
      inserts, then the rest applied from where it resumes. */
  lemma ApplyHead(X: seq<seq<JChar>>, c: Command, rest: seq<Command>, p: int)
    requires 0 <= p <= c.At() && c.WellFormed() && c.Resume() <= |X| && RcsChained(rest, c.Resume(), |X|)
    ensures RcsChained([c] + rest, p, |X|)
    ensures ApplyRcs(X, [c] + rest, p) == X[p..c.At()] + c.Inserted() + ApplyRcs(X, rest, c.Resume())
  {
    assert ([c] + rest)[0] == c && ([c] + rest)[1..] == rest;
  }

  lemma AppendEmpty<T>(a: seq<T>, e: seq<T>)
    requires e == []
    ensures a + e == a
  {
  }

  lemma Regroup3<T>(a: seq<T>, b: seq<T>, c: seq<T>)
    ensures (a + b) + c == a + (b + c)
  {
  }

  lemma DropEmpty<T>(a: seq<T>, e: seq<T>, c: seq<T>)
    requires e == []
    ensures a + e + c == a + c
  {
  }

  /** The addition of a gap inserts the gap's lines of file 2. */
  lemma AddPart(h: Hunk, X: seq<seq<JChar>>, Y: seq<seq<JChar>>, rest: seq<Command>)
    requires Fits(h, |X|, |Y|) && RcsChained(rest, h.x1, |X|)
    ensures RcsChained(AddCommands(h, Y) + rest, h.x1, |X|)
    ensures ApplyRcs(X, AddCommands(h, Y) + rest, h.x1) == Y[h.y0..h.y1] + ApplyRcs(X, rest, h.x1)
  {
    var T := Y[h.y0..h.y1];
    if h.y0 < h.y1 {
      assert AddCommands(h, Y) + rest == [Append(h.x1, h.y1 - h.y0, T)] + rest;
      ApplyHead(X, Append(h.x1, h.y1 - h.y0, T), rest, h.x1);
      DropEmpty([], X[h.x1..h.x1], T + ApplyRcs(X, rest, h.x1));
      Regroup3(X[h.x1..h.x1], T, ApplyRcs(X, rest, h.x1));
    } else {
      assert AddCommands(h, Y) + rest == rest;
      assert T == [];
    }
  }

  /** A deletion at the head of a script drops the lines it counts. */
  lemma DeleteApplies(X: seq<seq<JChar>>, d: Command, A: seq<Command>, p: int)
    requires d.Delete? && 0 <= p <= d.At() && d.WellFormed() && d.Resume() <= |X| && RcsChained(A, d.Resume(), |X|)
    ensures RcsChained([d] + A, p, |X|)
    ensures ApplyRcs(X, [d] + A, p) == X[p..d.At()] + ApplyRcs(X, A, d.Resume())
  {
    ApplyHead(X, d, A, p);
    DropEmpty(X[p..d.At()], d.Inserted(), ApplyRcs(X, A, d.Resume()));
  }

  /** The deletion of a gap drops the gap's lines of file 1. */
  lemma DelPart(h: Hunk, X: seq<seq<JChar>>, A: seq<Command>, p: int)
    requires 0 <= p <= h.x0 <= h.x1 <= |X| && RcsChained(A, h.x1, |X|)
    ensures RcsChained(DelCommands(h) + A, p, |X|)
    ensures ApplyRcs(X, DelCommands(h) + A, p) == X[p..h.x0] + ApplyRcs(X, A, h.x1)
  {
    if h.x0 < h.x1 {
      var d := Delete(h.x0 + 1, h.x1 - h.x0);
      assert DelCommands(h) == [d];
      DeleteApplies(X, d, A, p);
    } else {
      assert DelCommands(h) + A == A;
      ApplyFrom(X, A, p, h.x1);
    }
  }

  /** The commands of one gap, followed by a script that goes on from the
      gap's end, put the gap's lines of file 2 in place of its lines of
      file 1. */
  lemma RcsHunk(h: Hunk, X: seq<seq<JChar>>, Y: seq<seq<JChar>>, rest: seq<Command>, p: int)
    requires 0 <= p <= h.x0 && Fits(h, |X|, |Y|) && RcsChained(rest, h.x1, |X|)
    ensures RcsChained(RcsCommands(h, Y) + rest, p, |X|)
    ensures ApplyRcs(X, RcsCommands(h, Y) + rest, p) == X[p..h.x0] + Y[h.y0..h.y1] + ApplyRcs(X, rest, h.x1)
  {
    var A := AddCommands(h, Y) + rest;
    AddPart(h, X, Y, rest);
    DelPart(h, X, A, p);
    Regroup3(DelCommands(h), AddCommands(h, Y), rest);
    Regroup3(X[p..h.x0], Y[h.y0..h.y1], ApplyRcs(X, rest, h.x1));
  }

  /** The RCS script of the gaps does what the gaps mean: from any p up to
      where they start, it turns file 1 into the patched file. */
  lemma {:induction false} RcsPatches(hs: seq<Hunk>, X: seq<seq<JChar>>, Y: seq<seq<JChar>>, p: int, pos: int)
    requires 0 <= p <= pos <= |X| && Chained(hs, pos, |X|, |Y|) && AllFit(hs, |X|, |Y|)
    ensures RcsChained(RcsScript(hs, Y), p, |X|)
    ensures ApplyRcs(X, RcsScript(hs, Y), p) == X[p..pos] + Patched(X, Y, hs, pos)
    decreases |hs|
  {
    if hs == [] {
      SliceJoin(X, p, pos, |X|);
    } else {
      var h, tail := hs[0], hs[1..];
      var rest, P := RcsScript(tail, Y), Patched(X, Y, tail, h.x1);
      ChainedFit(tail, h.x1, |X|, |Y|);
      RcsPatches(tail, X, Y, h.x1, h.x1);
      EmptyFront(X[h.x1..h.x1], P);
      RcsHunk(h, X, Y, rest, p);
      assert RcsScript(hs, Y) == RcsCommands(h, Y) + rest;
      SliceJoin(X, p, pos, h.x0);
      Regroup4(X[p..pos], X[pos..h.x0], Y[h.y0..h.y1], P);
    }
  }

  /** A script of one command prints as that command. */
  lemma RenderOne(c: Command, nl: seq<JChar>)
    ensures Render([c], nl) == RenderCommand(c, nl)
  {
    var ps := Pieces([c], Printer(nl));
    assert ps[..0] == [] && ps[0] == RenderCommand(c, nl);
    assert Concat(ps) == Concat(ps[..0]) + ps[0];
  }

  lemma RcsScriptNone(Y: seq<seq<JChar>>)
    ensures RcsScript([], Y) == []
  {
  }

  lemma RenderNone(nl: seq<JChar>)
    ensures Render([], nl) == []
  {
  }

  /** The script of the gaps from k on: gap k's commands, then the rest's. */
  lemma RcsScriptFrom(hs: seq<Hunk>, k: int, n: int, Y: seq<seq<JChar>>)
    requires 0 <= k < |hs| && AllFit(hs, n, |Y|)
    ensures AllFit(hs[k..], n, |Y|) && AllFit(hs[k + 1..], n, |Y|) && Fits(hs[k], n, |Y|)
    ensures RcsScript(hs[k..], Y) == RcsCommands(hs[k], Y) + RcsScript(hs[k + 1..], Y)
  {
    assert hs[k..][0] == hs[k] && hs[k..][1..] == hs[k + 1..];
  }

  lemma EmptyFront<T>(e: seq<T>, c: seq<T>)
    requires e == []
    ensures e + c == c
  {
  }

  /** Two runs of equal length, equal token by token, are equal. */
  lemma SlicesEqual(X: seq<seq<JChar>>, Y: seq<seq<JChar>>, x: int, u: int, y: int, v: int)
    requires 0 <= x <= u <= |X| && 0 <= y <= v <= |Y| && u - x == v - y
    requires forall i :: x <= i < u ==> X[i] == Y[i - x + y]
    ensures X[x..u] == Y[y..v]
  {
    assert forall i :: 0 <= i < u - x ==> X[x..u][i] == X[x + i] && Y[y..v][i] == Y[y + i];
  }

  /** A snake list from the files' starts to their ends that pairs equal
      tokens: its gaps patch file 1 into file 2, and so does its RCS
      script. */
  lemma RebuildsAll(ss: seq<Snake>, X: seq<seq<JChar>>, Y: seq<seq<JChar>>)
    requires Ordered(ss, |X|, |Y|) && SameOnSnakes(ss, X, Y)
    requires ss[0].x == 0 && ss[0].y == 0 && ss[|ss| - 1].u == |X| && ss[|ss| - 1].v == |Y|
    ensures Chained(Hunks(ss), 0, |X|, |Y|)
    ensures Patched(X, Y, Hunks(ss), 0) == Y
    ensures RcsChained(RcsScript(Hunks(ss), Y), 0, |X|)
    ensures ApplyRcs(X, RcsScript(Hunks(ss), Y), 0) == Y
  {
    Rebuilds(ss, X, Y, 0);
    assert Hunks(ss)[0..] == Hunks(ss) && Y[0..] == Y;
    ChainedFit(Hunks(ss), 0, |X|, |Y|);
    RcsPatches(Hunks(ss), X, Y, 0, 0);
    assert X[0..0] == [];
  }

  // ---------------------------------------------------------------------
  // Summaries.

  /** The counts a summary prints: lines and chunks deleted, added and
      changed (a change counts its lines on both sides). */
  datatype Tally = Tally(linesDeleted: int, linesAdded: int, linesEditedIn: int, linesEditedOut: int,
                         chunksDeleted: int, chunksAdded: int, chunksEdited: int)

  function Plus(a: Tally, b: Tally): Tally
  {
    Tally(a.linesDeleted + b.linesDeleted, a.linesAdded + b.linesAdded,
          a.linesEditedIn + b.linesEditedIn, a.linesEditedOut + b.linesEditedOut,
          a.chunksDeleted + b.chunksDeleted, a.chunksAdded + b.chunksAdded, a.chunksEdited + b.chunksEdited)
  }

  const NoTally := Tally(0, 0, 0, 0, 0, 0, 0)

  /** One gap's counts: a change if it has lines on both sides, else an
      addition if it has lines of file 2, else a deletion if it has lines
      of file 1. */
  function TallyOne(h: Hunk): Tally
  {
    if h.x0 < h.x1 && h.y0 < h.y1 then Tally(0, 0, h.x1 - h.x0, h.y1 - h.y0, 0, 0, 1)
    else if h.y0 < h.y1 then Tally(0, h.y1 - h.y0, 0, 0, 0, 1, 0)
    else if h.x0 < h.x1 then Tally(h.x1 - h.x0, 0, 0, 0, 1, 0, 0)
    else NoTally
  }

  function TallyOf(hs: seq<Hunk>): Tally
  {
    if hs == [] then NoTally else Plus(TallyOne(hs[0]), TallyOf(hs[1..]))
  }

  /** The counts of the gaps from k on: gap k's, plus the rest's. */
  lemma TallyFrom(hs: seq<Hunk>, k: int)
    requires 0 <= k < |hs|
    ensures TallyOf(hs[k..]) == Plus(TallyOne(hs[k]), TallyOf(hs[k + 1..]))
  {
    assert hs[k..][0] == hs[k] && hs[k..][1..] == hs[k + 1..];
  }

  lemma PlusAssoc(a: Tally, b: Tally, c: Tally)
    ensures Plus(Plus(a, b), c) == Plus(a, Plus(b, c))
  {
  }

  lemma PlusNone(a: Tally)
    ensures Plus(a, NoTally) == a && Plus(NoTally, a) == a
  {
  }

  lemma TallyNone()
    ensures TallyOf([]) == NoTally
  {
  }

  function SummaryText(t: Tally, nl: seq<JChar>): seq<JChar>
  {
    Str("add ") + Dec(t.chunksAdded) + Str(" chunks ") + Dec(t.linesAdded) + Str(" lines") + nl
    + Str("deleted ") + Dec(t.chunksDeleted) + Str(" chunks ") + Dec(t.linesDeleted) + Str(" lines") + nl
    + Str("changed ") + Dec(t.chunksEdited) + Str(" chunks ") + Dec(t.linesEditedIn) + Str(" / ")
    + Dec(t.linesEditedOut) + Str(" lines") + nl
  }

  /** The summary as DiffSummary's format string lays it out. */
  lemma SummaryIs(t: Tally, nl: seq<JChar>, text: seq<JChar>)
    requires text == Str("add ") + Dec(t.chunksAdded) + Str(" chunks ") + Dec(t.linesAdded) + Str(" lines") + nl
                     + Str("deleted ") + Dec(t.chunksDeleted) + Str(" chunks ") + Dec(t.linesDeleted) + Str(" lines") + nl
                     + Str("changed ") + Dec(t.chunksEdited) + Str(" chunks ") + Dec(t.linesEditedIn) + Str(" / ")
                     + Dec(t.linesEditedOut) + Str(" lines") + nl
    ensures text == SummaryText(t, nl)
  {
  }

  /** The gaps with a line on some side. */
  function Changed(hs: seq<Hunk>): nat
  {
    if hs == [] then 0 else (if Empty(hs[0]) then 0 else 1) + Changed(hs[1..])
  }

  /** The lines of file 1 (file 2) the gaps hold. */
  function OldWidth(hs: seq<Hunk>): int
  {
    if hs == [] then 0 else (hs[0].x1 - hs[0].x0) + OldWidth(hs[1..])
  }

  function NewWidth(hs: seq<Hunk>): int
  {
    if hs == [] then 0 else (hs[0].y1 - hs[0].y0) + NewWidth(hs[1..])
  }

  /** Every gap with a line lands in exactly one of the three chunk
      counts, and every line of a gap in the line counts of its side; the
      RCS script has one command per deletion or addition and two per
      change. */
  lemma {:induction false} TallyBuckets(hs: seq<Hunk>, n: int, Y: seq<seq<JChar>>)
    requires AllFit(hs, n, |Y|)
    ensures var t := TallyOf(hs);
      && t.chunksDeleted + t.chunksAdded + t.chunksEdited == Changed(hs)
      && t.linesDeleted + t.linesEditedIn == OldWidth(hs)
      && t.linesAdded + t.linesEditedOut == NewWidth(hs)
      && |RcsScript(hs, Y)| == t.chunksDeleted + t.chunksAdded + 2 * t.chunksEdited
    decreases |hs|
  {
    if hs != [] {
      TallyBuckets(hs[1..], n, Y);
      assert Fits(hs[0], n, |Y|);
    }
  }

  // ---------------------------------------------------------------------
  // HTML.

  /** Each snake's lines of file 1 and the gap after it, file 1's side
      after `red` and file 2's after `blue`, each gap closed by `close`;
      `withOld` and `withNew` leave either side of the gaps out. The
      HTML diff is this with the font tags and both sides. */
  function Html(ss: seq<Snake>, X: seq<seq<JChar>>, Y: seq<seq<JChar>>, red: seq<JChar>, blue: seq<JChar>,
                close: seq<JChar>, withOld: bool, withNew: bool): seq<JChar>
    requires Ordered(ss, |X|, |Y|)
    decreases |ss|
  {
    if |ss| <= 1 then []
    else
      var s, t := ss[0], ss[1];
      Concat(X[s.x..s.u]) + red + (if withOld then Concat(X[s.u..t.x]) else [])
      + blue + (if withNew then Concat(Y[s.v..t.y]) else []) + close
      + Html(ss[1..], X, Y, red, blue, close, withOld, withNew)
  }

  function HtmlText(ss: seq<Snake>, X: seq<seq<JChar>>, Y: seq<seq<JChar>>): seq<JChar>
    requires Ordered(ss, |X|, |Y|)
  {
    Html(ss, X, Y, Str("<font color=red>"), Str("</font><font color=blue>"), Str("</font>"), true, true)
  }

  /** The tokens of a run put together, in three consecutive parts. */
  lemma ConcatSplit3(X: seq<seq<JChar>>, a: int, b: int, c: int, d: int)
    requires 0 <= a <= b <= c <= d <= |X|
    ensures Concat(X[a..d]) == Concat(X[a..b]) + Concat(X[b..c]) + Concat(X[c..d])
  {
    SliceJoin(X, a, b, c);
    SliceJoin(X, a, c, d);
    ConcatAppend(X[a..b], X[b..c]);
    ConcatAppend(X[a..c], X[c..d]);
  }

  /** One step of an HTML diff without tags: a snake's lines, then one
      side of the gap, then the rest of the run. */
  lemma HtmlRun(X: seq<seq<JChar>>, a: int, b: int, c: int, d: int, R: seq<JChar>)
    requires 0 <= a <= b <= c <= d <= |X| && R == Concat(X[c..d])
    ensures Concat(X[a..b]) + [] + Concat(X[b..c]) + [] + [] + [] + R == Concat(X[a..d])
  {
    ConcatSplit3(X, a, b, c, d);
  }

  /** The same step showing file 2's side, the snake's lines S being the
      same in both files. */
  lemma HtmlRunNew(Y: seq<seq<JChar>>, S: seq<seq<JChar>>, a: int, b: int, c: int, d: int, R: seq<JChar>)
    requires 0 <= a <= b <= c <= d <= |Y| && S == Y[a..b] && R == Concat(Y[c..d])
    ensures Concat(S) + [] + [] + [] + Concat(Y[b..c]) + [] + R == Concat(Y[a..d])
  {
    ConcatSplit3(Y, a, b, c, d);
  }

  /** Without the tags and file 2's side, the HTML diff is file 1 from the
      first snake to where the last snake starts: the last snake's lines
      are not shown. */
  lemma {:induction false} HtmlShowsOld(ss: seq<Snake>, X: seq<seq<JChar>>, Y: seq<seq<JChar>>)
    requires Ordered(ss, |X|, |Y|)
    ensures ss[0].x <= ss[|ss| - 1].x
    ensures Html(ss, X, Y, [], [], [], true, false) == Concat(X[ss[0].x..ss[|ss| - 1].x])
    decreases |ss|
  {
    Rising(ss, |X|, |Y|, 0, |ss| - 1);
    if |ss| <= 1 {
      assert X[ss[0].x..ss[0].x] == [];
    } else {
      var s, t := ss[0], ss[1];
      HtmlShowsOld(ss[1..], X, Y);
      var e := ss[|ss| - 1].x;
      assert ss[1..][|ss[1..]| - 1].x == e;
      HtmlRun(X, s.x, s.u, t.x, e, Html(ss[1..], X, Y, [], [], [], true, false));
    }
  }

  /** Without the tags and file 1's side, the HTML diff is file 2 from the
      first snake to where the last snake starts, when the snakes pair
      equal tokens. */
  lemma {:induction false} HtmlShowsNew(ss: seq<Snake>, X: seq<seq<JChar>>, Y: seq<seq<JChar>>)
    requires Ordered(ss, |X|, |Y|) && SameOnSnakes(ss, X, Y)
    ensures ss[0].y <= ss[|ss| - 1].y
    ensures Html(ss, X, Y, [], [], [], false, true) == Concat(Y[ss[0].y..ss[|ss| - 1].y])
    decreases |ss|
  {
    Rising(ss, |X|, |Y|, 0, |ss| - 1);
    if |ss| <= 1 {
      assert Y[ss[0].y..ss[0].y] == [];
    } else {
      var s, t := ss[0], ss[1];
      HtmlShowsNew(ss[1..], X, Y);
      var e := ss[|ss| - 1].y;
      assert ss[1..][|ss[1..]| - 1].y == e;
      assert X[s.x..s.u] == Y[s.y..s.v];
      HtmlRunNew(Y, X[s.x..s.u], s.y, s.v, t.y, e, Html(ss[1..], X, Y, [], [], [], false, true));
    }
  }

  /** What an HTML diff does to snake s before snake t: the dumps move s
      to start where it ended and to end where t starts. */
  function HtmlMove(s: Snake, t: Snake): Snake
  {
    Snake(s.u, s.y, t.x, t.y)
  }

  /** The list after an HTML diff: each snake but the last moved. */
  function HtmlMoved(ss: seq<Snake>): (r: seq<Snake>)
    ensures |r| == |ss|
  {
    seq(|ss|, k requires 0 <= k < |ss| => if k < |ss| - 1 then HtmlMove(ss[k], ss[k + 1]) else ss[k])
  }

  /** The HTML move keeps the last snake. */
  lemma HtmlKeepsLast(ss: seq<Snake>)
    requires |ss| > 0
    ensures HtmlMoved(ss)[|ss| - 1] == ss[|ss| - 1]
  {
  }

  /** What one round of an HTML diff prints for snake s before snake t:
      the snake's lines of file 1, then the gap's lines of file 1 in red
      and of file 2 in blue. */
  function HtmlRound(s: Snake, t: Snake, X: seq<seq<JChar>>, Y: seq<seq<JChar>>): seq<JChar>
    requires 0 <= s.x <= s.u <= t.x <= |X| && 0 <= s.v <= t.y <= |Y|
  {
    Concat(X[s.x..s.u]) + Str("<font color=red>") + Concat(X[s.u..t.x])
    + Str("</font><font color=blue>") + Concat(Y[s.v..t.y]) + Str("</font>")
  }

  /** A list of one snake prints nothing in an HTML diff. */
  lemma HtmlNone(ss: seq<Snake>, X: seq<seq<JChar>>, Y: seq<seq<JChar>>)
    requires Ordered(ss, |X|, |Y|) && |ss| == 1
    ensures HtmlText(ss, X, Y) == []
  {
  }

  /** The tail of an ordered list is ordered. */
  lemma OrderedFrom(ss: seq<Snake>, n: int, m: int, k: int)
    requires Ordered(ss, n, m) && 0 <= k < |ss|
    ensures Ordered(ss[k..], n, m)
  {
  }

  /** The HTML diff from snake k on: round k, then the rest. */
  lemma HtmlFrom(ss: seq<Snake>, X: seq<seq<JChar>>, Y: seq<seq<JChar>>, k: int)
    requires Ordered(ss, |X|, |Y|) && 0 <= k < |ss| - 1
    ensures Ordered(ss[k..], |X|, |Y|) && Ordered(ss[k + 1..], |X|, |Y|)
    ensures 0 <= ss[k].x <= ss[k].u <= ss[k + 1].x <= |X| && 0 <= ss[k].v <= ss[k + 1].y <= |Y|
    ensures HtmlText(ss[k..], X, Y) == HtmlRound(ss[k], ss[k + 1], X, Y) + HtmlText(ss[k + 1..], X, Y)
  {
    OrderedFrom(ss, |X|, |Y|, k);
    OrderedFrom(ss, |X|, |Y|, k + 1);
    assert ss[k..][0] == ss[k] && ss[k..][1] == ss[k + 1] && ss[k..][1..] == ss[k + 1..];
  }

  /** What an RCS diff does to snake s before snake t: when the gap
      between them has lines of file 2, s ends, on file 2's side, where t
      starts. */
  function RcsMove(s: Snake, t: Snake): Snake
  {
    if s.v < t.y then s.(v := t.y) else s
  }

  /** The list after an RCS diff: each snake but the last moved. */
  function RcsMoved(ss: seq<Snake>): (r: seq<Snake>)
    ensures |r| == |ss|
  {
    seq(|ss|, k requires 0 <= k < |ss| => if k < |ss| - 1 then RcsMove(ss[k], ss[k + 1]) else ss[k])
  }

  /** A list moved up to its last element, which the move keeps: the
      moved list. */
  lemma MovedDone<T>(M: seq<T>, ss: seq<T>, k: int)
    requires |M| == |ss| && k == |ss| - 1 && 0 <= k && M[k] == ss[k]
    ensures M[..k] + ss[k..] == M
  {
    assert ss[k..] == [M[k]];
  }

  /** A list moved up to k, with element k moved too: moved up to k + 1. */
  lemma MovedStep<T>(M: seq<T>, ss: seq<T>, k: int)
    requires |M| == |ss| && 0 <= k < |ss|
    ensures (M[..k] + ss[k..])[k] == ss[k]
    ensures k + 1 < |ss| ==> (M[..k] + ss[k..])[k + 1] == ss[k + 1]
    ensures (M[..k] + ss[k..])[k := M[k]] == M[..k + 1] + ss[k + 1..]
  {
  }

  /** The HTML move keeps the list ordered. */
  lemma HtmlKeepsOrder(ss: seq<Snake>, n: int, m: int)
    requires Ordered(ss, n, m)
    ensures Ordered(HtmlMoved(ss), n, m)
  {
    var r := HtmlMoved(ss);
    forall k | 0 <= k < |r|
      ensures 0 <= r[k].x <= r[k].u <= n && 0 <= r[k].y <= r[k].v <= m
    {
      if k < |ss| - 1 {
        assert r[k] == HtmlMove(ss[k], ss[k + 1]);
      }
    }
    forall k | 0 <= k < |r| - 1
      ensures r[k].u <= r[k + 1].x && r[k].v <= r[k + 1].y
    {
      assert r[k] == HtmlMove(ss[k], ss[k + 1]);
      if k + 1 < |ss| - 1 {
        assert r[k + 1] == HtmlMove(ss[k + 1], ss[k + 2]);
      }
    }
  }

  /** The RCS move keeps the last snake. */
  lemma RcsKeepsLast(ss: seq<Snake>)
    requires |ss| > 0
    ensures RcsMoved(ss)[|ss| - 1] == ss[|ss| - 1]
  {
  }

  /** The RCS move keeps the list ordered. */
  lemma RcsKeepsOrder(ss: seq<Snake>, n: int, m: int)
    requires Ordered(ss, n, m)
    ensures Ordered(RcsMoved(ss), n, m)
  {
    var r := RcsMoved(ss);
    forall k | 0 <= k < |r|
      ensures 0 <= r[k].x <= r[k].u <= n && 0 <= r[k].y <= r[k].v <= m
    {
      if k < |ss| - 1 {
        assert r[k] == RcsMove(ss[k], ss[k + 1]);
      }
    }
    forall k | 0 <= k < |r| - 1
      ensures r[k].u <= r[k + 1].x && r[k].v <= r[k + 1].y
    {
      RcsMovedAt(ss, n, m, k);
    }
  }

  /** After the RCS move, the gaps are the old gaps with file 2's side
      emptied. */
  lemma RcsEmptiesGaps(ss: seq<Snake>, n: int, m: int)
    requires Ordered(ss, n, m)
    ensures forall k :: 0 <= k < |ss| - 1 ==> Hunks(RcsMoved(ss))[k] == Hunks(ss)[k].(y0 := ss[k + 1].y)
  {
    forall k | 0 <= k < |ss| - 1
      ensures Hunks(RcsMoved(ss))[k] == Hunks(ss)[k].(y0 := ss[k + 1].y)
    {
      RcsMovedAt(ss, n, m, k);
    }
  }

  /** Snake k after the RCS move ends where snake k + 1 starts in file 2,
      and snake k + 1 starts where it did. */
  lemma RcsMovedAt(ss: seq<Snake>, n: int, m: int, k: int)
    requires Ordered(ss, n, m) && 0 <= k < |ss| - 1
    ensures RcsMoved(ss)[k] == ss[k].(v := ss[k + 1].y)
    ensures RcsMoved(ss)[k + 1].x == ss[k + 1].x && RcsMoved(ss)[k + 1].y == ss[k + 1].y
  {
    var r := RcsMoved(ss);
    assert r[k] == RcsMove(ss[k], ss[k + 1]);
    if k + 1 < |ss| - 1 {
      assert r[k + 1] == RcsMove(ss[k + 1], ss[k + 2]);
    }
  }

  // ---------------------------------------------------------------------
  // Context and unified diffs.

  /** The context a negative count asks for. */
  function ContextCount(c: int): (r: int)
    ensures r >= 0
  {
    if c < 0 then 3 else c
  }

  /** Java's `t.x + 2 * c >= t.u`, in int arithmetic: snake t is short
      enough for a block to run on past it. */
  predicate Short(t: Snake, c: int)
  {
    Wrap32(t.x + Wrap32(2 * c)) >= t.u
  }

  /** Where the block that starts with snake i - 1 ends: the first snake
      from j on that is long, or the last one. */
  function BlockEnd(ss: seq<Snake>, j: int, c: int): (e: int)
    requires 0 < j < |ss|
    ensures j <= e < |ss|
    ensures forall k :: j <= k < e ==> Short(ss[k], c)
    ensures e == |ss| - 1 || !Short(ss[e], c)
    decreases |ss| - j
  {
    if j < |ss| - 1 && Short(ss[j], c) then BlockEnd(ss, j + 1, c) else j
  }

  /** Without wrap-around, a short snake is one of at most 2c pairs. */
  lemma ShortMeansLength(t: Snake, c: int)
    requires 0 <= c < 0x2000_0000 && 0 <= t.x < 0x4000_0000
    ensures Short(t, c) <==> t.u - t.x <= 2 * c
  {
  }

  /** The first line of a block: c before where snake s ends, but not
      before the file's start. */
  function Low(u: int, c: int): int
  {
    if u - c > 0 then u - c else 0
  }

  /** The end of a block: c after where snake t starts (in int
      arithmetic), but not past the file's n lines. */
  function High(x: int, c: int, n: int): int
  {
    if Wrap32(x + c) < n then Wrap32(x + c) else n
  }

  /** Without wrap-around, a block's context is clamped to the file. */
  lemma Clamped(u: int, x: int, c: int, n: int)
    requires 0 <= c && 0 <= u && 0 <= x <= n && n + c < 0x8000_0000
    ensures 0 <= Low(u, c) <= u && (u >= c ==> Low(u, c) == u - c)
    ensures x <= High(x, c, n) <= n && High(x, c, n) == (if x + c < n then x + c else n)
  {
  }

  /** The marks a context or unified diff puts before its lines: before
      context, before lines only file 1 has, before lines only file 2 has
      and (context diffs) before the lines of a change; whether removed
      and added lines are shown at all; and what Walker adds after a last
      line without a line end. */
  datatype Style = Style(context: seq<JChar>, removed: seq<JChar>, added: seq<JChar>, changed: seq<JChar>,
                         withOld: bool, withNew: bool, unified: bool, nl: seq<JChar>)

  function ContextStyle(nl: seq<JChar>, unified: bool): Style
  {
    Style(Str("  "), Str("- "), Str("+ "), Str("! "), true, true, unified, nl)
  }

  function UnifiedStyle(nl: seq<JChar>, unified: bool): Style
  {
    Style(Str(" "), Str("-"), Str("+"), [], true, true, unified, nl)
  }

  /** No marks and no notes: the lines alone, with or without each side's
      own lines. */
  function Bare(withOld: bool, withNew: bool): Style
  {
    Style([], [], [], [], withOld, withNew, false, [])
  }

  /** One round of a context block's side, for the gap after snake k: when
      the gap has lines on that side, the context since `cur` and the
      gap's lines after the change mark (if the other side has lines too)
      or that side's own mark; with where the context resumes. */
  function SideRound(ss: seq<Snake>, k: int, cur: int, X: seq<seq<JChar>>, Y: seq<seq<JChar>>, left: bool,
                     st: Style): (r: (seq<JChar>, int))
    requires Ordered(ss, |X|, |Y|) && 0 <= k < |ss| - 1 && 0 <= cur
    ensures 0 <= r.1
  {
    var s, t := ss[k], ss[k + 1];
    var T := if left then X else Y;
    var lo, hi := if left then s.u else s.v, if left then t.x else t.y;
    var other := if left then s.v < t.y else s.u < t.x;
    if lo < hi then
      var mark := if other then st.changed else if left then st.removed else st.added;
      (Walked(st.context, T, cur, lo, st.unified, st.nl) + Walked(mark, T, lo, hi, st.unified, st.nl), hi)
    else ([], cur)
  }

  /** One side of a context block from snake k to snake j: its rounds one
      after another; with where the context resumes after the last. */
  function Side(ss: seq<Snake>, k: int, j: int, cur: int, X: seq<seq<JChar>>, Y: seq<seq<JChar>>, left: bool,
                st: Style): (r: (seq<JChar>, int))
    requires Ordered(ss, |X|, |Y|) && 0 <= k <= j < |ss| && 0 <= cur
    ensures 0 <= r.1
    decreases j - k
  {
    if k == j then ([], cur)
    else
      var a := SideRound(ss, k, cur, X, Y, left, st);
      var b := Side(ss, k + 1, j, a.1, X, Y, left, st);
      (a.0 + b.0, b.1)
  }

  /** SideRound spelled out for the context style's marks. */
  lemma SideRoundIs(ss: seq<Snake>, k: int, cur: int, X: seq<seq<JChar>>, Y: seq<seq<JChar>>, left: bool,
                    st: Style, mark: seq<JChar>)
    requires Ordered(ss, |X|, |Y|) && 0 <= k < |ss| - 1 && 0 <= cur
    requires var s, t := ss[k], ss[k + 1];
      mark == if (if left then s.v < t.y else s.u < t.x) then st.changed else if left then st.removed else st.added
    ensures var s, t := ss[k], ss[k + 1];
      var T := if left then X else Y;
      var lo, hi := if left then s.u else s.v, if left then t.x else t.y;
      SideRound(ss, k, cur, X, Y, left, st)
      == if lo < hi then (Walked(st.context, T, cur, lo, st.unified, st.nl) + Walked(mark, T, lo, hi, st.unified, st.nl), hi)
         else ([], cur)
  {
  }

  /** A side past its first round. */
  lemma SideFrom(ss: seq<Snake>, k: int, j: int, cur: int, X: seq<seq<JChar>>, Y: seq<seq<JChar>>, left: bool,
                 st: Style)
    requires Ordered(ss, |X|, |Y|) && 0 <= k < j < |ss| && 0 <= cur
    ensures var a := SideRound(ss, k, cur, X, Y, left, st);
      var b := Side(ss, k + 1, j, a.1, X, Y, left, st);
      Side(ss, k, j, cur, X, Y, left, st) == (a.0 + b.0, b.1)
  {
  }

  /** A side, and the context after its last gap up to `end` when it has
      a gap with lines. */
  function SideText(ss: seq<Snake>, i: int, j: int, start: int, end: int, X: seq<seq<JChar>>,
                    Y: seq<seq<JChar>>, left: bool, st: Style): seq<JChar>
    requires Ordered(ss, |X|, |Y|) && 0 <= i <= j < |ss| && 0 <= start
    requires end <= if left then |X| else |Y|
  {
    var r := Side(ss, i, j, start, X, Y, left, st);
    r.0 + (if (if left then ss[i].u else ss[i].v) < r.1
           then Walked(st.context, if left then X else Y, r.1, end, st.unified, st.nl) else [])
  }

  lemma SideNone(ss: seq<Snake>, j: int, cur: int, X: seq<seq<JChar>>, Y: seq<seq<JChar>>, left: bool, st: Style)
    requires Ordered(ss, |X|, |Y|) && 0 <= j < |ss| && 0 <= cur
    ensures Side(ss, j, j, cur, X, Y, left, st) == ([], cur)
  {
  }

  /** SideText split as a printer builds it: the side, then the tail. */
  lemma SideTextIs(ss: seq<Snake>, i: int, j: int, start: int, end: int, X: seq<seq<JChar>>, Y: seq<seq<JChar>>,
                   left: bool, st: Style, pre: seq<JChar>, text: seq<JChar>)
    requires Ordered(ss, |X|, |Y|) && 0 <= i <= j < |ss| && 0 <= start
    requires end <= if left then |X| else |Y|
    requires var r := Side(ss, i, j, start, X, Y, left, st);
      text == pre + r.0 + (if (if left then ss[i].u else ss[i].v) < r.1
                           then Walked(st.context, if left then X else Y, r.1, end, st.unified, st.nl) else [])
    ensures text == pre + SideText(ss, i, j, start, end, X, Y, left, st)
  {
  }

  /** `***************` and `*** start,end ****`. */
  function ContextHeader(sx: int, ex: int, nl: seq<JChar>): seq<JChar>
  {
    Str("***************") + nl + Str("*** ") + Dec(sx + 1) + Str(",") + Dec(ex) + Str(" ****") + nl
  }

  /** `--- start,end ----`. */
  function ContextSeparator(sy: int, ey: int, nl: seq<JChar>): seq<JChar>
  {
    Str("--- ") + Dec(sy + 1) + Str(",") + Dec(ey) + Str(" ----") + nl
  }

  /** A context block from snake i to snake j. */
  function ContextBlock(ss: seq<Snake>, i: int, j: int, c: int, X: seq<seq<JChar>>, Y: seq<seq<JChar>>,
                        nl: seq<JChar>, unified: bool): seq<JChar>
    requires Ordered(ss, |X|, |Y|) && 0 <= i < j < |ss| && 0 <= c
  {
    var s, t := ss[i], ss[j];
    var sx, sy := Low(s.u, c), Low(s.v, c);
    var ex, ey := High(t.x, c, |X|), High(t.y, c, |Y|);
    ContextHeader(sx, ex, nl) + SideText(ss, i, j, sx, ex, X, Y, true, ContextStyle(nl, unified))
    + ContextSeparator(sy, ey, nl) + SideText(ss, i, j, sy, ey, X, Y, false, ContextStyle(nl, unified))
  }

  /** The context diff from snake i on: block after block. */
  function ContextText(ss: seq<Snake>, i: int, c: int, X: seq<seq<JChar>>, Y: seq<seq<JChar>>,
                       nl: seq<JChar>, unified: bool): seq<JChar>
    requires Ordered(ss, |X|, |Y|) && 0 <= i < |ss| && 0 <= c
    decreases |ss| - i
  {
    if i == |ss| - 1 then []
    else
      var j := BlockEnd(ss, i + 1, c);
      ContextBlock(ss, i, j, c, X, Y, nl, unified) + ContextText(ss, j, c, X, Y, nl, unified)
  }

  /** One round of a unified block's body, for the gap after snake k: the
      context since `cur`, then the gap's lines of file 1 and of file 2. */
  function UnifiedRound(ss: seq<Snake>, k: int, cur: int, X: seq<seq<JChar>>, Y: seq<seq<JChar>>,
                        st: Style): seq<JChar>
    requires Ordered(ss, |X|, |Y|) && 0 <= k < |ss| - 1 && 0 <= cur
  {
    var s, t := ss[k], ss[k + 1];
    Walked(st.context, X, cur, s.u, st.unified, st.nl)
    + (if st.withOld then Walked(st.removed, X, s.u, t.x, st.unified, st.nl) else [])
    + (if st.withNew then Walked(st.added, Y, s.v, t.y, st.unified, st.nl) else [])
  }

  /** With both files shown, a round is the context, file 1's lines, file 2's. */
  lemma UnifiedRoundIs(ss: seq<Snake>, k: int, cur: int, X: seq<seq<JChar>>, Y: seq<seq<JChar>>, st: Style)
    requires Ordered(ss, |X|, |Y|) && 0 <= k < |ss| - 1 && 0 <= cur && st.withOld && st.withNew
    ensures UnifiedRound(ss, k, cur, X, Y, st)
         == Walked(st.context, X, cur, ss[k].u, st.unified, st.nl) + Walked(st.removed, X, ss[k].u, ss[k + 1].x, st.unified, st.nl)
            + Walked(st.added, Y, ss[k].v, ss[k + 1].y, st.unified, st.nl)
  {
  }

  /** The body of a unified block from snake k to snake j: its rounds, each
      resuming where the next snake starts in file 1. */
  function UnifiedBody(ss: seq<Snake>, k: int, j: int, cur: int, X: seq<seq<JChar>>, Y: seq<seq<JChar>>,
                       st: Style): seq<JChar>
    requires Ordered(ss, |X|, |Y|) && 0 <= k <= j < |ss| && 0 <= cur
    decreases j - k
  {
    if k == j then []
    else UnifiedRound(ss, k, cur, X, Y, st) + UnifiedBody(ss, k + 1, j, ss[k + 1].x, X, Y, st)
  }

  /** A unified body past its first round. */
  lemma UnifiedFrom(ss: seq<Snake>, k: int, j: int, cur: int, X: seq<seq<JChar>>, Y: seq<seq<JChar>>, st: Style)
    requires Ordered(ss, |X|, |Y|) && 0 <= k < j < |ss| && 0 <= cur
    ensures UnifiedBody(ss, k, j, cur, X, Y, st)
         == UnifiedRound(ss, k, cur, X, Y, st) + UnifiedBody(ss, k + 1, j, ss[k + 1].x, X, Y, st)
  {
  }

  lemma UnifiedNone(ss: seq<Snake>, j: int, cur: int, X: seq<seq<JChar>>, Y: seq<seq<JChar>>, st: Style)
    requires Ordered(ss, |X|, |Y|) && 0 <= j < |ss| && 0 <= cur
    ensures UnifiedBody(ss, j, j, cur, X, Y, st) == []
  {
  }

  /** `@@ -start,count +start,count @@`, the counts in int arithmetic. */
  function UnifiedHeader(sx: int, ex: int, sy: int, ey: int, nl: seq<JChar>): seq<JChar>
  {
    Str("@@ -") + Dec(sx + 1) + Str(",") + Dec(Wrap32(ex - sx)) + Str(" +") + Dec(sy + 1) + Str(",")
    + Dec(Wrap32(ey - sy)) + Str(" @@") + nl
  }

  /** A unified block from snake i to snake j: the header, the body and
      the context after it. */
  function UnifiedBlock(ss: seq<Snake>, i: int, j: int, c: int, X: seq<seq<JChar>>, Y: seq<seq<JChar>>,
                        nl: seq<JChar>, unified: bool): seq<JChar>
    requires Ordered(ss, |X|, |Y|) && 0 <= i < j < |ss| && 0 <= c
  {
    var s, t := ss[i], ss[j];
    var sx, sy := Low(s.u, c), Low(s.v, c);
    var ex, ey := High(t.x, c, |X|), High(t.y, c, |Y|);
    UnifiedHeader(sx, ex, sy, ey, nl) + UnifiedBody(ss, i, j, sx, X, Y, UnifiedStyle(nl, unified))
    + Walked(Str(" "), X, t.x, ex, unified, nl)
  }

  function UnifiedText(ss: seq<Snake>, i: int, c: int, X: seq<seq<JChar>>, Y: seq<seq<JChar>>,
                       nl: seq<JChar>, unified: bool): seq<JChar>
    requires Ordered(ss, |X|, |Y|) && 0 <= i < |ss| && 0 <= c
    decreases |ss| - i
  {
    if i == |ss| - 1 then []
    else
      var j := BlockEnd(ss, i + 1, c);
      UnifiedBlock(ss, i, j, c, X, Y, nl, unified) + UnifiedText(ss, j, c, X, Y, nl, unified)
  }

  /** UnifiedBlock as a printer builds it, one piece after another. */
  lemma UnifiedBlockIs(ss: seq<Snake>, i: int, j: int, c: int, X: seq<seq<JChar>>, Y: seq<seq<JChar>>,
                       nl: seq<JChar>, unified: bool, pre: seq<JChar>, text: seq<JChar>)
    requires Ordered(ss, |X|, |Y|) && 0 <= i < j < |ss| && 0 <= c
    requires var s, t := ss[i], ss[j];
      var sx, sy := Low(s.u, c), Low(s.v, c);
      var ex, ey := High(t.x, c, |X|), High(t.y, c, |Y|);
      text == pre + UnifiedHeader(sx, ex, sy, ey, nl) + UnifiedBody(ss, i, j, sx, X, Y, UnifiedStyle(nl, unified))
              + Walked(Str(" "), X, t.x, ex, unified, nl)
    ensures text == pre + UnifiedBlock(ss, i, j, c, X, Y, nl, unified)
  {
    hide UnifiedHeader, UnifiedBody, Walked;
  }

  /** ContextBlock as a printer builds it, one piece after another. */
  lemma ContextBlockIs(ss: seq<Snake>, i: int, j: int, c: int, X: seq<seq<JChar>>, Y: seq<seq<JChar>>,
                       nl: seq<JChar>, unified: bool, pre: seq<JChar>, text: seq<JChar>)
    requires Ordered(ss, |X|, |Y|) && 0 <= i < j < |ss| && 0 <= c
    requires var s, t := ss[i], ss[j];
      var sx, sy := Low(s.u, c), Low(s.v, c);
      var ex, ey := High(t.x, c, |X|), High(t.y, c, |Y|);
      text == pre + ContextHeader(sx, ex, nl) + SideText(ss, i, j, sx, ex, X, Y, true, ContextStyle(nl, unified))
              + ContextSeparator(sy, ey, nl) + SideText(ss, i, j, sy, ey, X, Y, false, ContextStyle(nl, unified))
    ensures text == pre + ContextBlock(ss, i, j, c, X, Y, nl, unified)
  {
    hide SideText, ContextHeader, ContextSeparator;
  }

  /** A block's start and end are within the file's lines. */
  lemma LowHigh(u: int, x: int, c: int, n: int)
    requires 0 <= u && 0 <= c && 0 <= n
    ensures 0 <= Low(u, c) <= u && High(x, c, n) <= n
  {
  }

  /** Without marks, lines lo .. hi - 1 are tokens lo .. hi - 1 put
      together. */
  lemma {:induction false} MarkedBare(T: seq<seq<JChar>>, lo: int, hi: int)
    requires 0 <= lo <= hi <= |T|
    ensures Marked([], T, lo, hi) == Concat(T[lo..hi])
    decreases hi - lo
  {
    if hi == lo {
      assert T[lo..hi] == [];
    } else {
      MarkedBare(T, lo, hi - 1);
      assert T[lo..hi][..hi - lo - 1] == T[lo..hi - 1];
    }
  }

  /** A bare run, outside a unified diff, is its tokens put together. */
  lemma WalkedBare(T: seq<seq<JChar>>, lo: int, hi: int)
    requires 0 <= lo <= hi <= |T|
    ensures Walked([], T, lo, hi, false, []) == Concat(T[lo..hi])
  {
    MarkedBare(T, lo, hi);
  }

  /** Two bare runs, one after the other, are the run across both. */
  lemma BareJoin(T: seq<seq<JChar>>, a: int, b: int, c: int)
    requires 0 <= a <= b <= c <= |T|
    ensures Walked([], T, a, b, false, []) + Walked([], T, b, c, false, []) == Concat(T[a..c])
  {
    WalkedBare(T, a, b);
    WalkedBare(T, b, c);
    SliceJoin(T, a, b, c);
    ConcatAppend(T[a..b], T[b..c]);
  }

  /** A round without marks or file 2's lines. */
  lemma UnifiedRoundOld(ss: seq<Snake>, k: int, cur: int, X: seq<seq<JChar>>, Y: seq<seq<JChar>>)
    requires Ordered(ss, |X|, |Y|) && 0 <= k < |ss| - 1 && 0 <= cur
    ensures UnifiedRound(ss, k, cur, X, Y, Bare(true, false))
         == Walked([], X, cur, ss[k].u, false, []) + Walked([], X, ss[k].u, ss[k + 1].x, false, [])
  {
  }

  /** A round without marks or file 1's removed lines. */
  lemma UnifiedRoundNew(ss: seq<Snake>, k: int, cur: int, X: seq<seq<JChar>>, Y: seq<seq<JChar>>)
    requires Ordered(ss, |X|, |Y|) && 0 <= k < |ss| - 1 && 0 <= cur
    ensures UnifiedRound(ss, k, cur, X, Y, Bare(false, true))
         == Walked([], X, cur, ss[k].u, false, []) + Walked([], Y, ss[k].v, ss[k + 1].y, false, [])
  {
  }

  /** Without marks or file 2's lines, a unified body from a point within
      snake k is file 1 from there to where snake j starts: the context
      and the removed lines are each line of file 1 once, in order. */
  lemma {:induction false} UnifiedShowsOld(ss: seq<Snake>, k: int, j: int, cur: int, X: seq<seq<JChar>>,
                                           Y: seq<seq<JChar>>)
    requires Ordered(ss, |X|, |Y|) && 0 <= k < j < |ss| && 0 <= cur <= ss[k].u
    ensures cur <= ss[j].x
    ensures UnifiedBody(ss, k, j, cur, X, Y, Bare(true, false)) == Concat(X[cur..ss[j].x])
    decreases j - k
  {
    hide UnifiedBody, UnifiedRound, Walked, Concat;
    var s, t := ss[k], ss[k + 1];
    var st := Bare(true, false);
    Rising(ss, |X|, |Y|, k + 1, j);
    UnifiedFrom(ss, k, j, cur, X, Y, st);
    UnifiedRoundOld(ss, k, cur, X, Y);
    BareJoin(X, cur, s.u, t.x);
    if k + 1 == j {
      UnifiedNone(ss, j, t.x, X, Y, st);
      AppendEmpty(Concat(X[cur..t.x]), []);
    } else {
      UnifiedShowsOld(ss, k + 1, j, t.x, X, Y);
      SliceJoin(X, cur, t.x, ss[j].x);
      ConcatAppend(X[cur..t.x], X[t.x..ss[j].x]);
    }
  }

  /** Without marks or file 1's removed lines, a unified body from where
      snake k starts is file 2 from where snake k starts to where snake j
      starts, when the snakes pair equal tokens: the context and the added
      lines are each line of file 2 once, in order. */
  lemma {:induction false} UnifiedShowsNew(ss: seq<Snake>, k: int, j: int, X: seq<seq<JChar>>, Y: seq<seq<JChar>>)
    requires Ordered(ss, |X|, |Y|) && SameOnSnakes(ss, X, Y) && 0 <= k <= j < |ss|
    ensures ss[k].y <= ss[j].y
    ensures UnifiedBody(ss, k, j, ss[k].x, X, Y, Bare(false, true)) == Concat(Y[ss[k].y..ss[j].y])
    decreases j - k
  {
    hide UnifiedBody, UnifiedRound, Walked, Concat;
    Rising(ss, |X|, |Y|, k, j);
    var st := Bare(false, true);
    if k == j {
      UnifiedNone(ss, j, ss[k].x, X, Y, st);
      assert Y[ss[k].y..ss[j].y] == [];
      ConcatNone();
    } else {
      var s, t := ss[k], ss[k + 1];
      Rising(ss, |X|, |Y|, k + 1, j);
      assert X[s.x..s.u] == Y[s.y..s.v];
      UnifiedFrom(ss, k, j, s.x, X, Y, st);
      UnifiedRoundNew(ss, k, s.x, X, Y);
      WalkedBare(X, s.x, s.u);
      WalkedBare(Y, s.y, s.v);
      BareJoin(Y, s.y, s.v, t.y);
      UnifiedShowsNew(ss, k + 1, j, X, Y);
      SliceJoin(Y, s.y, t.y, ss[j].y);
      ConcatAppend(Y[s.y..t.y], Y[t.y..ss[j].y]);
    }
  }

  /** Without marks, one side of a context block from a point within snake
      k is its file's lines from there to where its context stops, each
      once and in order. */
  lemma {:induction false} SideShows(ss: seq<Snake>, k: int, j: int, cur: int, X: seq<seq<JChar>>,
                                     Y: seq<seq<JChar>>, left: bool)
    requires Ordered(ss, |X|, |Y|) && 0 <= k <= j < |ss| && 0 <= cur
    requires cur <= (if left then ss[k].u else ss[k].v)
    ensures var r := Side(ss, k, j, cur, X, Y, left, Bare(true, true));
      && cur <= r.1 <= (if left then |X| else |Y|) && r.0 == Concat((if left then X else Y)[cur..r.1])
      && (r.1 == cur || (if left then ss[k].u else ss[k].v) < r.1)
    decreases j - k
  {
    var T := if left then X else Y;
    var st := Bare(true, true);
    if k == j {
      assert T[cur..cur] == [];
    } else {
      var s, t := ss[k], ss[k + 1];
      var lo, hi := if left then s.u else s.v, if left then t.x else t.y;
      var a := SideRound(ss, k, cur, X, Y, left, st);
      if lo < hi {
        BareJoin(T, cur, lo, hi);
        assert a == (Concat(T[cur..hi]), hi);
      } else {
        assert a == ([], cur);
      }
      SideShows(ss, k + 1, j, a.1, X, Y, left);
      var b := Side(ss, k + 1, j, a.1, X, Y, left, st);
      SliceJoin(T, cur, a.1, b.1);
      ConcatAppend(T[cur..a.1], T[a.1..b.1]);
    }
  }

  /** Without marks, a side of a context block that has lines is its
      file's lines from the block's start to its end, when the end is past
      the last gap; a side with no lines prints nothing. */
  lemma SideTextShows(ss: seq<Snake>, i: int, j: int, start: int, end: int, X: seq<seq<JChar>>,
                      Y: seq<seq<JChar>>, left: bool)
    requires Ordered(ss, |X|, |Y|) && 0 <= i <= j < |ss| && 0 <= start <= (if left then ss[i].u else ss[i].v)
    requires end <= (if left then |X| else |Y|)
    ensures var r := Side(ss, i, j, start, X, Y, left, Bare(true, true));
      var T := if left then X else Y;
      && ((if left then ss[i].u else ss[i].v) < r.1 <= end ==>
            SideText(ss, i, j, start, end, X, Y, left, Bare(true, true)) == Concat(T[start..end]))
      && (r.1 <= (if left then ss[i].u else ss[i].v) ==> SideText(ss, i, j, start, end, X, Y, left, Bare(true, true)) == [])
  {
    hide Side, Walked, Concat;
    var T := if left then X else Y;
    var r := Side(ss, i, j, start, X, Y, left, Bare(true, true));
    SideShows(ss, i, j, start, X, Y, left);
    if (if left then ss[i].u else ss[i].v) < r.1 <= end {
      BareJoin(T, start, r.1, end);
      WalkedBare(T, start, r.1);
    } else if r.1 <= (if left then ss[i].u else ss[i].v) {
      assert r.1 == start;
      assert T[start..start] == [];
      ConcatNone();
    }
  }

  // ---------------------------------------------------------------------
  // The printer.

  /** The loop of Walker: seek to token sx of s, then dump each token up
      to ex - 1 after the mark; lineEnd says whether the last dump ended a
      line (true when there was none). */
  method WalkLines(mark: seq<JChar>, s: Sequence, ghost T: seq<seq<JChar>>, sx: int, ex: int)
    returns (text: seq<JChar>, lineEnd: bool)
    requires s.Valid() && T == s.Tokens() && 0 <= sx <= |T| && ex <= |T|
    modifies s.readfile, s.readfile.buf
    ensures s.Valid()
    ensures text == Marked(mark, T, sx, ex)
    ensures lineEnd == LastEnds(T, sx, ex)
  {
    s.SeekLine(sx);
    text, lineEnd := [], true;
    var i := sx;
    while i < ex
      invariant sx <= i <= |T| && (i == sx || i <= ex)
      invariant s.Valid() && s.Tokens() == T && s.readfile.Tell() == s.Off(i)
      invariant text == Marked(mark, T, sx, i)
      invariant lineEnd == LastEnds(T, sx, i)
      decreases ex - i
    {
      text, lineEnd := WalkOne(mark, s, T, sx, i, text);
      i := i + 1;
    }
    assert i == ex || (i == sx && ex <= sx);
  }

  /** One round of Walker's loop: the mark, then token i dumped. */
  method WalkOne(mark: seq<JChar>, s: Sequence, ghost T: seq<seq<JChar>>, ghost sx: int, i: int, text: seq<JChar>)
    returns (text': seq<JChar>, lineEnd: bool)
    requires s.Valid() && T == s.Tokens() && 0 <= sx <= i < |T| && s.readfile.Tell() == s.Off(i)
    requires text == Marked(mark, T, sx, i)
    modifies s.readfile, s.readfile.buf
    ensures s.Valid() && s.readfile.Tell() == s.Off(i + 1)
    ensures text' == Marked(mark, T, sx, i + 1) && (lineEnd <==> EndsLine(T[i]))
  {
    s.DumpsToken(i);
    var next, written, ends := s.Dump(i, i + 1);
    MarkedStep(mark, T, sx, i);
    text', lineEnd := text + (mark + written), ends;
  }

  /** SeekLine to token lo of s, then Dump up to token hi: tokens lo ..
      hi - 1 put together, with the position the dump moves lo to. */
  method DumpRun(s: Sequence, lo: int, hi: int) returns (l: int, written: seq<JChar>)
    requires s.Valid() && 0 <= lo <= hi <= s.Lines()
    modifies s.readfile, s.readfile.buf
    ensures s.Valid() && l == hi && written == Concat(s.Tokens()[lo..hi])
  {
    s.SeekLine(lo);
    l, written := DumpFrom(s, lo, hi);
  }

  /** Dump from the start of token lo, where the cursor is, up to token
      hi: tokens lo .. hi - 1 put together, the cursor left at the start
      of token hi, and the position the dump moves lo to. */
  method DumpFrom(s: Sequence, lo: int, hi: int) returns (l: int, written: seq<JChar>)
    requires s.Valid() && 0 <= lo <= hi <= s.Lines() && s.readfile.Tell() == s.Off(lo)
    modifies s.readfile, s.readfile.buf
    ensures s.Valid() && s.readfile.Tell() == s.Off(hi) && l == hi && written == Concat(s.Tokens()[lo..hi])
  {
    s.Span(lo, hi);
    var ends;
    l, written, ends := s.Dump(lo, hi);
  }

  /** One round of DiffHTML's loop on the files' sequences, for snake s
      before snake t: seek both files, dump the snake's lines of file 1,
      then the gap's lines of each file between the font tags; with where
      the dumps move s's ends. */
  method HtmlSides(sx: Sequence, sy: Sequence, s: Snake, t: Snake) returns (x: int, u: int, v: int, text: seq<JChar>)
    requires sx.Valid() && sy.Valid() && sx.Apart(sy)
    requires 0 <= s.x <= s.u <= t.x <= sx.Lines() && 0 <= s.v <= t.y <= sy.Lines()
    modifies sx.readfile, sx.readfile.buf, sy.readfile, sy.readfile.buf
    ensures sx.Valid() && sy.Valid() && sx.Apart(sy)
    ensures Snake(x, s.y, u, v) == HtmlMove(s, t)
    ensures text == HtmlRound(s, t, sx.Tokens(), sy.Tokens())
  {
    sx.SeekLine(s.x);
    sy.SeekLine(s.v);
    var same, old1, new1;
    x, same := DumpFrom(sx, s.x, s.u);
    u, old1 := DumpFrom(sx, s.u, t.x);
    v, new1 := DumpFrom(sy, s.v, t.y);
    text := same + Str("<font color=red>") + old1 + Str("</font><font color=blue>") + new1 + Str("</font>");
  }

  /** The loop of DiffSummary: the counts of every gap between
      consecutive snakes, added up. */
  method CountChanges(ss: seq<Snake>) returns (n: Tally)
    ensures n == TallyOf(Hunks(ss))
  {
    hide TallyOf, Plus;
    ghost var hs := Hunks(ss);
    n := NoTally;
    PlusNone(TallyOf(hs));
    var k := 0;
    while k < |ss| - 1
      invariant 0 <= k <= |hs|
      invariant Plus(n, TallyOf(hs[k..])) == TallyOf(hs)
    {
      TallyFrom(hs, k);
      PlusAssoc(n, TallyOne(hs[k]), TallyOf(hs[k + 1..]));
      n := CountOne(n, ss[k], ss[k + 1]);
      k := k + 1;
    }
    assert hs[k..] == [];
    TallyNone();
    PlusNone(n);
  }

  /** One round of DiffSummary's loop: the gap between snakes s and t
      counted as a change if it has lines on both sides, else as an
      addition if it has lines of file 2, else as a deletion if it has
      lines of file 1. */
  method CountOne(n: Tally, s: Snake, t: Snake) returns (n': Tally)
    ensures n' == Plus(n, TallyOne(Hunk(s.u, t.x, s.v, t.y)))
  {
    n' := n;
    if s.u < t.x && s.v < t.y {
      n' := n'.(linesEditedIn := n'.linesEditedIn + (t.x - s.u));
      n' := n'.(linesEditedOut := n'.linesEditedOut + (t.y - s.v));
      n' := n'.(chunksEdited := n'.chunksEdited + 1);
    } else if s.v < t.y {
      n' := n'.(linesAdded := n'.linesAdded + (t.y - s.v));
      n' := n'.(chunksAdded := n'.chunksAdded + 1);
    } else if s.u < t.x {
      n' := n'.(linesDeleted := n'.linesDeleted + (t.x - s.u));
      n' := n'.(chunksDeleted := n'.chunksDeleted + 1);
    }
  }

  /** The inner loop of DiffContext and DiffUnified: from the snake after
      snake i, move on while the snake is short and not the last. */
  method FindBlockEnd(ss: seq<Snake>, i: int, c: int) returns (j: int)
    requires 0 <= i < |ss| - 1
    ensures j == BlockEnd(ss, i + 1, c)
  {
    j := i + 1;
    while j < |ss| - 1 && Short(ss[j], c)
      invariant i < j < |ss| && BlockEnd(ss, j, c) == BlockEnd(ss, i + 1, c)
      decreases |ss| - j
    {
      j := j + 1;
    }
  }

  /** A diff of two files: their token sequences, the analysis of the two,
      and the text the printers have written so far. */
  class Diff {
    const spx: Sequence
    const spy: Sequence
    /** The flags given with the input: Walker's note follows their output
        type. */
    const flags: DiffFlags
    const diff: DiffAnalyze
    /** System.lineSeparator(). */
    const newLines: seq<JChar>
    /** The analysis's depth limit: 1 after DiffFast, else 0. */
    const fastMaxD: int
    /** What the writer has been given. */
    var out: seq<JChar>
    var chunkCnt: int

    /** Both files are open and loaded, each through a reader of its own. */
    ghost predicate Ready()
      reads spx, spx.readfile, spx.readfile.buf, spy, spy.readfile, spy.readfile.buf
    {
      spx.Valid() && spy.Valid() && spx.Apart(spy)
    }

    /** Ready, and the snake list is ordered within the two files. */
    ghost predicate Valid()
      reads spx, spx.readfile, spx.readfile.buf, spy, spy.readfile, spy.readfile.buf, diff
    {
      Ready() && Ordered(diff.snakes, spx.Lines(), spy.Lines())
    }

    /** The analysis compares the two files: their hashes, and the tokens
        under the sequencer's policy. */
    ghost predicate Linked()
      reads spx, spy
    {
      && spx.Loaded() && spy.Loaded() && spx.kind == spy.kind
      && diff.a == spx.Hashes() && diff.b == spy.Hashes()
      && forall i, j :: 0 <= i < spx.Lines() && 0 <= j < spy.Lines() ==>
           diff.sequencerEqual(i, j) == SameToken(spx.kind, spx.Token(i), spy.Token(j))
    }

    /** SetInput: load both files under the flags' policy and analyze them,
        with the depth limit DiffFast asks for when `fast` is set. */
    constructor (data1: seq<byte>, data2: seq<byte>, flags: DiffFlags, alphabetic: JChar -> bool,
                 fast: bool, newLines: seq<JChar>)
      ensures Valid() && Linked() && diff.SnakeList(diff.snakes)
      ensures spx.readfile.data == data1 && spy.readfile.data == data2 && spx.kind == flags.sequence
      ensures this.flags == flags && this.newLines == newLines && fastMaxD == (if fast then 1 else 0)
      ensures out == [] && chunkCnt == 0
    {
      var kind := flags.sequence;
      var x := new Sequence(data1, FILESYS_BUFSIZE, kind, alphabetic);
      var y := new Sequence(data2, FILESYS_BUFSIZE, kind, alphabetic);
      var X, Y := x.Tokens(), y.Tokens();
      var maxD := if fast then 1 else 0;
      var d := new DiffAnalyze(x.Hashes(), y.Hashes(),
                               (i, j) => 0 <= i < |X| && 0 <= j < |Y| && SameToken(kind, X[i], Y[j]), maxD);
      spx, spy, diff := x, y, d;
      this.flags, this.newLines, fastMaxD := flags, newLines, maxD;
      out, chunkCnt := [], 0;
      new;
      SnakeListOrdered();
    }

    /** A finished analysis leaves its snakes ordered within the files. */
    lemma SnakeListOrdered()
      requires |diff.a| == spx.Lines() && |diff.b| == spy.Lines() && diff.SnakeList(diff.snakes)
      ensures Ordered(diff.snakes, spx.Lines(), spy.Lines())
    {
      var ss := diff.snakes;
      forall k | 0 <= k < |ss|
        ensures 0 <= ss[k].x <= ss[k].u <= spx.Lines() && 0 <= ss[k].y <= ss[k].v <= spy.Lines()
      {
        assert diff.Inside(ss[k], 0, 0, |diff.a|, |diff.b|);
      }
      forall k | 0 <= k < |ss| - 1
        ensures ss[k].u <= ss[k + 1].x && ss[k].v <= ss[k + 1].y
      {
        assert diff.Precedes(ss[k], ss[k + 1]);
      }
    }

    /** Under a plain policy (lines, words or word classes, where tokens
        are the same only when equal), the snakes of a finished analysis
        pair equal tokens. */
    lemma SnakesPairEqual()
      requires Linked() && diff.SnakeList(diff.snakes) && spx.kind in {Line, Word, WClass}
      ensures Ordered(diff.snakes, spx.Lines(), spy.Lines())
      ensures SameOnSnakes(diff.snakes, spx.Tokens(), spy.Tokens())
    {
      SnakeListOrdered();
      var ss := diff.snakes;
      forall k | 0 <= k < |ss|
        ensures spx.Tokens()[ss[k].x..ss[k].u] == spy.Tokens()[ss[k].y..ss[k].v]
      {
        assert diff.Inside(ss[k], 0, 0, |diff.a|, |diff.b|) && diff.Matched(ss[k]);
        SnakePairsEqual(ss[k]);
      }
    }

    /** One snake of the analysis, under a plain policy: its runs of the
        two files are equal. */
    lemma SnakePairsEqual(s: Snake)
      requires Linked() && spx.kind in {Line, Word, WClass}
      requires diff.Inside(s, 0, 0, |diff.a|, |diff.b|) && diff.Matched(s)
      ensures spx.Tokens()[s.x..s.u] == spy.Tokens()[s.y..s.v]
    {
      LinkedSizes();
      hide Linked;
      forall i: int | s.x <= i < s.u
        ensures spx.Token(i) == spy.Token(i - s.x + s.y)
      {
        PairOnSnake(s, i);
        TokensEqualAt(i, i - s.x + s.y);
      }
      SlicesEqual(spx.Tokens(), spy.Tokens(), s.x, s.u, s.y, s.v);
    }

    /** A pair on a matched snake is one the sequencer finds the same. */
    lemma PairOnSnake(s: Snake, i: int)
      requires diff.Inside(s, 0, 0, |diff.a|, |diff.b|) && diff.Matched(s) && s.x <= i < s.u
      ensures 0 <= i < |diff.a| && 0 <= i - s.x + s.y < |diff.b| && diff.sequencerEqual(i, i - s.x + s.y)
    {
      assert diff.Match(s.x, s.y, i);
    }

    /** Linked files are loaded, and the analysis has a hash per token. */
    lemma LinkedSizes()
      requires Linked()
      ensures spx.Loaded() && spy.Loaded() && |diff.a| == spx.Lines() && |diff.b| == spy.Lines()
    {
    }

    /** Under a plain policy, the sequencer finds tokens the same only when
        they are equal. */
    lemma TokensEqualAt(i: int, j: int)
      requires Linked() && spx.kind in {Line, Word, WClass}
      requires 0 <= i < spx.Lines() && 0 <= j < spy.Lines() && diff.sequencerEqual(i, j)
      ensures spx.Token(i) == spy.Token(j)
    {
    }

    /** Under a plain policy, the gaps between the snakes of a finished
        analysis rebuild file 2 from file 1: as a patch, and as the RCS
        script DiffRcs prints. */
    lemma Rebuilt()
      requires Linked() && diff.SnakeList(diff.snakes) && spx.kind in {Line, Word, WClass}
      ensures Ordered(diff.snakes, spx.Lines(), spy.Lines())
      ensures Chained(Hunks(diff.snakes), 0, spx.Lines(), spy.Lines())
      ensures Patched(spx.Tokens(), spy.Tokens(), Hunks(diff.snakes), 0) == spy.Tokens()
      ensures RcsChained(RcsScript(Hunks(diff.snakes), spy.Tokens()), 0, spx.Lines())
      ensures ApplyRcs(spx.Tokens(), RcsScript(Hunks(diff.snakes), spy.Tokens()), 0) == spy.Tokens()
    {
      SnakesPairEqual();
      RebuildsAll(diff.snakes, spx.Tokens(), spy.Tokens());
    }

    /** A finished analysis with a single snake (what IsIdentical reports)
        found the files to have as many tokens, pairwise the same under
        the policy. */
    lemma IdenticalMeansEqual()
      requires Linked() && diff.SnakeList(diff.snakes) && |diff.snakes| == 1
      ensures spx.Lines() == spy.Lines()
      ensures forall i :: 0 <= i < spx.Lines() ==> SameToken(spx.kind, spx.Token(i), spy.Token(i))
    {
      var s := diff.snakes[0];
      assert diff.Inside(s, 0, 0, |diff.a|, |diff.b|) && diff.Matched(s);
      forall i | 0 <= i < spx.Lines()
        ensures SameToken(spx.kind, spx.Token(i), spy.Token(i))
      {
        assert diff.Match(s.x, s.y, i);
      }
    }

    /** Walker: lines sx .. ex - 1 of s, each after the mark; under a
        unified diff, a note when the last of them has no line end. */
    method Walker(mark: seq<JChar>, s: Sequence, sx: int, ex: int)
      requires Ready() && (s == spx || s == spy) && 0 <= sx <= s.Lines() && ex <= s.Lines()
      modifies this`out, s.readfile, s.readfile.buf
      ensures Ready()
      ensures out == old(out) + Walked(mark, s.Tokens(), sx, ex, flags.outputType == Unified, newLines)
    {
      var text, lineEnd := WalkLines(mark, s, s.Tokens(), sx, ex);
      var note := [];
      if !lineEnd && flags.outputType == Unified {
        note := NoNewline(newLines);
      }
      Regroup3(old(out), text, note);
      out := out + text + note;
    }

    /** One round of DiffNorm's loop: the gap between snakes s and t, as a
        normal diff prints it. */
    method NormPrint(s: Snake, t: Snake)
      requires Ready() && Fits(Hunk(s.u, t.x, s.v, t.y), spx.Lines(), spy.Lines())
      modifies this`out, spx.readfile, spx.readfile.buf, spy.readfile, spy.readfile.buf
      ensures Ready()
      ensures out == old(out) + NormHunk(Hunk(s.u, t.x, s.v, t.y), spx.Tokens(), spy.Tokens(), newLines,
                                          flags.outputType == Unified)
    {
      var c: char;
      var nx, ny := s.u, s.v;
      if s.u < t.x && s.v < t.y {
        c := 'c';
        nx, ny := nx + 1, ny + 1;
      } else if s.u < t.x {
        c := 'd';
        nx := nx + 1;
      } else if s.v < t.y {
        c := 'a';
        ny := ny + 1;
      } else {
        return;
      }
      var h := Hunk(s.u, t.x, s.v, t.y);
      NormHeaderPrint(h, c, nx, ny);
      ghost var head := out;
      ghost var B := NormBody(h, spx.Tokens(), spy.Tokens(), newLines, flags.outputType == Unified);
      NormLines(s, t, c == 'c');
      Regroup3(old(out), NormHeader(h, newLines), B);
    }

    /** The header line of DiffNorm's round: the first line number of each
        side, the edit letter, and the last line numbers where a range runs
        on. */
    method NormHeaderPrint(h: Hunk, c: char, nx: int, ny: int)
      requires !Empty(h) && c == NormOp(h)
      requires nx == (if h.x0 < h.x1 then h.x0 + 1 else h.x0) && ny == (if h.y0 < h.y1 then h.y0 + 1 else h.y0)
      modifies this`out
      ensures out == old(out) + NormHeader(h, newLines)
    {
      var first := Dec(nx);
      if h.x1 > nx {
        first := first + (Str(",") + Dec(h.x1));
      } else {
        AppendEmpty(first, []);
      }
      var second := Dec(ny);
      if h.y1 > ny {
        second := second + (Str(",") + Dec(h.y1));
      } else {
        AppendEmpty(second, []);
      }
      assert first == Range(nx, h.x1) && second == Range(ny, h.y1);
      out := out + (first + Str([c]) + second + newLines);
      HeaderIs(h, c, nx, ny, newLines);
    }

    /** The rest of DiffNorm's round for a gap with lines: file 1's lines,
        `---` for a change, file 2's lines. */
    method NormLines(s: Snake, t: Snake, change: bool)
      requires Ready() && Fits(Hunk(s.u, t.x, s.v, t.y), spx.Lines(), spy.Lines())
      requires change <==> NormOp(Hunk(s.u, t.x, s.v, t.y)) == 'c'
      modifies this`out, spx.readfile, spx.readfile.buf, spy.readfile, spy.readfile.buf
      ensures Ready()
      ensures out == old(out) + NormBody(Hunk(s.u, t.x, s.v, t.y), spx.Tokens(), spy.Tokens(), newLines,
                                          flags.outputType == Unified)
    {
      ghost var X, Y, u := spx.Tokens(), spy.Tokens(), flags.outputType == Unified;
      ghost var W1, W2 := Walked(Str("< "), X, s.u, t.x, u, newLines), Walked(Str("> "), Y, s.v, t.y, u, newLines);
      var C: seq<JChar> := if change then Str("---") + newLines else [];
      Walker(Str("< "), spx, s.u, t.x);
      if change {
        out := out + C;
      } else {
        AppendEmpty(out, C);
      }
      Regroup3(old(out), W1, C);
      Walker(Str("> "), spy, s.v, t.y);
      Regroup3(old(out), W1 + C, W2);
    }

    /** DiffNorm: every gap between consecutive snakes, in order, as a
        normal diff prints it. */
    method DiffNorm()
      requires Valid()
      modifies this`out, spx.readfile, spx.readfile.buf, spy.readfile, spy.readfile.buf
      ensures Valid()
      ensures out == old(out) + NormText(Hunks(diff.snakes), spx.Tokens(), spy.Tokens(), newLines,
                                          flags.outputType == Unified)
    {
      hide NormHunk;
      ghost var X, Y, u := spx.Tokens(), spy.Tokens(), flags.outputType == Unified;
      var ss := diff.snakes;
      ghost var hs := Hunks(ss);
      OrderedFit(ss, |X|, |Y|);
      var k := 0;
      while k < |ss| - 1
        invariant 0 <= k <= |hs| && Ready() && AllFit(hs[k..], |X|, |Y|)
        invariant out + NormText(hs[k..], X, Y, newLines, u) == old(out) + NormText(hs, X, Y, newLines, u)
      {
        ghost var before, rest := out, NormText(hs[k + 1..], X, Y, newLines, u);
        NormTextFrom(hs, k, X, Y, newLines, u);
        NormPrint(ss[k], ss[k + 1]);
        Regroup3(before, NormHunk(hs[k], X, Y, newLines, u), rest);
        k := k + 1;
      }
      AppendEmpty(out, NormText(hs[k..], X, Y, newLines, u));
    }

    /** The deletion command of DiffRcs's round, when the gap has lines of
        file 1. */
    method RcsDelete(h: Hunk)
      modifies this`out, this`chunkCnt
      ensures out == old(out) + Render(DelCommands(h), newLines)
      ensures chunkCnt == old(chunkCnt) + |DelCommands(h)|
    {
      if h.x0 < h.x1 {
        out := out + (Str("d") + Dec(h.x0 + 1) + Str(" ") + Dec(h.x1 - h.x0) + newLines);
        chunkCnt := chunkCnt + 1;
        RenderOne(Delete(h.x0 + 1, h.x1 - h.x0), newLines);
      } else {
        RenderNone(newLines);
        AppendEmpty(out, []);
      }
    }

    /** The addition command of DiffRcs's round, when the gap between
        snakes s (number k) and t has lines of file 2: the command, then
        those lines dumped through s's end, which the dump moves to where t
        starts in file 2. */
    method RcsAppend(k: int, s: Snake, t: Snake)
      requires Ready() && 0 <= k < |diff.snakes| && diff.snakes[k] == s
      requires Fits(Hunk(s.u, t.x, s.v, t.y), spx.Lines(), spy.Lines())
      modifies this`out, this`chunkCnt, diff`snakes, spy.readfile, spy.readfile.buf
      ensures Ready()
      ensures diff.snakes == old(diff.snakes)[k := RcsMove(s, t)]
      ensures out == old(out) + Render(AddCommands(Hunk(s.u, t.x, s.v, t.y), spy.Tokens()), newLines)
      ensures chunkCnt == old(chunkCnt) + |AddCommands(Hunk(s.u, t.x, s.v, t.y), spy.Tokens())|
    {
      if s.v < t.y {
        RcsAddLines(k, s, t);
        RenderOne(Append(t.x, t.y - s.v, spy.Tokens()[s.v..t.y]), newLines);
      } else {
        RenderNone(newLines);
        AppendEmpty(out, []);
      }
    }

    /** RcsAppend when the gap has lines of file 2: one `a` command. */
    method RcsAddLines(k: int, s: Snake, t: Snake)
      requires Ready() && 0 <= k < |diff.snakes| && diff.snakes[k] == s
      requires Fits(Hunk(s.u, t.x, s.v, t.y), spx.Lines(), spy.Lines()) && s.v < t.y
      modifies this`out, this`chunkCnt, diff`snakes, spy.readfile, spy.readfile.buf
      ensures Ready()
      ensures diff.snakes == old(diff.snakes)[k := s.(v := t.y)]
      ensures out == old(out) + RenderCommand(Append(t.x, t.y - s.v, spy.Tokens()[s.v..t.y]), newLines)
      ensures chunkCnt == old(chunkCnt) + 1
    {
      hide Str, Dec, Concat;
      ghost var Y := spy.Tokens();
      var header := Str("a") + Dec(t.x) + Str(" ") + Dec(t.y - s.v) + newLines;
      out := out + header;
      chunkCnt := chunkCnt + 1;
      var v, written := DumpRun(spy, s.v, t.y);
      assert spy.Tokens() == Y;
      assert written == Concat(Y[s.v..t.y]);
      out := out + written;
      diff.snakes := diff.snakes[k := s.(v := v)];
      assert RenderCommand(Append(t.x, t.y - s.v, Y[s.v..t.y]), newLines) == header + written;
      Regroup3(old(out), header, written);
    }

    /** One round of DiffRcs's loop: the commands of the gap between snakes
        s (number k) and t. */
    method RcsPrint(k: int, s: Snake, t: Snake)
      requires Ready() && 0 <= k < |diff.snakes| && diff.snakes[k] == s
      requires Fits(Hunk(s.u, t.x, s.v, t.y), spx.Lines(), spy.Lines())
      modifies this`out, this`chunkCnt, diff`snakes, spy.readfile, spy.readfile.buf
      ensures Ready()
      ensures diff.snakes == old(diff.snakes)[k := RcsMove(s, t)]
      ensures out == old(out) + Render(RcsCommands(Hunk(s.u, t.x, s.v, t.y), spy.Tokens()), newLines)
      ensures chunkCnt == old(chunkCnt) + |RcsCommands(Hunk(s.u, t.x, s.v, t.y), spy.Tokens())|
    {
      var h := Hunk(s.u, t.x, s.v, t.y);
      ghost var Y := spy.Tokens();
      RcsDelete(h);
      RcsAppend(k, s, t);
      RenderAppend(DelCommands(h), AddCommands(h, Y), newLines);
      Regroup3(old(out), Render(DelCommands(h), newLines), Render(AddCommands(h, Y), newLines));
    }

    /** DiffRcs's round k over the snakes ss it started with: the snakes
        before k are moved, and what is printed so far followed by the
        script of the gaps from k on is the whole output. */
    method RcsStep(k: int, ghost ss: seq<Snake>, ghost whole: seq<JChar>, ghost count: int)
      requires Ready() && Ordered(ss, spx.Lines(), spy.Lines()) && AllFit(Hunks(ss), spx.Lines(), spy.Lines())
      requires 0 <= k < |ss| - 1 && diff.snakes == RcsMoved(ss)[..k] + ss[k..]
      requires out + Render(RcsScript(Hunks(ss)[k..], spy.Tokens()), newLines) == whole
      requires chunkCnt + |RcsScript(Hunks(ss)[k..], spy.Tokens())| == count
      modifies this`out, this`chunkCnt, diff`snakes, spy.readfile, spy.readfile.buf
      ensures Ready() && diff.snakes == RcsMoved(ss)[..k + 1] + ss[k + 1..]
      ensures out + Render(RcsScript(Hunks(ss)[k + 1..], spy.Tokens()), newLines) == whole
      ensures chunkCnt + |RcsScript(Hunks(ss)[k + 1..], spy.Tokens())| == count
    {
      hide Render, RcsScript, RcsCommands;
      ghost var hs, Y := Hunks(ss), spy.Tokens();
      RcsScriptFrom(hs, k, spx.Lines(), Y);
      MovedStep(RcsMoved(ss), ss, k);
      var s, t := diff.snakes[k], diff.snakes[k + 1];
      ghost var before, C, rest := out, RcsCommands(hs[k], Y), RcsScript(hs[k + 1..], Y);
      RcsPrint(k, s, t);
      RenderAppend(C, rest, newLines);
      Regroup3(before, Render(C, newLines), Render(rest, newLines));
    }

    /** DiffRcs: the RCS script of the gaps, each command counted as a
        chunk; each snake before a gap with lines of file 2 ends,
        afterwards, where the next one starts in file 2. */
    method DiffRcs()
      requires Valid()
      modifies this`out, this`chunkCnt, diff`snakes, spy.readfile, spy.readfile.buf
      ensures Valid() && diff.snakes == RcsMoved(old(diff.snakes))
      ensures out == old(out) + Render(RcsScript(Hunks(old(diff.snakes)), spy.Tokens()), newLines)
      ensures chunkCnt == old(chunkCnt) + |RcsScript(Hunks(old(diff.snakes)), spy.Tokens())|
    {
      hide Render, RcsScript, RcsCommands, RcsMoved, Hunks;
      ghost var X, Y := spx.Tokens(), spy.Tokens();
      ghost var ss := diff.snakes;
      ghost var hs := Hunks(ss);
      OrderedFit(ss, |X|, |Y|);
      ghost var whole, count := out + Render(RcsScript(hs, Y), newLines), chunkCnt + |RcsScript(hs, Y)|;
      var k := 0;
      while k < |diff.snakes| - 1
        invariant 0 <= k <= |hs| && Ready() && diff.snakes == RcsMoved(ss)[..k] + ss[k..]
        invariant out + Render(RcsScript(hs[k..], Y), newLines) == whole
        invariant chunkCnt + |RcsScript(hs[k..], Y)| == count
      {
        RcsStep(k, ss, whole, count);
        k := k + 1;
      }
      RcsKeepsLast(ss);
      MovedDone(RcsMoved(ss), ss, k);
      assert hs[k..] == [];
      RcsScriptNone(Y);
      RenderNone(newLines);
      RcsKeepsOrder(ss, |X|, |Y|);
    }

    /** One round of DiffHTML's loop: snake s (number k) and the gap before
        snake t, with s moved by the dumps. */
    method HtmlPrint(k: int, s: Snake, t: Snake)
      requires Ready() && 0 <= k < |diff.snakes| && diff.snakes[k] == s
      requires 0 <= s.x <= s.u <= t.x <= spx.Lines() && 0 <= s.v <= t.y <= spy.Lines()
      modifies this`out, diff`snakes, spx.readfile, spx.readfile.buf, spy.readfile, spy.readfile.buf
      ensures Ready()
      ensures diff.snakes == old(diff.snakes)[k := HtmlMove(s, t)]
      ensures out == old(out) + HtmlRound(s, t, spx.Tokens(), spy.Tokens())
    {
      var x, u, v, text := HtmlSides(spx, spy, s, t);
      out := out + text;
      diff.snakes := diff.snakes[k := Snake(x, s.y, u, v)];
    }

    /** DiffHTML's round k over the snakes ss it started with. */
    method HtmlStep(k: int, ghost ss: seq<Snake>, ghost whole: seq<JChar>)
      requires Ready() && Ordered(ss, spx.Lines(), spy.Lines())
      requires 0 <= k < |ss| - 1 && diff.snakes == HtmlMoved(ss)[..k] + ss[k..]
      requires Ordered(ss[k..], spx.Lines(), spy.Lines())
      requires out + HtmlText(ss[k..], spx.Tokens(), spy.Tokens()) == whole
      modifies this`out, diff`snakes, spx.readfile, spx.readfile.buf, spy.readfile, spy.readfile.buf
      ensures Ready() && diff.snakes == HtmlMoved(ss)[..k + 1] + ss[k + 1..]
      ensures Ordered(ss[k + 1..], spx.Lines(), spy.Lines())
      ensures out + HtmlText(ss[k + 1..], spx.Tokens(), spy.Tokens()) == whole
    {
      hide HtmlText, HtmlRound;
      ghost var X, Y := spx.Tokens(), spy.Tokens();
      HtmlFrom(ss, X, Y, k);
      MovedStep(HtmlMoved(ss), ss, k);
      var s, t := diff.snakes[k], diff.snakes[k + 1];
      ghost var before, rest := out, HtmlText(ss[k + 1..], X, Y);
      HtmlPrint(k, s, t);
      Regroup3(before, HtmlRound(s, t, X, Y), rest);
    }

    /** DiffHTML: each snake's lines of file 1 and the gap after it, file
        1's side in red and file 2's in blue; each snake but the last is
        moved by the dumps to start where it ended and to end where the
        next one starts. */
    method DiffHTML()
      requires Valid()
      modifies this`out, diff`snakes, spx.readfile, spx.readfile.buf, spy.readfile, spy.readfile.buf
      ensures Valid() && diff.snakes == HtmlMoved(old(diff.snakes))
      ensures out == old(out) + HtmlText(old(diff.snakes), spx.Tokens(), spy.Tokens())
    {
      hide HtmlText, HtmlMoved;
      ghost var X, Y := spx.Tokens(), spy.Tokens();
      ghost var ss := diff.snakes;
      ghost var whole := out + HtmlText(ss, X, Y);
      var k := 0;
      while k < |diff.snakes| - 1
        invariant 0 <= k < |ss| && Ready() && diff.snakes == HtmlMoved(ss)[..k] + ss[k..]
        invariant Ordered(ss[k..], |X|, |Y|)
        invariant out + HtmlText(ss[k..], X, Y) == whole
      {
        HtmlStep(k, ss, whole);
        k := k + 1;
      }
      HtmlKeepsLast(ss);
      MovedDone(HtmlMoved(ss), ss, k);
      HtmlNone(ss[k..], X, Y);
      HtmlKeepsOrder(ss, |X|, |Y|);
    }

    /** DiffSummary: the chunks and lines deleted, added and changed over
        all gaps, in three lines. */
    method DiffSummary()
      requires Valid()
      modifies this`out
      ensures out == old(out) + SummaryText(TallyOf(Hunks(diff.snakes)), newLines)
    {
      hide Str, Dec;
      var n := CountChanges(diff.snakes);
      var text := Str("add ") + Dec(n.chunksAdded) + Str(" chunks ") + Dec(n.linesAdded) + Str(" lines") + newLines
                  + Str("deleted ") + Dec(n.chunksDeleted) + Str(" chunks ") + Dec(n.linesDeleted) + Str(" lines")
                  + newLines
                  + Str("changed ") + Dec(n.chunksEdited) + Str(" chunks ") + Dec(n.linesEditedIn) + Str(" / ")
                  + Dec(n.linesEditedOut) + Str(" lines") + newLines;
      SummaryIs(n, newLines, text);
      out := out + text;
    }

    /** GetChunkCnt: the commands DiffRcs has counted. */
    method GetChunkCnt() returns (n: int)
      ensures n == chunkCnt
    {
      n := chunkCnt;
    }

    /** IsIdentical: the analysis found a single snake, so every diff of
        the two files is empty. */
    method IsIdentical() returns (r: bool)
      requires Valid()
      ensures r <==> |diff.snakes| == 1
      ensures r ==> Hunks(diff.snakes) == [] && TallyOf(Hunks(diff.snakes)) == NoTally
    {
      r := |diff.snakes| == 1;
    }

    /** One round of a side of DiffContext's block, for the gap after snake
        k: when it has lines on that side, the context since cur, then the
        gap's lines; with where the context resumes. */
    method SideRoundPrint(k: int, cur: int, left: bool) returns (cur': int)
      requires Ready() && Ordered(diff.snakes, spx.Lines(), spy.Lines()) && 0 <= k < |diff.snakes| - 1
      requires 0 <= cur <= (if left then spx.Lines() else spy.Lines())
      modifies this`out, spx.readfile, spx.readfile.buf, spy.readfile, spy.readfile.buf
      ensures Ready() && cur' <= (if left then spx.Lines() else spy.Lines())
      ensures var r := SideRound(diff.snakes, k, cur, spx.Tokens(), spy.Tokens(), left,
                                 ContextStyle(newLines, flags.outputType == Unified));
        out == old(out) + r.0 && cur' == r.1
    {
      hide Walked, SideRound;
      ghost var X, Y, st := spx.Tokens(), spy.Tokens(), ContextStyle(newLines, flags.outputType == Unified);
      var s, t := diff.snakes[k], diff.snakes[k + 1];
      var lo, hi := if left then s.u else s.v, if left then t.x else t.y;
      var mark := if (if left then s.v < t.y else s.u < t.x) then Str("! ") else if left then Str("- ") else Str("+ ");
      SideRoundIs(diff.snakes, k, cur, X, Y, left, st, mark);
      cur' := cur;
      if lo < hi {
        if left {
          Walker(Str("  "), spx, cur, lo);
          Walker(mark, spx, lo, hi);
        } else {
          Walker(Str("  "), spy, cur, lo);
          Walker(mark, spy, lo, hi);
        }
        cur' := hi;
      } else {
        AppendEmpty(out, []);
      }
    }

    /** The rounds of one side of DiffContext's block from snake i to snake
        j; with where the context resumes after the last. */
    method SideRounds(i: int, j: int, start: int, left: bool) returns (cur: int)
      requires Ready() && Ordered(diff.snakes, spx.Lines(), spy.Lines()) && 0 <= i <= j < |diff.snakes|
      requires 0 <= start <= (if left then spx.Lines() else spy.Lines())
      modifies this`out, spx.readfile, spx.readfile.buf, spy.readfile, spy.readfile.buf
      ensures Ready() && cur <= (if left then spx.Lines() else spy.Lines())
      ensures var r := Side(diff.snakes, i, j, start, spx.Tokens(), spy.Tokens(), left,
                            ContextStyle(newLines, flags.outputType == Unified));
        out == old(out) + r.0 && cur == r.1
    {
      hide Walked, SideRound, Side;
      cur := SideLoop(i, j, start, left, diff.snakes, spx.Tokens(), spy.Tokens(),
                      ContextStyle(newLines, flags.outputType == Unified));
    }

    /** SideRounds' loop, over the snakes, the tokens and the style it
        starts with. */
    method SideLoop(i: int, j: int, start: int, left: bool, ghost ss: seq<Snake>, ghost X: seq<seq<JChar>>,
                    ghost Y: seq<seq<JChar>>, ghost st: Style) returns (cur: int)
      requires Ready() && ss == diff.snakes && X == spx.Tokens() && Y == spy.Tokens()
      requires st == ContextStyle(newLines, flags.outputType == Unified)
      requires Ordered(ss, |X|, |Y|) && 0 <= i <= j < |ss| && 0 <= start <= (if left then |X| else |Y|)
      modifies this`out, spx.readfile, spx.readfile.buf, spy.readfile, spy.readfile.buf
      ensures Ready() && cur <= (if left then |X| else |Y|)
      ensures out == old(out) + Side(ss, i, j, start, X, Y, left, st).0 && cur == Side(ss, i, j, start, X, Y, left, st).1
    {
      hide Walked, SideRound, Side;
      ghost var base, whole := out, Side(ss, i, j, start, X, Y, left, st);
      cur := start;
      var k := i;
      while k < j
        invariant i <= k <= j && 0 <= cur <= (if left then |X| else |Y|) && Ready()
        invariant out + Side(ss, k, j, cur, X, Y, left, st).0 == base + whole.0
        invariant Side(ss, k, j, cur, X, Y, left, st).1 == whole.1
      {
        cur := SideStep(k, j, cur, left, ss, X, Y, st, base, whole);
        k := k + 1;
      }
      SideNone(ss, j, cur, X, Y, left, st);
      AppendEmpty(out, []);
    }

    /** Round k of SideRounds' loop keeps its invariant: what is printed so
        far followed by the side from the next round on is the whole side
        after what was printed before. */
    method SideStep(k: int, j: int, cur: int, left: bool, ghost ss: seq<Snake>, ghost X: seq<seq<JChar>>,
                    ghost Y: seq<seq<JChar>>, ghost st: Style, ghost base: seq<JChar>, ghost whole: (seq<JChar>, int))
      returns (cur': int)
      requires Ready() && ss == diff.snakes && X == spx.Tokens() && Y == spy.Tokens()
      requires st == ContextStyle(newLines, flags.outputType == Unified)
      requires Ordered(ss, |X|, |Y|) && 0 <= k < j < |ss| && 0 <= cur <= (if left then |X| else |Y|)
      requires out + Side(ss, k, j, cur, X, Y, left, st).0 == base + whole.0
      requires Side(ss, k, j, cur, X, Y, left, st).1 == whole.1
      modifies this`out, spx.readfile, spx.readfile.buf, spy.readfile, spy.readfile.buf
      ensures Ready() && 0 <= cur' <= (if left then |X| else |Y|)
      ensures out + Side(ss, k + 1, j, cur', X, Y, left, st).0 == base + whole.0
      ensures Side(ss, k + 1, j, cur', X, Y, left, st).1 == whole.1
    {
      hide Walked, SideRound, Side;
      ghost var before, a := out, SideRound(ss, k, cur, X, Y, left, st);
      ghost var b := Side(ss, k + 1, j, a.1, X, Y, left, st);
      SideFrom(ss, k, j, cur, X, Y, left, st);
      cur' := SideRoundPrint(k, cur, left);
      Regroup3(before, a.0, b.0);
    }

    /** One side of DiffContext's block from snake i to snake j: the rounds,
        then, when some gap had lines on that side, the context up to end. */
    method SidePrint(i: int, j: int, start: int, end: int, left: bool)
      requires Ready() && Ordered(diff.snakes, spx.Lines(), spy.Lines()) && 0 <= i <= j < |diff.snakes|
      requires 0 <= start <= (if left then spx.Lines() else spy.Lines())
      requires end <= (if left then spx.Lines() else spy.Lines())
      modifies this`out, spx.readfile, spx.readfile.buf, spy.readfile, spy.readfile.buf
      ensures Ready()
      ensures out == old(out) + SideText(diff.snakes, i, j, start, end, spx.Tokens(), spy.Tokens(), left,
                                         ContextStyle(newLines, flags.outputType == Unified))
    {
      hide Walked, Side, SideText;
      ghost var ss, X, Y, st := diff.snakes, spx.Tokens(), spy.Tokens(), ContextStyle(newLines, flags.outputType == Unified);
      var cur := SideRounds(i, j, start, left);
      var lo := if left then diff.snakes[i].u else diff.snakes[i].v;
      if lo < cur {
        if left {
          Walker(Str("  "), spx, cur, end);
        } else {
          Walker(Str("  "), spy, cur, end);
        }
      } else {
        AppendEmpty(out, []);
      }
      SideTextIs(ss, i, j, start, end, X, Y, left, st, old(out), out);
    }

    /** One block of DiffContext, from snake i to snake j: file 1's side
        under its header, then file 2's under its own. */
    method ContextPrint(i: int, j: int, c: int)
      requires Ready() && Ordered(diff.snakes, spx.Lines(), spy.Lines()) && 0 <= i < j < |diff.snakes| && 0 <= c
      modifies this`out, spx.readfile, spx.readfile.buf, spy.readfile, spy.readfile.buf
      ensures Ready()
      ensures out == old(out) + ContextBlock(diff.snakes, i, j, c, spx.Tokens(), spy.Tokens(), newLines,
                                             flags.outputType == Unified)
    {
      hide SideText, ContextHeader, ContextSeparator, ContextBlock, Low, High;
      var s, t := diff.snakes[i], diff.snakes[j];
      var sx, sy := Low(s.u, c), Low(s.v, c);
      var ex, ey := High(t.x, c, spx.Lines()), High(t.y, c, spy.Lines());
      LowHigh(s.u, t.x, c, spx.Lines());
      LowHigh(s.v, t.y, c, spy.Lines());
      out := out + ContextHeader(sx, ex, newLines);
      SidePrint(i, j, sx, ex, true);
      out := out + ContextSeparator(sy, ey, newLines);
      SidePrint(i, j, sy, ey, false);
      ContextBlockIs(diff.snakes, i, j, c, spx.Tokens(), spy.Tokens(), newLines, flags.outputType == Unified,
                     old(out), out);
    }

    /** DiffContext: block after block, each running from a snake to the
        first long snake after it (or the last), with c lines of context (3
        when c is negative). */
    method DiffContext(c0: int)
      requires Valid()
      modifies this`out, spx.readfile, spx.readfile.buf, spy.readfile, spy.readfile.buf
      ensures Valid()
      ensures out == old(out) + ContextText(diff.snakes, 0, ContextCount(c0), spx.Tokens(), spy.Tokens(),
                                            newLines, flags.outputType == Unified)
    {
      hide ContextBlock;
      var c := c0;
      if c < 0 {
        c := 3;
      }
      ghost var X, Y, u := spx.Tokens(), spy.Tokens(), flags.outputType == Unified;
      var ss := diff.snakes;
      ghost var whole := old(out) + ContextText(ss, 0, c, X, Y, newLines, u);
      var i := 0;
      while i < |ss| - 1
        invariant 0 <= i < |ss| && Ready()
        invariant out + ContextText(ss, i, c, X, Y, newLines, u) == whole
      {
        var j := FindBlockEnd(ss, i, c);
        ghost var before, rest := out, ContextText(ss, j, c, X, Y, newLines, u);
        ContextPrint(i, j, c);
        Regroup3(before, ContextBlock(ss, i, j, c, X, Y, newLines, u), rest);
        i := j;
      }
      AppendEmpty(out, ContextText(ss, i, c, X, Y, newLines, u));
    }

    /** One round of DiffUnified's body, for the gap after snake k: the
        context from sx, file 1's lines of the gap, file 2's; the context
        resumes where snake k + 1 starts in file 1. */
    method UnifiedRoundPrint(k: int, sx: int) returns (sx': int)
      requires Ready() && Ordered(diff.snakes, spx.Lines(), spy.Lines()) && 0 <= k < |diff.snakes| - 1
      requires 0 <= sx <= spx.Lines()
      modifies this`out, spx.readfile, spx.readfile.buf, spy.readfile, spy.readfile.buf
      ensures Ready() && sx' == diff.snakes[k + 1].x
      ensures out == old(out) + UnifiedRound(diff.snakes, k, sx, spx.Tokens(), spy.Tokens(),
                                             UnifiedStyle(newLines, flags.outputType == Unified))
    {
      hide Walked;
      ghost var X, Y, u := spx.Tokens(), spy.Tokens(), flags.outputType == Unified;
      UnifiedRoundIs(diff.snakes, k, sx, X, Y, UnifiedStyle(newLines, u));
      var nx, ny := diff.snakes[k].u, diff.snakes[k].v;
      Walker(Str(" "), spx, sx, nx);
      var t := diff.snakes[k + 1];
      var sy;
      sx', sy := t.x, t.y;
      Walker(Str("-"), spx, nx, sx');
      Walker(Str("+"), spy, ny, sy);
      Regroup3(old(out) + Walked(Str(" "), X, sx, nx, u, newLines), Walked(Str("-"), X, nx, sx', u, newLines),
               Walked(Str("+"), Y, ny, sy, u, newLines));
    }

    /** The body of DiffUnified's block from snake i to snake j, its rounds
        starting from sx in file 1. */
    method UnifiedRounds(i: int, j: int, sx0: int)
      requires Ready() && Ordered(diff.snakes, spx.Lines(), spy.Lines()) && 0 <= i <= j < |diff.snakes|
      requires 0 <= sx0 <= spx.Lines()
      modifies this`out, spx.readfile, spx.readfile.buf, spy.readfile, spy.readfile.buf
      ensures Ready()
      ensures out == old(out) + UnifiedBody(diff.snakes, i, j, sx0, spx.Tokens(), spy.Tokens(),
                                            UnifiedStyle(newLines, flags.outputType == Unified))
    {
      hide UnifiedRound, UnifiedBody, Walked;
      ghost var ss, X, Y, st := diff.snakes, spx.Tokens(), spy.Tokens(), UnifiedStyle(newLines, flags.outputType == Unified);
      var sx := sx0;
      var k := i;
      while k != j
        invariant i <= k <= j && 0 <= sx <= |X| && Ready()
        invariant out + UnifiedBody(ss, k, j, sx, X, Y, st) == old(out) + UnifiedBody(ss, i, j, sx0, X, Y, st)
        decreases j - k
      {
        ghost var before, a := out, UnifiedRound(ss, k, sx, X, Y, st);
        ghost var rest := UnifiedBody(ss, k + 1, j, ss[k + 1].x, X, Y, st);
        UnifiedFrom(ss, k, j, sx, X, Y, st);
        sx := UnifiedRoundPrint(k, sx);
        Regroup3(before, a, rest);
        k := k + 1;
      }
      UnifiedNone(ss, j, sx, X, Y, st);
      AppendEmpty(out, []);
    }

    /** One block of DiffUnified, from snake i to snake j: the header, the
        rounds, and the context after the last gap. */
    method UnifiedPrint(i: int, j: int, c: int)
      requires Ready() && Ordered(diff.snakes, spx.Lines(), spy.Lines()) && 0 <= i < j < |diff.snakes| && 0 <= c
      modifies this`out, spx.readfile, spx.readfile.buf, spy.readfile, spy.readfile.buf
      ensures Ready()
      ensures out == old(out) + UnifiedBlock(diff.snakes, i, j, c, spx.Tokens(), spy.Tokens(), newLines,
                                             flags.outputType == Unified)
    {
      hide UnifiedHeader, UnifiedBody, UnifiedBlock, Walked, Low, High;
      var s, t := diff.snakes[i], diff.snakes[j];
      var sx, sy := Low(s.u, c), Low(s.v, c);
      var ex, ey := High(t.x, c, spx.Lines()), High(t.y, c, spy.Lines());
      LowHigh(s.u, t.x, c, spx.Lines());
      LowHigh(s.v, t.y, c, spy.Lines());
      out := out + UnifiedHeader(sx, ex, sy, ey, newLines);
      UnifiedRounds(i, j, sx);
      Walker(Str(" "), spx, t.x, ex);
      UnifiedBlockIs(diff.snakes, i, j, c, spx.Tokens(), spy.Tokens(), newLines, flags.outputType == Unified,
                     old(out), out);
    }

    /** DiffUnified: block after block as DiffContext cuts them, each a
        unified hunk with c lines of context (3 when c is negative). */
    method DiffUnified(c0: int)
      requires Valid()
      modifies this`out, spx.readfile, spx.readfile.buf, spy.readfile, spy.readfile.buf
      ensures Valid()
      ensures out == old(out) + UnifiedText(diff.snakes, 0, ContextCount(c0), spx.Tokens(), spy.Tokens(),
                                            newLines, flags.outputType == Unified)
    {
      hide UnifiedBlock;
      var c := c0;
      if c < 0 {
        c := 3;
      }
      ghost var X, Y, u := spx.Tokens(), spy.Tokens(), flags.outputType == Unified;
      var ss := diff.snakes;
      ghost var whole := old(out) + UnifiedText(ss, 0, c, X, Y, newLines, u);
      var i := 0;
      while i < |ss| - 1
        invariant 0 <= i < |ss| && Ready()
        invariant out + UnifiedText(ss, i, c, X, Y, newLines, u) == whole
      {
        var j := FindBlockEnd(ss, i, c);
        ghost var before, rest := out, UnifiedText(ss, j, c, X, Y, newLines, u);
        UnifiedPrint(i, j, c);
        Regroup3(before, UnifiedBlock(ss, i, j, c, X, Y, newLines, u), rest);
        i := j;
      }
      AppendEmpty(out, UnifiedText(ss, i, c, X, Y, newLines, u));
    }

    /** DiffWithFlags: the printer the given flags' output type names, with
        their context count for the context and unified forms. */
    method DiffWithFlags(f: DiffFlags)
      requires Valid()
      modifies this`out, this`chunkCnt, diff`snakes, spx.readfile, spx.readfile.buf, spy.readfile, spy.readfile.buf
      ensures Valid()
      ensures var X, Y, u := spx.Tokens(), spy.Tokens(), flags.outputType == Unified;
        var ss := old(diff.snakes);
        match f.outputType
        case Normal => out == old(out) + NormText(Hunks(ss), X, Y, newLines, u)
        case Context => out == old(out) + ContextText(ss, 0, ContextCount(f.contextCount), X, Y, newLines, u)
        case Unified => out == old(out) + UnifiedText(ss, 0, ContextCount(f.contextCount), X, Y, newLines, u)
        case Summary => out == old(out) + SummaryText(TallyOf(Hunks(ss)), newLines)
        case HTML => out == old(out) + HtmlText(ss, X, Y) && diff.snakes == HtmlMoved(ss)
        case Rcs => out == old(out) + Render(RcsScript(Hunks(ss), Y), newLines) && diff.snakes == RcsMoved(ss)
      ensures f.outputType == Rcs ==> chunkCnt == old(chunkCnt) + |RcsScript(Hunks(old(diff.snakes)), spy.Tokens())|
      ensures f.outputType != Rcs ==> chunkCnt == old(chunkCnt)
      ensures f.outputType !in {HTML, Rcs} ==> diff.snakes == old(diff.snakes)
    {
      hide NormText, ContextText, UnifiedText, SummaryText, HtmlText, Render, RcsScript, Hunks, TallyOf, HtmlMoved,
           RcsMoved;
      match f.outputType
      case Normal => DiffNorm();
      case Context => DiffContext(f.contextCount);
      case Unified => DiffUnified(f.contextCount);
      case Summary => DiffSummary();
      case HTML => DiffHTML();
      case Rcs => DiffRcs();
    }
  }
}
