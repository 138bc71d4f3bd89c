/** The content comparisons behind Sequence.Equal, as functions of the two
    tokens' characters: what the -l, -b and -w readers' walks decide, and
    why that is exactly "the characters the policy hashes are the same" for
    the tokens a load cuts. */
module Compare {
  import opened JavaTypes
  import opened Flags
  import opened Tokens
  import opened LoadSteps

  /** A token as the -l, -b and -w policies cut it: a line end (LF, CR or
      CR LF) can only come last. */
  predicate LineShaped(A: seq<JChar>)
  {
    forall k :: 0 <= k < |A| ==> ShapedAt(A, k)
  }

  /** A line end at A[k] is the last character, or the CR of a final
      CR LF. */
  predicate ShapedAt(A: seq<JChar>, k: int)
    requires 0 <= k < |A|
  {
    IsNewLine(A[k]) ==> k == |A| - 1 || (k == |A| - 2 && A[k] == CR && A[k + 1] == LF)
  }

  /** Everything in A from i on is whitespace or a line end. */
  predicate Trailing(A: seq<JChar>, i: int)
  {
    forall k :: 0 <= k < |A| && i <= k ==> !Real(A[k])
  }

  /** The -b reader's walk from the state where it looks at A[i] and B[j]
      (i == |A| once A is used up): where both sides show whitespace or a
      line end it skips the whitespace on both; then it stops at the first
      pair that differs; the tokens are equal when what is left on both
      sides is only whitespace and line ends. */
  function BlankWalk(A: seq<JChar>, B: seq<JChar>, i: int, j: int): bool
    requires 0 <= i <= |A| && 0 <= j <= |B|
    decreases |A| - i
  {
    if i == |A| || j == |B| then Trailing(A, i) && Trailing(B, j)
    else if !Real(A[i]) && !Real(B[j]) then
      var i', j' := BlankEnd(A, i), BlankEnd(B, j);
      if i' == |A| || j' == |B| || A[i'] != B[j'] then Trailing(A, i') && Trailing(B, j')
      else BlankWalk(A, B, i' + 1, j' + 1)
    else if A[i] != B[j] then Trailing(A, i) && Trailing(B, j)
    else BlankWalk(A, B, i + 1, j + 1)
  }

  /** The -w reader's walk: it skips whitespace on both sides before every
      comparison. */
  function WhiteWalk(A: seq<JChar>, B: seq<JChar>, i: int, j: int): bool
    requires 0 <= i <= |A| && 0 <= j <= |B|
    decreases |A| - i
  {
    if i == |A| || j == |B| then Trailing(A, i) && Trailing(B, j)
    else
      var i', j' := BlankEnd(A, i), BlankEnd(B, j);
      if i' == |A| || j' == |B| || A[i'] != B[j'] then Trailing(A, i') && Trailing(B, j')
      else WhiteWalk(A, B, i' + 1, j' + 1)
  }

  /** The length of the longest common prefix of A and B from k on. */
  function CommonFrom(A: seq<JChar>, B: seq<JChar>, k: int): (r: int)
    requires 0 <= k <= |A| && k <= |B|
    ensures k <= r <= |A| && r <= |B|
    ensures forall p :: k <= p < r ==> A[p] == B[p]
    ensures r < |A| && r < |B| ==> A[r] != B[r]
    decreases |A| - k
  {
    if k < |A| && k < |B| && A[k] == B[k] then CommonFrom(A, B, k + 1) else k
  }

  /** The -l reader's comparison as the source writes it: lengths more than
      one apart differ; otherwise it reads both lines while they agree, and
      accepts when one line is used up and the other has only a line end
      left, or when it stopped anywhere at a line end on either side. */
  function DashLWalk(A: seq<JChar>, B: seq<JChar>): (r: bool)
    ensures r ==> |A| <= |B| + 1 && |B| <= |A| + 1
  {
    if |A| > |B| + 1 || |A| + 1 < |B| then false
    else
      var k := CommonFrom(A, B, 0);
      var stopped := k < |A| && k < |B|;
      var ca: JChar := if stopped then A[k] else if k > 0 then A[k - 1] else 0;
      var cb: JChar := if stopped then B[k] else if k > 0 then B[k - 1] else 0;
      var la, lb := |A| - k, |B| - k;
      if (la == 0 && lb == 1 && IsNewLine(B[k])) || (lb == 0 && la == 1 && IsNewLine(A[k])) then true
      else !((la != 0 || lb != 0) && !IsNewLine(ca) && !IsNewLine(cb))
  }

  /** The comparison the -l reader is meant to make: the same length test,
      and then both lines must be at their line end (or their end) where
      they stop agreeing, not just one of them. */
  function LineEndsEqual(A: seq<JChar>, B: seq<JChar>): bool
  {
    if |A| > |B| + 1 || |A| + 1 < |B| then false
    else
      var k := CommonFrom(A, B, 0);
      (k == |A| || IsNewLine(A[k])) && (k == |B| || IsNewLine(B[k]))
  }

  /** The position of A's first line-end character from i on, or |A|. */
  function BodyEnd(A: seq<JChar>, i: int): (r: int)
    requires 0 <= i <= |A|
    ensures i <= r <= |A| && (r < |A| ==> IsNewLine(A[r]))
    ensures forall p :: i <= p < r ==> !IsNewLine(A[p])
    decreases |A| - i
  {
    if i == |A| || IsNewLine(A[i]) then i else BodyEnd(A, i + 1)
  }

  /** A line without its line end. */
  function LineBody(A: seq<JChar>): seq<JChar>
  {
    A[..BodyEnd(A, 0)]
  }

  /** Whether the tokens A and B are the same for policy `kind`, as its
      reader's Equal decides once the hashes agree. */
  function SameToken(kind: SequenceKind, A: seq<JChar>, B: seq<JChar>): bool
  {
    match kind
    case DashL => DashLWalk(A, B)
    case DashB => BlankWalk(A, B, 0, 0)
    case DashW => WhiteWalk(A, B, 0, 0)
    case _ => A == B
  }

  // ---------------------------------------------------------------------
  // The tokens of a -l, -b or -w table.

  /** A load under -l, -b or -w leaves only tokens whose line end comes
      last, and no token is empty. */
  lemma TokenShaped(kind: SequenceKind, alphabetic: JChar -> bool, cs: seq<JChar>, lines: seq<VarInfo>, l: int)
    requires kind == DashL || kind == DashB || kind == DashW
    requires Table(kind, alphabetic, cs, lines) && 0 <= l < |lines| - 1
    ensures 0 <= lines[l].offset < lines[l + 1].offset <= |cs|
    ensures LineShaped(cs[lines[l].offset..lines[l + 1].offset])
  {
    var s, t := lines[l].offset, lines[l + 1].offset;
    assert l == 0 || Before(lines, 0, l);
    assert Before(lines, l, l + 1);
    assert Before(lines, l + 1, |lines| - 1) || l + 1 == |lines| - 1;
    assert Whole(kind, alphabetic, cs, lines, l);
    var A := cs[s..t];
    forall k | 0 <= k < |A|
      ensures ShapedAt(A, k)
    {
      ghost var next := Cut(kind, alphabetic, cs, s + k + 2);
      if IsNewLine(A[k]) && k < |A| - 1 {
        assert !Cut(kind, alphabetic, cs, s + k + 1);
        assert A[k] == CR && A[k + 1] == LF;
        if k < |A| - 2 {
          assert false;
        }
      }
    }
  }

  lemma ShapeAt(A: seq<JChar>, i: int)
    requires LineShaped(A) && 0 <= i < |A| && IsNewLine(A[i])
    ensures i == |A| - 1 || (i == |A| - 2 && A[i] == CR && A[i + 1] == LF)
  {
    assert ShapedAt(A, i);
  }

  lemma NewLineTrails(A: seq<JChar>, i: int)
    requires LineShaped(A) && 0 <= i < |A| && IsNewLine(A[i])
    ensures Trailing(A, i)
  {
    ShapeAt(A, i);
  }

  // ---------------------------------------------------------------------
  // -b: the walk decides Squeezed equality.

  /** What the last character of a non-empty run adds to its squeezed
      characters. */
  function Piece(Z: seq<JChar>): seq<JChar>
    requires Z != []
  {
    var c := Z[|Z| - 1];
    if IsWhitespace(c) || IsNewLine(c) then []
    else if |Z| >= 2 && IsWhitespace(Z[|Z| - 2]) then [SPACE, c]
    else [c]
  }

  lemma SqueezedLast(Z: seq<JChar>)
    requires Z != []
    ensures Squeezed(Z) == Squeezed(Z[..|Z| - 1]) + Piece(Z)
  {
  }

  /** The space a run X puts before a run Y that follows it. */
  function Joint(X: seq<JChar>, Y: seq<JChar>): seq<JChar>
  {
    if X != [] && Y != [] && IsWhitespace(X[|X| - 1]) && Real(Y[0]) then [SPACE] else []
  }

  lemma {:induction false} SqueezedConcat(X: seq<JChar>, Y: seq<JChar>)
    ensures Squeezed(X + Y) == Squeezed(X) + Joint(X, Y) + Squeezed(Y)
    decreases |Y|
  {
    if Y == [] {
      assert X + Y == X;
    } else {
      var Y' := Y[..|Y| - 1];
      var Z := X + Y;
      assert Z[..|Z| - 1] == X + Y';
      SqueezedLast(Z);
      SqueezedLast(Y);
      SqueezedConcat(X, Y');
      if Y' == [] {
        assert Piece(Z) == Joint(X, Y) + Piece(Y) by {
          assert Z[|Z| - 1] == Y[0];
          if X != [] {
            assert Z[|Z| - 2] == X[|X| - 1];
          }
        }
        assert Joint(X, Y') == [] && Squeezed(Y') == [];
        Regroup(Squeezed(X), Joint(X, Y), Piece(Y));
      } else {
        assert Joint(X, Y') == Joint(X, Y) by {
          assert Y'[0] == Y[0];
        }
        assert Piece(Z) == Piece(Y) by {
          assert Z[|Z| - 1] == Y[|Y| - 1];
          assert Z[|Z| - 2] == Y[|Y| - 2];
        }
        Regroup(Squeezed(X) + Joint(X, Y), Squeezed(Y'), Piece(Y));
      }
    }
  }

  /** Concatenation regrouped, on plain sequences. */
  lemma Regroup<T>(u: seq<T>, m: seq<T>, p: seq<T>)
    ensures u + m + p == u + (m + p)
  {
  }

  /** A run squeezes to nothing exactly when it holds only whitespace and
      line ends. */
  lemma {:induction false} SqueezedNil(Y: seq<JChar>)
    ensures Squeezed(Y) == [] <==> Trailing(Y, 0)
    decreases |Y|
  {
    if Y != [] {
      var Y' := Y[..|Y| - 1];
      SqueezedNil(Y');
      assert Trailing(Y, 0) <==> Trailing(Y', 0) && !Real(Y[|Y| - 1]);
    }
  }

  /** Squeezed read forwards, from a character other than whitespace: it
      contributes itself, and a line end nothing. */
  lemma SqueezedOwn(A: seq<JChar>, i: int)
    requires 0 <= i < |A| && !IsWhitespace(A[i])
    ensures Squeezed(A[i..]) == (if IsNewLine(A[i]) then [] else [A[i]]) + Squeezed(A[i + 1..])
  {
    assert A[i..] == [A[i]] + A[i + 1..];
    SqueezedConcat([A[i]], A[i + 1..]);
    SqueezedLast([A[i]]);
    assert [A[i]][..0] == [];
  }

  /** Squeezed read forwards, from whitespace: the run contributes one space
      when a character hashed as itself follows it, and nothing when a line
      end or the end of the run does. */
  lemma SqueezedRun(A: seq<JChar>, i: int)
    requires 0 <= i < |A| && IsWhitespace(A[i])
    ensures Squeezed(A[i..]) ==
      (if BlankEnd(A, i) < |A| && Real(A[BlankEnd(A, i)]) then [SPACE] else []) + Squeezed(A[BlankEnd(A, i)..])
  {
    var e := BlankEnd(A, i);
    var X, Y := A[i..e], A[e..];
    assert A[i..] == X + Y;
    assert forall p :: 0 <= p < |X| ==> X[p] == A[i + p];
    SqueezedBlankPrefix(X, Y);
  }

  lemma SqueezedBlankPrefix(X: seq<JChar>, Y: seq<JChar>)
    requires X != [] && forall p :: 0 <= p < |X| ==> IsWhitespace(X[p])
    ensures Squeezed(X + Y) == (if Y != [] && Real(Y[0]) then [SPACE] else []) + Squeezed(Y)
  {
    assert Trailing(X, 0);
    SqueezedNil(X);
    SqueezedConcat(X, Y);
  }

  /** The -b characters of A from i on, read forwards: a character hashed
      as itself stays, a whitespace run becomes one space when such a
      character follows it, and a line end is dropped. */
  function SqueezedFrom(A: seq<JChar>, i: int): seq<JChar>
    requires 0 <= i <= |A|
    decreases |A| - i
  {
    if i == |A| then []
    else if IsWhitespace(A[i]) then
      var e := BlankEnd(A, i);
      (if e < |A| && Real(A[e]) then [SPACE] else []) + SqueezedFrom(A, e)
    else (if IsNewLine(A[i]) then [] else [A[i]]) + SqueezedFrom(A, i + 1)
  }

  /** Read forwards or backwards, the squeezed characters are the same. */
  lemma {:induction false} SqueezedFromIs(A: seq<JChar>, i: int)
    requires 0 <= i <= |A|
    ensures SqueezedFrom(A, i) == Squeezed(A[i..])
    decreases |A| - i
  {
    if i < |A| {
      if IsWhitespace(A[i]) {
        SqueezedFromIs(A, BlankEnd(A, i));
        SqueezedRun(A, i);
      } else {
        SqueezedFromIs(A, i + 1);
        SqueezedOwn(A, i);
      }
    }
  }

  /** The rest squeezes to nothing exactly when only whitespace and line
      ends are left. */
  lemma {:induction false} SqueezedFromNil(A: seq<JChar>, i: int)
    requires 0 <= i <= |A|
    ensures SqueezedFrom(A, i) == [] <==> Trailing(A, i)
    decreases |A| - i
  {
    if i < |A| {
      if IsWhitespace(A[i]) {
        SqueezedFromNil(A, BlankEnd(A, i));
      } else {
        SqueezedFromNil(A, i + 1);
      }
    }
  }

  /** From whitespace or a line end in a line-shaped token: what the rest
      squeezes to, by what the skip stops at. */
  lemma BlankSide(A: seq<JChar>, i: int)
    requires LineShaped(A) && 0 <= i < |A| && !Real(A[i])
    ensures BlankEnd(A, i) < |A| && Real(A[BlankEnd(A, i)]) ==>
      SqueezedFrom(A, i) == [SPACE, A[BlankEnd(A, i)]] + SqueezedFrom(A, BlankEnd(A, i) + 1) && !Trailing(A, BlankEnd(A, i))
    ensures !(BlankEnd(A, i) < |A| && Real(A[BlankEnd(A, i)])) ==>
      SqueezedFrom(A, i) == [] && Trailing(A, BlankEnd(A, i))
    ensures BlankEnd(A, i) < |A| && !Real(A[BlankEnd(A, i)]) ==> SqueezedFrom(A, BlankEnd(A, i) + 1) == []
  {
    var e := BlankEnd(A, i);
    if e < |A| && !Real(A[e]) {
      NewLineTrails(A, e);
      SqueezedFromNil(A, e + 1);
    }
    SqueezedFromNil(A, e);
    if IsWhitespace(A[i]) {
      assert SqueezedFrom(A, i) == (if e < |A| && Real(A[e]) then [SPACE] else []) + SqueezedFrom(A, e);
    } else {
      assert e == i;
    }
  }

  /** From a character hashed as itself, or a line end, in a line-shaped
      token: what the rest squeezes to. */
  lemma PlainSide(A: seq<JChar>, i: int)
    requires LineShaped(A) && 0 <= i < |A| && !IsWhitespace(A[i])
    ensures Real(A[i]) ==> SqueezedFrom(A, i) == [A[i]] + SqueezedFrom(A, i + 1) && !Trailing(A, i)
    ensures IsNewLine(A[i]) ==> SqueezedFrom(A, i) == [] && Trailing(A, i)
  {
    if IsNewLine(A[i]) {
      NewLineTrails(A, i);
      SqueezedFromNil(A, i);
    }
  }

  /** The -b walk's step over whitespace and line ends on both sides. */
  lemma BlankSkipStep(A: seq<JChar>, B: seq<JChar>, i: int, j: int)
    requires 0 <= i < |A| && 0 <= j < |B| && !Real(A[i]) && !Real(B[j])
    ensures var i', j' := BlankEnd(A, i), BlankEnd(B, j);
      BlankWalk(A, B, i, j) ==
        if i' == |A| || j' == |B| || A[i'] != B[j'] then Trailing(A, i') && Trailing(B, j')
        else BlankWalk(A, B, i' + 1, j' + 1)
  {
  }

  /** Two sequences that start with two given elements are equal exactly
      when those elements and the rests are. */
  lemma HeadPair<T>(a: T, b: T, X: seq<T>, c: T, d: T, Y: seq<T>)
    ensures [a, b] + X == [c, d] + Y <==> a == c && b == d && X == Y
  {
    if [a, b] + X == [c, d] + Y {
      assert ([a, b] + X)[2..] == X;
      assert ([c, d] + Y)[2..] == Y;
    }
  }

  /** Two sequences that start with one given element each are equal
      exactly when those elements and the rests are. */
  lemma HeadOne<T>(a: T, X: seq<T>, c: T, Y: seq<T>)
    ensures [a] + X == [c] + Y <==> a == c && X == Y
  {
    if [a] + X == [c] + Y {
      assert ([a] + X)[1..] == X;
      assert ([c] + Y)[1..] == Y;
    }
  }

  /** The pair (A[i], B[j]) where both sides show whitespace or a line
      end: the walk's step agrees with the squeezed rests. */
  lemma BlankWalkBlanks(A: seq<JChar>, B: seq<JChar>, i: int, j: int)
    requires LineShaped(A) && LineShaped(B) && 0 <= i < |A| && 0 <= j < |B|
    requires !Real(A[i]) && !Real(B[j])
    requires BlankEnd(A, i) < |A| && BlankEnd(B, j) < |B| && A[BlankEnd(A, i)] == B[BlankEnd(B, j)] ==>
      (BlankWalk(A, B, BlankEnd(A, i) + 1, BlankEnd(B, j) + 1) <==>
       SqueezedFrom(A, BlankEnd(A, i) + 1) == SqueezedFrom(B, BlankEnd(B, j) + 1))
    ensures BlankWalk(A, B, i, j) <==> SqueezedFrom(A, i) == SqueezedFrom(B, j)
  {
    var i', j' := BlankEnd(A, i), BlankEnd(B, j);
    var rA, rB := i' < |A| && Real(A[i']), j' < |B| && Real(B[j']);
    if rA && rB {
      BlanksBothReal(A, B, i, j);
    } else if rA {
      BlanksOneReal(A, B, i, j);
    } else if rB {
      BlanksOtherReal(A, B, i, j);
    } else {
      BlanksNoneReal(A, B, i, j);
    }
  }

  /** After both skips, both sides stop at a character hashed as itself. */
  lemma BlanksBothReal(A: seq<JChar>, B: seq<JChar>, i: int, j: int)
    requires LineShaped(A) && LineShaped(B) && 0 <= i < |A| && 0 <= j < |B|
    requires !Real(A[i]) && !Real(B[j])
    requires BlankEnd(A, i) < |A| && Real(A[BlankEnd(A, i)])
    requires BlankEnd(B, j) < |B| && Real(B[BlankEnd(B, j)])
    requires A[BlankEnd(A, i)] == B[BlankEnd(B, j)] ==>
      (BlankWalk(A, B, BlankEnd(A, i) + 1, BlankEnd(B, j) + 1) <==>
       SqueezedFrom(A, BlankEnd(A, i) + 1) == SqueezedFrom(B, BlankEnd(B, j) + 1))
    ensures BlankWalk(A, B, i, j) <==> SqueezedFrom(A, i) == SqueezedFrom(B, j)
  {
    var i', j' := BlankEnd(A, i), BlankEnd(B, j);
    BlankSkipStep(A, B, i, j);
    BlankSide(A, i);
    BlankSide(B, j);
    HeadPair(SPACE, A[i'], SqueezedFrom(A, i' + 1), SPACE, B[j'], SqueezedFrom(B, j' + 1));
  }

  /** After both skips, only A stops at a character hashed as itself. */
  lemma BlanksOneReal(A: seq<JChar>, B: seq<JChar>, i: int, j: int)
    requires LineShaped(A) && LineShaped(B) && 0 <= i < |A| && 0 <= j < |B|
    requires !Real(A[i]) && !Real(B[j])
    requires BlankEnd(A, i) < |A| && Real(A[BlankEnd(A, i)])
    requires !(BlankEnd(B, j) < |B| && Real(B[BlankEnd(B, j)]))
    ensures !BlankWalk(A, B, i, j) && SqueezedFrom(A, i) != SqueezedFrom(B, j)
  {
    BlankSkipStep(A, B, i, j);
    BlankSide(A, i);
    BlankSide(B, j);
  }

  /** After both skips, only B stops at a character hashed as itself. */
  lemma BlanksOtherReal(A: seq<JChar>, B: seq<JChar>, i: int, j: int)
    requires LineShaped(A) && LineShaped(B) && 0 <= i < |A| && 0 <= j < |B|
    requires !Real(A[i]) && !Real(B[j])
    requires !(BlankEnd(A, i) < |A| && Real(A[BlankEnd(A, i)]))
    requires BlankEnd(B, j) < |B| && Real(B[BlankEnd(B, j)])
    ensures !BlankWalk(A, B, i, j) && SqueezedFrom(A, i) != SqueezedFrom(B, j)
  {
    BlankSkipStep(A, B, i, j);
    BlankSide(A, i);
    BlankSide(B, j);
  }

  /** After both skips, neither side stops at a character hashed as
      itself. */
  lemma BlanksNoneReal(A: seq<JChar>, B: seq<JChar>, i: int, j: int)
    requires LineShaped(A) && LineShaped(B) && 0 <= i < |A| && 0 <= j < |B|
    requires !Real(A[i]) && !Real(B[j])
    requires !(BlankEnd(A, i) < |A| && Real(A[BlankEnd(A, i)]))
    requires !(BlankEnd(B, j) < |B| && Real(B[BlankEnd(B, j)]))
    requires BlankEnd(A, i) < |A| && BlankEnd(B, j) < |B| && A[BlankEnd(A, i)] == B[BlankEnd(B, j)] ==>
      (BlankWalk(A, B, BlankEnd(A, i) + 1, BlankEnd(B, j) + 1) <==>
       SqueezedFrom(A, BlankEnd(A, i) + 1) == SqueezedFrom(B, BlankEnd(B, j) + 1))
    ensures BlankWalk(A, B, i, j) && SqueezedFrom(A, i) == SqueezedFrom(B, j)
  {
    BlankSkipStep(A, B, i, j);
    BlankSide(A, i);
    BlankSide(B, j);
  }

  /** The pair (A[i], B[j]) where at least one side is a character hashed as
      itself. */
  lemma BlankWalkPlain(A: seq<JChar>, B: seq<JChar>, i: int, j: int)
    requires LineShaped(A) && LineShaped(B) && 0 <= i < |A| && 0 <= j < |B|
    requires Real(A[i]) || Real(B[j])
    requires A[i] == B[j] ==> (BlankWalk(A, B, i + 1, j + 1) <==> SqueezedFrom(A, i + 1) == SqueezedFrom(B, j + 1))
    ensures BlankWalk(A, B, i, j) <==> SqueezedFrom(A, i) == SqueezedFrom(B, j)
  {
    if A[i] == B[j] {
      assert BlankWalk(A, B, i, j) == BlankWalk(A, B, i + 1, j + 1);
      PlainSide(A, i);
      PlainSide(B, j);
      HeadOne(A[i], SqueezedFrom(A, i + 1), B[j], SqueezedFrom(B, j + 1));
    } else {
      assert !BlankWalk(A, B, i, j);
      if Real(A[i]) {
        PlainSide(A, i);
        if IsWhitespace(B[j]) {
          BlankSide(B, j);
        } else {
          PlainSide(B, j);
        }
        assert SqueezedFrom(A, i)[0] == A[i];
      } else {
        PlainSide(B, j);
        if IsWhitespace(A[i]) {
          BlankSide(A, i);
        } else {
          PlainSide(A, i);
        }
        assert SqueezedFrom(B, j)[0] == B[j];
      }
    }
  }

  /** The -b walk decides exactly whether the rests squeeze to the same
      characters. */
  lemma {:induction false} BlankWalkIff(A: seq<JChar>, B: seq<JChar>, i: int, j: int)
    requires LineShaped(A) && LineShaped(B) && 0 <= i <= |A| && 0 <= j <= |B|
    ensures BlankWalk(A, B, i, j) <==> SqueezedFrom(A, i) == SqueezedFrom(B, j)
    decreases |A| - i
  {
    if i == |A| || j == |B| {
      SqueezedFromNil(A, i);
      SqueezedFromNil(B, j);
    } else if !Real(A[i]) && !Real(B[j]) {
      var i', j' := BlankEnd(A, i), BlankEnd(B, j);
      if i' < |A| && j' < |B| && A[i'] == B[j'] {
        BlankWalkIff(A, B, i' + 1, j' + 1);
      }
      BlankWalkBlanks(A, B, i, j);
    } else {
      if A[i] == B[j] {
        BlankWalkIff(A, B, i + 1, j + 1);
      }
      BlankWalkPlain(A, B, i, j);
    }
  }

  // ---------------------------------------------------------------------
  // -w: the walk decides Stripped equality.

  lemma {:induction false} StrippedConcat(X: seq<JChar>, Y: seq<JChar>)
    ensures Stripped(X + Y) == Stripped(X) + Stripped(Y)
    decreases |Y|
  {
    if Y == [] {
      assert X + Y == X;
    } else {
      var Z := X + Y;
      assert Z[..|Z| - 1] == X + Y[..|Y| - 1];
      StrippedConcat(X, Y[..|Y| - 1]);
    }
  }

  /** The -w characters of A from i on, read forwards. */
  function StrippedFrom(A: seq<JChar>, i: int): seq<JChar>
    requires 0 <= i <= |A|
    decreases |A| - i
  {
    if i == |A| then [] else (if Real(A[i]) then [A[i]] else []) + StrippedFrom(A, i + 1)
  }

  /** Read forwards or backwards, the stripped characters are the same. */
  lemma {:induction false} StrippedFromIs(A: seq<JChar>, i: int)
    requires 0 <= i <= |A|
    ensures StrippedFrom(A, i) == Stripped(A[i..])
    decreases |A| - i
  {
    if i < |A| {
      StrippedFromIs(A, i + 1);
      assert A[i..] == [A[i]] + A[i + 1..];
      StrippedCons(A[i], A[i + 1..]);
    }
  }

  /** Stripped read forwards by one character. */
  lemma StrippedCons(c: JChar, Y: seq<JChar>)
    ensures Stripped([c] + Y) == (if Real(c) then [c] else []) + Stripped(Y)
  {
    StrippedConcat([c], Y);
    assert [c][..0] == [];
  }

  lemma {:induction false} StrippedFromNil(A: seq<JChar>, i: int)
    requires 0 <= i <= |A|
    ensures StrippedFrom(A, i) == [] <==> Trailing(A, i)
    decreases |A| - i
  {
    if i < |A| {
      StrippedFromNil(A, i + 1);
    }
  }

  /** Whitespace strips to nothing. */
  lemma {:induction false} StrippedSkip(A: seq<JChar>, i: int)
    requires 0 <= i <= |A|
    ensures StrippedFrom(A, i) == StrippedFrom(A, BlankEnd(A, i))
    decreases |A| - i
  {
    if i < |A| && IsWhitespace(A[i]) {
      StrippedSkip(A, i + 1);
    }
  }

  /** After the -w walk's skip stopped at A[e] in a line-shaped token: what
      the rest strips to. */
  lemma StrippedSide(A: seq<JChar>, e: int)
    requires LineShaped(A) && 0 <= e < |A| && !IsWhitespace(A[e])
    ensures Real(A[e]) ==> StrippedFrom(A, e) == [A[e]] + StrippedFrom(A, e + 1) && !Trailing(A, e)
    ensures IsNewLine(A[e]) ==> StrippedFrom(A, e) == [] && StrippedFrom(A, e + 1) == [] && Trailing(A, e)
  {
    if IsNewLine(A[e]) {
      NewLineTrails(A, e);
      StrippedFromNil(A, e);
      StrippedFromNil(A, e + 1);
    }
  }

  /** One comparison of the -w walk, after both skips. */
  lemma WhiteWalkPair(A: seq<JChar>, B: seq<JChar>, i: int, j: int)
    requires LineShaped(A) && LineShaped(B) && 0 <= i < |A| && 0 <= j < |B|
    requires BlankEnd(A, i) < |A| && BlankEnd(B, j) < |B| && A[BlankEnd(A, i)] == B[BlankEnd(B, j)] ==>
      (WhiteWalk(A, B, BlankEnd(A, i) + 1, BlankEnd(B, j) + 1) <==>
       StrippedFrom(A, BlankEnd(A, i) + 1) == StrippedFrom(B, BlankEnd(B, j) + 1))
    ensures WhiteWalk(A, B, i, j) <==> StrippedFrom(A, i) == StrippedFrom(B, j)
  {
    var i', j' := BlankEnd(A, i), BlankEnd(B, j);
    StrippedSkip(A, i);
    StrippedSkip(B, j);
    assert WhiteWalk(A, B, i, j) ==
      if i' == |A| || j' == |B| || A[i'] != B[j'] then Trailing(A, i') && Trailing(B, j')
      else WhiteWalk(A, B, i' + 1, j' + 1);
    if i' == |A| || j' == |B| {
      StrippedFromNil(A, i');
      StrippedFromNil(B, j');
    } else {
      StrippedSide(A, i');
      StrippedSide(B, j');
      if Real(A[i']) && Real(B[j']) {
        HeadOne(A[i'], StrippedFrom(A, i' + 1), B[j'], StrippedFrom(B, j' + 1));
      }
    }
  }

  /** The -w walk decides exactly whether the rests strip to the same
      characters. */
  lemma {:induction false} WhiteWalkIff(A: seq<JChar>, B: seq<JChar>, i: int, j: int)
    requires LineShaped(A) && LineShaped(B) && 0 <= i <= |A| && 0 <= j <= |B|
    ensures WhiteWalk(A, B, i, j) <==> StrippedFrom(A, i) == StrippedFrom(B, j)
    decreases |A| - i
  {
    if i == |A| || j == |B| {
      StrippedFromNil(A, i);
      StrippedFromNil(B, j);
    } else {
      var i', j' := BlankEnd(A, i), BlankEnd(B, j);
      if i' < |A| && j' < |B| && A[i'] == B[j'] {
        WhiteWalkIff(A, B, i' + 1, j' + 1);
      }
      WhiteWalkPair(A, B, i, j);
    }
  }

  // ---------------------------------------------------------------------
  // -l: what the walk and the intended comparison decide.

  /** LineChars read one character further. */
  lemma LineCharsAppend(X: seq<JChar>, c: JChar)
    ensures LineChars(X + [c]) == LineChars(X) +
      (if c == LF && X != [] && X[|X| - 1] == CR then [] else if IsNewLine(c) then [LF] else [c])
  {
    assert (X + [c])[..|X|] == X;
  }

  /** Without line ends, -l hashes a run as it is. */
  lemma {:induction false} LineCharsPlain(A: seq<JChar>)
    requires forall k :: 0 <= k < |A| ==> !IsNewLine(A[k])
    ensures LineChars(A) == A
    decreases |A|
  {
    if A != [] {
      var A', c := A[..|A| - 1], A[|A| - 1];
      assert A == A' + [c];
      LineCharsPlain(A');
      LineCharsAppend(A', c);
    }
  }

  /** A -l token hashes as its body and one LF, whichever line end it has
      (LF, CR, CR LF, or none at the end of the file). */
  lemma DashLHashed(A: seq<JChar>)
    requires LineShaped(A) && A != []
    ensures Hashed(DashL, A) == LineBody(A) + [LF]
  {
    var e := BodyEnd(A, 0);
    LineCharsShaped(A);
    if e < |A| {
      PastBody(A, |A| - 1);
    }
  }

  /** The -l characters of a line-shaped token: its body, and one LF if it
      has a line end. */
  lemma LineCharsShaped(A: seq<JChar>)
    requires LineShaped(A)
    ensures LineChars(A) == LineBody(A) + (if BodyEnd(A, 0) < |A| then [LF] else [])
  {
    var e := BodyEnd(A, 0);
    if e == |A| {
      LineCharsPlain(A);
      assert A[..e] == A;
    } else {
      ShapeAt(A, e);
      if e == |A| - 1 {
        LineEndLast(A, e);
      } else {
        LineEndCrLf(A, e);
      }
    }
  }

  /** A line whose only line end is its last character. */
  lemma LineEndLast(A: seq<JChar>, e: int)
    requires 0 <= e == |A| - 1 && IsNewLine(A[e]) && forall p :: 0 <= p < e ==> !IsNewLine(A[p])
    ensures LineChars(A) == A[..e] + [LF]
  {
    LineCharsPlain(A[..e]);
    LineCharsAppend(A[..e], A[e]);
    TakeSnoc(A, e);
    assert A[..e + 1] == A;
  }

  /** A line that ends in CR LF. */
  lemma LineEndCrLf(A: seq<JChar>, e: int)
    requires 0 <= e == |A| - 2 && A[e] == CR && A[e + 1] == LF && forall p :: 0 <= p < e ==> !IsNewLine(A[p])
    ensures LineChars(A) == A[..e] + [LF]
  {
    LineCharsPlain(A[..e]);
    LineCharsAppend(A[..e], CR);
    TakeSnoc(A, e);
    LineCharsAppend(A[..e + 1], LF);
    TakeSnoc(A, e + 1);
    assert A[..e + 2] == A;
  }

  /** A prefix grown by the next element. */
  lemma TakeSnoc<T>(A: seq<T>, i: int)
    requires 0 <= i < |A|
    ensures A[..i] + [A[i]] == A[..i + 1]
  {
  }

  /** Two lines that agree up to k have the same body once either has
      reached its line end (or its end) there. */
  lemma BodiesAgree(A: seq<JChar>, B: seq<JChar>, k: int)
    requires 0 <= k <= |A| && k <= |B| && forall p :: 0 <= p < k ==> A[p] == B[p]
    requires k == |A| || IsNewLine(A[k])
    requires k == |B| || IsNewLine(B[k])
    ensures LineBody(A) == LineBody(B)
  {
    var eA, eB := BodyEnd(A, 0), BodyEnd(B, 0);
    if eA < eB {
      assert false;
    } else if eB < eA {
      assert false;
    }
  }

  /** The intended -l comparison holds exactly when the lengths pass the
      test and the two lines have the same body. */
  lemma LineEndsEqualIff(A: seq<JChar>, B: seq<JChar>)
    requires LineShaped(A) && LineShaped(B)
    ensures LineEndsEqual(A, B) <==> |A| <= |B| + 1 && |B| <= |A| + 1 && LineBody(A) == LineBody(B)
  {
    var k := CommonFrom(A, B, 0);
    var eA, eB := BodyEnd(A, 0), BodyEnd(B, 0);
    if LineEndsEqual(A, B) {
      BodiesAgree(A, B, k);
    }
    if LineBody(A) == LineBody(B) {
      assert eA == eB by {
        assert |LineBody(A)| == eA && |LineBody(B)| == eB;
      }
      assert forall p :: 0 <= p < eA ==> A[p] == LineBody(A)[p] && B[p] == LineBody(B)[p];
      CommonAtLeast(A, B, 0, eA);
      PastBody(A, k);
      PastBody(B, k);
    }
  }

  /** Two sequences that agree below e share a prefix of at least e. */
  lemma {:induction false} CommonAtLeast(A: seq<JChar>, B: seq<JChar>, k: int, e: int)
    requires 0 <= k <= e <= |A| && e <= |B| && forall p :: 0 <= p < e ==> A[p] == B[p]
    ensures CommonFrom(A, B, k) >= e
    decreases e - k
  {
    if k < e {
      CommonAtLeast(A, B, k + 1, e);
    }
  }

  /** In a line-shaped token, every position from the line end on is the
      end or a line end. */
  lemma PastBody(A: seq<JChar>, k: int)
    requires LineShaped(A) && BodyEnd(A, 0) <= k <= |A|
    ensures k == |A| || IsNewLine(A[k])
  {
    var e := BodyEnd(A, 0);
    if e < k {
      ShapeAt(A, e);
    }
  }

  /** The intended comparison only accepts lines that hash the same
      characters. */
  lemma LineEndsEqualHashed(A: seq<JChar>, B: seq<JChar>)
    requires LineShaped(A) && LineShaped(B) && A != [] && B != []
    ensures LineEndsEqual(A, B) ==> Hashed(DashL, A) == Hashed(DashL, B)
  {
    LineEndsEqualIff(A, B);
    DashLHashed(A);
    DashLHashed(B);
  }

  /** The walk as written accepts every pair the intended comparison
      accepts: its fault is only that it accepts more. */
  lemma DashLWalkAcceptsIntended(A: seq<JChar>, B: seq<JChar>)
    ensures LineEndsEqual(A, B) ==> DashLWalk(A, B)
  {
    var k := CommonFrom(A, B, 0);
    if LineEndsEqual(A, B) && k < |A| && k < |B| {
      assert IsNewLine(A[k]);
    }
  }

  // ---------------------------------------------------------------------
  // The comparisons decide the hashed characters' equality.

  /** For the tokens a load cuts, the -b and -w readers' comparisons (and
      the byte compare of the other policies) hold exactly when the two
      tokens hash the same characters: no token pair the hash tells apart is
      Equal, and no pair with the same hashed characters is told apart. The
      -l walk is not such a test (DashLWalkAcceptsNul). */
  lemma {:induction false} SameTokenIff(kind: SequenceKind, A: seq<JChar>, B: seq<JChar>)
    requires kind == DashB || kind == DashW ==> LineShaped(A) && LineShaped(B)
    ensures kind != DashL ==> (SameToken(kind, A, B) <==> Hashed(kind, A) == Hashed(kind, B))
  {
    match kind
    case DashL =>
    case DashB =>
      BlankWalkIff(A, B, 0, 0);
      SqueezedFromIs(A, 0);
      SqueezedFromIs(B, 0);
      assert A[0..] == A && B[0..] == B;
    case DashW =>
      WhiteWalkIff(A, B, 0, 0);
      StrippedFromIs(A, 0);
      StrippedFromIs(B, 0);
      assert A[0..] == A && B[0..] == B;
    case _ =>
  }

  // ---------------------------------------------------------------------
  // The -l walk as written.

  /** As written, the -l walk accepts a line against the line it becomes
      with a NUL put before its LF: the walk stops at the first pair and
      sees a line end on one side. The two lines hash alike, because a
      leading NUL leaves the hash at 0, so the source's Equal takes them for
      the same line though their -l characters differ. */
  lemma DashLWalkAcceptsNul()
    ensures DashLWalk([LF], [0, LF]) && !LineEndsEqual([LF], [0, LF])
    ensures TokenHash(DashL, [LF]) == TokenHash(DashL, [0, LF])
    ensures Hashed(DashL, [LF]) != Hashed(DashL, [0, LF])
  {
    NulLine();
    assert CommonFrom([LF], [0, LF], 0) == 0;
  }

  /** The -l characters and hash of the line NUL LF. */
  lemma NulLine()
    ensures Hashed(DashL, [LF]) == [LF] && Hashed(DashL, [0, LF]) == [0, LF]
    ensures HashOf([LF]) == HashOf([0, LF])
  {
    NulChars();
    NulHash();
  }

  lemma NulChars()
    ensures LineChars([LF]) == [LF] && LineChars([0, LF]) == [0, LF]
  {
    LineCharsPair(0, LF);
  }

  /** The -l characters of a line end alone, and of one plain character
      before it. */
  lemma LineCharsPair(c: JChar, d: JChar)
    requires !IsNewLine(c) && IsNewLine(d)
    ensures LineChars([d]) == [LF] && LineChars([c, d]) == [c, LF]
  {
    LineCharsAppend([], d);
    LineCharsAppend([], c);
    LineCharsAppend([c], d);
    assert [c] + [d] == [c, d];
  }

  lemma NulHash()
    ensures HashOf([LF]) == HashOf([0, LF])
  {
    HashSnoc([], LF);
    HashSnoc([], 0);
    HashSnoc([0], LF);
    assert [0 as JChar] + [LF] == [0, LF];
  }
}
