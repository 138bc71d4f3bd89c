/** The six tokenizing policies of a Sequence, stated over the characters of
    the file (each byte sign-extended to a char): where a policy ends a token,
    which characters of a token its hash covers, and the token table a load
    loop must leave behind. */
module Tokens {
  import opened JavaTypes
  import opened Flags

  /** One entry of a token table: the hash of the token that starts at
      `offset`. The entry after the last token holds the file's length and
      hash 0. */
  datatype VarInfo = VarInfo(hash: bv32, offset: int)

  /** A line-end character of the -l, -b and -w policies. */
  predicate IsNewLine(c: JChar)
  {
    c == CR || c == LF
  }

  /** Whitespace for -b and -w: space and tab. */
  predicate IsWhitespace(c: JChar)
  {
    c == SPACE || c == TAB
  }

  /** The character classes of the WClass policy: 1 CR, 2 letters and every
      char with bit 0x80 set (all bytes >= 0x80), 3 space, 4 anything else,
      5 LF. */
  function CharClass(alphabetic: JChar -> bool, c: JChar): (k: int)
    ensures 1 <= k <= 5
    ensures k == 1 <==> c == CR
    ensures k == 5 <==> c == LF
  {
    if c == CR then 1
    else if c == LF then 5
    else if alphabetic(c) || (c as bv16) & 0x80 != 0 then 2
    else if c == SPACE then 3
    else 4
  }

  /** The -l, -b and -w policies end a line after an LF, and after a CR
      that no LF follows. */
  predicate EndsLine(cs: seq<JChar>, p: int)
    requires 0 < p < |cs|
  {
    cs[p - 1] == LF || (cs[p - 1] == CR && cs[p] != LF)
  }

  /** Whether policy `kind` ends a token between cs[p - 1] and cs[p]. */
  predicate Cut(kind: SequenceKind, alphabetic: JChar -> bool, cs: seq<JChar>, p: int)
  {
    0 < p < |cs| &&
    match kind
    case Line => cs[p - 1] == LF
    case Word => cs[p - 1] == SPACE
    case WClass =>
      && !(cs[p - 1] == CR && cs[p] == LF)
      && (cs[p] == LF || CharClass(alphabetic, cs[p - 1]) != CharClass(alphabetic, cs[p]))
    case _ => EndsLine(cs, p)
  }

  /** The -l characters of a run: each line end (CR, LF or CR LF) becomes
      one LF. */
  function LineChars(cs: seq<JChar>): seq<JChar>
    decreases |cs|
  {
    if cs == [] then []
    else
      var c := cs[|cs| - 1];
      LineChars(cs[..|cs| - 1]) +
      (if c == LF && |cs| >= 2 && cs[|cs| - 2] == CR then []
       else if IsNewLine(c) then [LF]
       else [c])
  }

  /** The -b characters of a run: line ends are dropped, and a run of
      whitespace becomes one space when a character other than whitespace or
      a line end follows it, and nothing otherwise. */
  function Squeezed(cs: seq<JChar>): seq<JChar>
    decreases |cs|
  {
    if cs == [] then []
    else
      var c := cs[|cs| - 1];
      Squeezed(cs[..|cs| - 1]) +
      (if IsWhitespace(c) || IsNewLine(c) then []
       else if |cs| >= 2 && IsWhitespace(cs[|cs| - 2]) then [SPACE, c]
       else [c])
  }

  /** The -w characters of a run: whitespace and line ends are dropped. */
  function Stripped(cs: seq<JChar>): seq<JChar>
    decreases |cs|
  {
    if cs == [] then []
    else
      var c := cs[|cs| - 1];
      Stripped(cs[..|cs| - 1]) + (if IsWhitespace(c) || IsNewLine(c) then [] else [c])
  }

  /** The characters policy `kind` hashes for the token `cs`; -l adds the
      LF an unterminated last line lacks. */
  function Hashed(kind: SequenceKind, cs: seq<JChar>): seq<JChar>
  {
    match kind
    case DashL => LineChars(cs) + (if cs != [] && !IsNewLine(cs[|cs| - 1]) then [LF] else [])
    case DashB => Squeezed(cs)
    case DashW => Stripped(cs)
    case _ => cs
  }

  function TokenHash(kind: SequenceKind, cs: seq<JChar>): bv32
  {
    HashOf(Hashed(kind, cs))
  }

  /** The state of a load loop that has read cs[..upto]: `lines` holds the
      tokens that end at or before its last entry's offset, each with its
      hash, the last entry is the open token (hash 0), and no boundary lies
      inside a token or between the open token's start and upto. */
  ghost predicate Partial(kind: SequenceKind, alphabetic: JChar -> bool, cs: seq<JChar>,
                          lines: seq<VarInfo>, upto: int)
  {
    && Offsets(lines, upto, |cs|)
    && AtCuts(kind, alphabetic, cs, lines)
    && NoCutInside(kind, alphabetic, cs, lines, upto)
    && Hashes(kind, cs, lines)
  }

  /** The offsets start at 0 and increase, the last entry is open and
      starts at or before upto. */
  ghost predicate Offsets(lines: seq<VarInfo>, upto: int, size: int)
  {
    && |lines| >= 1 && lines[0].offset == 0 && lines[|lines| - 1].hash == 0
    && 0 <= lines[|lines| - 1].offset <= upto <= size
    && (forall i, j :: 0 <= i < j < |lines| ==> Before(lines, i, j))
  }

  /** Entry i starts before entry j. */
  predicate Before(lines: seq<VarInfo>, i: int, j: int)
  {
    0 <= i < j < |lines| ==> lines[i].offset < lines[j].offset
  }

  /** Every entry after the sentinel starts where the policy cuts. */
  ghost predicate AtCuts(kind: SequenceKind, alphabetic: JChar -> bool, cs: seq<JChar>, lines: seq<VarInfo>)
  {
    forall i :: 0 < i < |lines| ==> StartsAtCut(kind, alphabetic, cs, lines, i)
  }

  /** Entry i starts where the policy cuts, or at the file's end. */
  ghost predicate StartsAtCut(kind: SequenceKind, alphabetic: JChar -> bool, cs: seq<JChar>, lines: seq<VarInfo>, i: int)
  {
    0 < i < |lines| && lines[i].offset < |cs| ==> Cut(kind, alphabetic, cs, lines[i].offset)
  }

  /** No cut lies strictly inside a token, nor inside the open token read so
      far. */
  ghost predicate NoCutInside(kind: SequenceKind, alphabetic: JChar -> bool, cs: seq<JChar>,
                              lines: seq<VarInfo>, upto: int)
    requires |lines| >= 1
  {
    && (forall i :: 0 <= i < |lines| - 1 ==> Whole(kind, alphabetic, cs, lines, i))
    && NoCutBetween(kind, alphabetic, cs, lines[|lines| - 1].offset, upto)
  }

  /** No cut lies strictly inside token i. */
  ghost predicate Whole(kind: SequenceKind, alphabetic: JChar -> bool, cs: seq<JChar>, lines: seq<VarInfo>, i: int)
  {
    0 <= i < |lines| - 1 ==> NoCutBetween(kind, alphabetic, cs, lines[i].offset, lines[i + 1].offset)
  }

  /** No cut lies strictly between a and b. */
  ghost predicate NoCutBetween(kind: SequenceKind, alphabetic: JChar -> bool, cs: seq<JChar>, a: int, b: int)
  {
    forall p :: a < p < b ==> !Cut(kind, alphabetic, cs, p)
  }

  /** Every complete token carries the hash of what the policy hashes of
      it. */
  ghost predicate Hashes(kind: SequenceKind, cs: seq<JChar>, lines: seq<VarInfo>)
  {
    forall i :: 0 <= i < |lines| - 1 ==> HashedToken(kind, cs, lines, i)
  }

  /** Token i carries the hash of what the policy hashes of it. */
  ghost predicate HashedToken(kind: SequenceKind, cs: seq<JChar>, lines: seq<VarInfo>, i: int)
  {
    0 <= i < |lines| - 1 && 0 <= lines[i].offset <= lines[i + 1].offset <= |cs| ==>
      lines[i].hash == TokenHash(kind, cs[lines[i].offset..lines[i + 1].offset])
  }

  /** The token table of the whole file: a sentinel at offset 0, one entry
      per token, the entry after the last token at the file's end. */
  ghost predicate Table(kind: SequenceKind, alphabetic: JChar -> bool, cs: seq<JChar>, lines: seq<VarInfo>)
  {
    Partial(kind, alphabetic, cs, lines, |cs|) && lines[|lines| - 1].offset == |cs|
  }

  /** StoreLine: the open token gets hash h and a new open token starts at
      `at`. */
  function Stored(lines: seq<VarInfo>, h: bv32, at: int): (r: seq<VarInfo>)
    requires |lines| >= 1
    ensures |r| == |lines| + 1 && forall i :: 0 <= i < |lines| - 1 ==> r[i] == lines[i]
    ensures r[|lines| - 1] == VarInfo(h, lines[|lines| - 1].offset) && r[|lines|] == VarInfo(0, at)
  {
    lines[..|lines| - 1] + [VarInfo(h, lines[|lines| - 1].offset), VarInfo(0, at)]
  }

  /** A load loop starts from the sentinel alone. */
  lemma StartPartial(kind: SequenceKind, alphabetic: JChar -> bool, cs: seq<JChar>)
    ensures Partial(kind, alphabetic, cs, [VarInfo(0, 0)], 0)
  {
  }

  /** Reading one more character that is not a boundary keeps the state. */
  lemma AdvancePartial(kind: SequenceKind, alphabetic: JChar -> bool, cs: seq<JChar>,
                       lines: seq<VarInfo>, t: int)
    requires Partial(kind, alphabetic, cs, lines, t) && t < |cs|
    requires lines[|lines| - 1].offset < t ==> !Cut(kind, alphabetic, cs, t)
    ensures Partial(kind, alphabetic, cs, lines, t + 1)
  {
  }

  /** Storing the open token at a boundary (or at the end of the file) with
      its hash keeps the state, with the new open token empty. */
  lemma StorePartial(kind: SequenceKind, alphabetic: JChar -> bool, cs: seq<JChar>,
                     lines: seq<VarInfo>, t: int, h: bv32)
    requires Partial(kind, alphabetic, cs, lines, t)
    requires lines[|lines| - 1].offset < t
    requires t == |cs| || Cut(kind, alphabetic, cs, t)
    requires h == TokenHash(kind, cs[lines[|lines| - 1].offset..t])
    ensures Partial(kind, alphabetic, cs, Stored(lines, h, t), t)
  {
    var r := Stored(lines, h, t);
    StoreOffsets(lines, t, |cs|, h);
    StoreAtCuts(kind, alphabetic, cs, lines, t, h);
    StoreNoCut(kind, alphabetic, cs, lines, t, h);
    StoreHashes(kind, cs, lines, t, h);
  }

  lemma StoreOffsets(lines: seq<VarInfo>, t: int, size: int, h: bv32)
    requires Offsets(lines, t, size) && lines[|lines| - 1].offset < t
    ensures Offsets(Stored(lines, h, t), t, size)
  {
    var r := Stored(lines, h, t);
    var n := |lines|;
    forall i, j | 0 <= i < j < |r|
      ensures Before(r, i, j)
    {
      if j < n {
        assert Before(lines, i, j);
      } else if i < n - 1 {
        assert Before(lines, i, n - 1);
      }
    }
  }

  lemma StoreAtCuts(kind: SequenceKind, alphabetic: JChar -> bool, cs: seq<JChar>,
                    lines: seq<VarInfo>, t: int, h: bv32)
    requires |lines| >= 1 && AtCuts(kind, alphabetic, cs, lines)
    requires t == |cs| || Cut(kind, alphabetic, cs, t)
    ensures AtCuts(kind, alphabetic, cs, Stored(lines, h, t))
  {
    var r := Stored(lines, h, t);
    forall i | 0 < i < |r|
      ensures StartsAtCut(kind, alphabetic, cs, r, i)
    {
      if i < |lines| {
        assert StartsAtCut(kind, alphabetic, cs, lines, i);
      }
    }
  }

  lemma StoreNoCut(kind: SequenceKind, alphabetic: JChar -> bool, cs: seq<JChar>,
                   lines: seq<VarInfo>, t: int, h: bv32)
    requires Offsets(lines, t, |cs|) && lines[|lines| - 1].offset < t
    requires NoCutInside(kind, alphabetic, cs, lines, t)
    ensures NoCutInside(kind, alphabetic, cs, Stored(lines, h, t), t)
  {
    var r := Stored(lines, h, t);
    var n := |lines|;
    forall i | 0 <= i < |r| - 1
      ensures Whole(kind, alphabetic, cs, r, i)
    {
      if i < n - 1 {
        assert Whole(kind, alphabetic, cs, lines, i);
      }
    }
  }

  lemma StoreHashes(kind: SequenceKind, cs: seq<JChar>, lines: seq<VarInfo>, t: int, h: bv32)
    requires Offsets(lines, t, |cs|) && lines[|lines| - 1].offset < t
    requires Hashes(kind, cs, lines)
    requires h == TokenHash(kind, cs[lines[|lines| - 1].offset..t])
    ensures Hashes(kind, cs, Stored(lines, h, t))
  {
    var r := Stored(lines, h, t);
    var n := |lines|;
    forall i | 0 <= i < |r| - 1
      ensures HashedToken(kind, cs, r, i)
    {
      if i < n - 1 {
        assert HashedToken(kind, cs, lines, i);
        assert r[i] == lines[i] && r[i + 1].offset == lines[i + 1].offset;
      }
    }
  }

  /** The per-character step of each policy's hashed characters, read one
      character further. */
  lemma LineCharsSnoc(cs: seq<JChar>, s: int, t: int)
    requires 0 <= s <= t < |cs|
    ensures LineChars(cs[s..t + 1]) == LineChars(cs[s..t]) +
      (if cs[t] == LF && s < t && cs[t - 1] == CR then []
       else if IsNewLine(cs[t]) then [LF]
       else [cs[t]])
  {
    assert cs[s..t + 1][..t - s] == cs[s..t];
  }

  lemma SqueezedSnoc(cs: seq<JChar>, s: int, t: int)
    requires 0 <= s <= t < |cs|
    ensures Squeezed(cs[s..t + 1]) == Squeezed(cs[s..t]) +
      (if IsWhitespace(cs[t]) || IsNewLine(cs[t]) then []
       else if s < t && IsWhitespace(cs[t - 1]) then [SPACE, cs[t]]
       else [cs[t]])
  {
    assert cs[s..t + 1][..t - s] == cs[s..t];
  }

  lemma StrippedSnoc(cs: seq<JChar>, s: int, t: int)
    requires 0 <= s <= t < |cs|
    ensures Stripped(cs[s..t + 1]) == Stripped(cs[s..t]) +
      (if IsWhitespace(cs[t]) || IsNewLine(cs[t]) then [] else [cs[t]])
  {
    assert cs[s..t + 1][..t - s] == cs[s..t];
  }

  lemma RawSnoc(cs: seq<JChar>, s: int, t: int)
    requires 0 <= s <= t < |cs|
    ensures HashOf(cs[s..t + 1]) == CharHash(HashOf(cs[s..t]), cs[t])
  {
    assert cs[s..t + 1] == cs[s..t] + [cs[t]];
    HashSnoc(cs[s..t], cs[t]);
  }

  /** Reading on from t to t2 across positions that are not boundaries
      keeps the state. */
  lemma ExtendPartial(kind: SequenceKind, alphabetic: JChar -> bool, cs: seq<JChar>,
                      lines: seq<VarInfo>, t: int, t2: int)
    requires Partial(kind, alphabetic, cs, lines, t) && t <= t2 <= |cs|
    requires forall p :: t <= p < t2 && lines[|lines| - 1].offset < p ==> !Cut(kind, alphabetic, cs, p)
    ensures Partial(kind, alphabetic, cs, lines, t2)
  {
  }

  /** A run of whitespace adds nothing to the -b and -w characters. */
  lemma {:induction false} SqueezedBlank(cs: seq<JChar>, s: int, t: int, t2: int)
    requires 0 <= s <= t <= t2 <= |cs|
    requires forall p :: t <= p < t2 ==> IsWhitespace(cs[p])
    ensures Squeezed(cs[s..t2]) == Squeezed(cs[s..t])
    decreases t2 - t
  {
    if t < t2 {
      SqueezedSnoc(cs, s, t2 - 1);
      SqueezedBlank(cs, s, t, t2 - 1);
    }
  }

  lemma {:induction false} StrippedBlank(cs: seq<JChar>, s: int, t: int, t2: int)
    requires 0 <= s <= t <= t2 <= |cs|
    requires forall p :: t <= p < t2 ==> IsWhitespace(cs[p])
    ensures Stripped(cs[s..t2]) == Stripped(cs[s..t])
    decreases t2 - t
  {
    if t < t2 {
      StrippedSnoc(cs, s, t2 - 1);
      StrippedBlank(cs, s, t, t2 - 1);
    }
  }

  /** The hash a load loop folds over cs[s..t], character by character. */
  function RawHash(cs: seq<JChar>, s: int, t: int): bv32
    requires 0 <= s <= t <= |cs|
    decreases t - s
  {
    if t == s then 0 else CharHash(RawHash(cs, s, t - 1), cs[t - 1])
  }

  /** The hash the -l load folds over cs[s..t]: each line end, a CR LF pair
      included, as one LF. */
  function LineHash(cs: seq<JChar>, s: int, t: int): bv32
    requires 0 <= s <= t <= |cs|
    decreases t - s
  {
    if t == s then 0
    else if cs[t - 1] == LF && s < t - 1 && cs[t - 2] == CR then LineHash(cs, s, t - 1)
    else CharHash(LineHash(cs, s, t - 1), if IsNewLine(cs[t - 1]) then LF else cs[t - 1])
  }

  /** The hash the -b load folds over cs[s..t]. */
  function SqueezeHash(cs: seq<JChar>, s: int, t: int): bv32
    requires 0 <= s <= t <= |cs|
    decreases t - s
  {
    if t == s then 0
    else
      var h := SqueezeHash(cs, s, t - 1);
      var c := cs[t - 1];
      if IsWhitespace(c) || IsNewLine(c) then h
      else if s < t - 1 && IsWhitespace(cs[t - 2]) then CharHash(CharHash(h, SPACE), c)
      else CharHash(h, c)
  }

  /** The hash the -w load folds over cs[s..t]. */
  function StripHash(cs: seq<JChar>, s: int, t: int): bv32
    requires 0 <= s <= t <= |cs|
    decreases t - s
  {
    if t == s then 0
    else if IsWhitespace(cs[t - 1]) || IsNewLine(cs[t - 1]) then StripHash(cs, s, t - 1)
    else CharHash(StripHash(cs, s, t - 1), cs[t - 1])
  }

  /** The hash a load stores for the token cs[s..t]: -l adds the LF an
      unterminated line lacks. */
  function ClosedHash(kind: SequenceKind, cs: seq<JChar>, s: int, t: int): bv32
    requires 0 <= s <= t <= |cs|
  {
    match kind
    case DashL => if s < t && !IsNewLine(cs[t - 1]) then CharHash(LineHash(cs, s, t), LF) else LineHash(cs, s, t)
    case DashB => SqueezeHash(cs, s, t)
    case DashW => StripHash(cs, s, t)
    case _ => RawHash(cs, s, t)
  }

  lemma {:induction false} RawHashIs(cs: seq<JChar>, s: int, t: int)
    requires 0 <= s <= t <= |cs|
    ensures RawHash(cs, s, t) == HashOf(cs[s..t])
    decreases t - s
  {
    if t > s {
      RawHashIs(cs, s, t - 1);
      RawSnoc(cs, s, t - 1);
    } else {
      assert cs[s..t] == [];
    }
  }

  lemma {:induction false} LineHashIs(cs: seq<JChar>, s: int, t: int)
    requires 0 <= s <= t <= |cs|
    ensures LineHash(cs, s, t) == HashOf(LineChars(cs[s..t]))
    decreases t - s
  {
    if t > s {
      LineHashIs(cs, s, t - 1);
      LineCharsSnoc(cs, s, t - 1);
      var q := LineChars(cs[s..t - 1]);
      if cs[t - 1] == LF && s < t - 1 && cs[t - 2] == CR {
        assert LineChars(cs[s..t]) == q + [] == q;
      } else if IsNewLine(cs[t - 1]) {
        assert LineChars(cs[s..t]) == q + [LF];
        HashSnoc(q, LF);
      } else {
        assert LineChars(cs[s..t]) == q + [cs[t - 1]];
        HashSnoc(q, cs[t - 1]);
      }
    } else {
      assert cs[s..t] == [];
    }
  }

  lemma {:induction false} SqueezeHashIs(cs: seq<JChar>, s: int, t: int)
    requires 0 <= s <= t <= |cs|
    ensures SqueezeHash(cs, s, t) == HashOf(Squeezed(cs[s..t]))
    decreases t - s
  {
    if t > s {
      SqueezeHashIs(cs, s, t - 1);
      SqueezedSnoc(cs, s, t - 1);
      var q := Squeezed(cs[s..t - 1]);
      var c := cs[t - 1];
      if IsWhitespace(c) || IsNewLine(c) {
        assert Squeezed(cs[s..t]) == q + [] == q;
      } else if s < t - 1 && IsWhitespace(cs[t - 2]) {
        assert Squeezed(cs[s..t]) == q + [SPACE, c];
        HashPair(q, SPACE, c);
      } else {
        assert Squeezed(cs[s..t]) == q + [c];
        HashSnoc(q, c);
      }
    } else {
      assert cs[s..t] == [];
    }
  }

  lemma {:induction false} StripHashIs(cs: seq<JChar>, s: int, t: int)
    requires 0 <= s <= t <= |cs|
    ensures StripHash(cs, s, t) == HashOf(Stripped(cs[s..t]))
    decreases t - s
  {
    if t > s {
      StripHashIs(cs, s, t - 1);
      StrippedSnoc(cs, s, t - 1);
      var q := Stripped(cs[s..t - 1]);
      if IsWhitespace(cs[t - 1]) || IsNewLine(cs[t - 1]) {
        assert Stripped(cs[s..t]) == q + [] == q;
      } else {
        HashSnoc(q, cs[t - 1]);
      }
    } else {
      assert cs[s..t] == [];
    }
  }

  /** The hash a load folds is the hash of what its policy hashes of the
      token. */
  lemma ClosedHashIs(kind: SequenceKind, cs: seq<JChar>, s: int, t: int)
    requires 0 <= s <= t <= |cs|
    ensures ClosedHash(kind, cs, s, t) == TokenHash(kind, cs[s..t])
  {
    match kind
    case DashL =>
      LineHashIs(cs, s, t);
      var x := cs[s..t];
      if s < t && !IsNewLine(cs[t - 1]) {
        assert x[|x| - 1] == cs[t - 1];
        HashSnoc(LineChars(x), LF);
      } else if s < t {
        assert x[|x| - 1] == cs[t - 1];
        assert Hashed(DashL, x) == LineChars(x) + [] == LineChars(x);
      } else {
        assert Hashed(DashL, x) == LineChars(x) + [] == LineChars(x);
      }
    case DashB =>
      SqueezeHashIs(cs, s, t);
    case DashW =>
      StripHashIs(cs, s, t);
    case _ =>
      RawHashIs(cs, s, t);
  }

  /** StorePartial with the folded hash. */
  lemma StoreClosed(kind: SequenceKind, alphabetic: JChar -> bool, cs: seq<JChar>,
                    lines: seq<VarInfo>, t: int, h: bv32)
    requires Partial(kind, alphabetic, cs, lines, t)
    requires lines[|lines| - 1].offset < t
    requires t == |cs| || Cut(kind, alphabetic, cs, t)
    requires h == ClosedHash(kind, cs, lines[|lines| - 1].offset, t)
    ensures Partial(kind, alphabetic, cs, Stored(lines, h, t), t)
  {
    ClosedHashIs(kind, cs, lines[|lines| - 1].offset, t);
    StorePartial(kind, alphabetic, cs, lines, t, h);
  }
}
