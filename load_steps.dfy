/** What one pass of each load loop does to the token table, stated over
    the file's characters, and the proof that every pass keeps the table
    consistent with its policy. */
module LoadSteps {
  import opened JavaTypes
  import opened Flags
  import opened Tokens

  /** The state of the Line and Word loads before reading cs[t]: the open
      token so far holds no cut and its bytes hash to h. */
  ghost predicate RawReading(kind: SequenceKind, alphabetic: JChar -> bool, cs: seq<JChar>,
                             lines: seq<VarInfo>, t: int, h: bv32)
  {
    && Partial(kind, alphabetic, cs, lines, t) && t < |cs|
    && (lines[|lines| - 1].offset < t ==> !Cut(kind, alphabetic, cs, t))
    && h == RawHash(cs, lines[|lines| - 1].offset, t)
  }

  /** The token table and open hash one pass of the Line and Word loads
      leaves after reading cs[t]. */
  function RawNext(kind: SequenceKind, cs: seq<JChar>, lines: seq<VarInfo>, t: int, h: bv32): (seq<VarInfo>, bv32)
    requires 0 <= t < |cs| && |lines| >= 1
  {
    var h' := CharHash(h, cs[t]);
    if t + 1 == |cs| then (Stored(lines, h', t + 1), h')
    else if (if kind == Line then cs[t] == LF else cs[t] == SPACE) then (Stored(lines, h', t + 1), 0)
    else (lines, h')
  }

  /** The Line and Word loads start from the sentinel alone. */
  lemma RawStart(kind: SequenceKind, alphabetic: JChar -> bool, cs: seq<JChar>)
    requires |cs| > 0
    ensures RawReading(kind, alphabetic, cs, [VarInfo(0, 0)], 0, 0)
  {
    StartPartial(kind, alphabetic, cs);
  }

  /** One pass of the Line and Word loads: hash cs[t]; store the token at
      the end of the file and after the separator. */
  lemma RawStep(kind: SequenceKind, alphabetic: JChar -> bool, cs: seq<JChar>,
                lines: seq<VarInfo>, t: int, h: bv32)
    requires kind == Line || kind == Word
    requires RawReading(kind, alphabetic, cs, lines, t, h)
    ensures t + 1 == |cs| ==> Table(kind, alphabetic, cs, RawNext(kind, cs, lines, t, h).0)
    ensures t + 1 < |cs| ==>
      RawReading(kind, alphabetic, cs, RawNext(kind, cs, lines, t, h).0, t + 1, RawNext(kind, cs, lines, t, h).1)
  {
    var stop := if kind == Line then cs[t] == LF else cs[t] == SPACE;
    if t + 1 == |cs| || stop {
      RawStore(kind, alphabetic, cs, lines, t, h);
    } else {
      AdvancePartial(kind, alphabetic, cs, lines, t);
    }
  }

  lemma RawStore(kind: SequenceKind, alphabetic: JChar -> bool, cs: seq<JChar>,
                 lines: seq<VarInfo>, t: int, h: bv32)
    requires kind == Line || kind == Word
    requires RawReading(kind, alphabetic, cs, lines, t, h)
    requires t + 1 == |cs| || (if kind == Line then cs[t] == LF else cs[t] == SPACE)
    ensures Partial(kind, alphabetic, cs, Stored(lines, CharHash(h, cs[t]), t + 1), t + 1)
  {
    AdvancePartial(kind, alphabetic, cs, lines, t);
    StoreClosed(kind, alphabetic, cs, lines, t + 1, CharHash(h, cs[t]));
  }

  /** The class the WClass load remembers for a character: LF is recorded
      as 6, so that it differs from every class, LF's own included. */
  function Recorded(alphabetic: JChar -> bool, c: JChar): int
  {
    if c == LF then 6 else CharClass(alphabetic, c)
  }

  /** The state of the WClass load before reading cs[t]: `last` is the
      class it remembers, 0 before the first character. */
  ghost predicate ClassReading(alphabetic: JChar -> bool, cs: seq<JChar>, lines: seq<VarInfo>,
                               t: int, h: bv32, last: int)
  {
    && Partial(WClass, alphabetic, cs, lines, t) && 0 <= t <= |cs|
    && (t == 0 ==> last == 0 && lines == [VarInfo(0, 0)])
    && (t > 0 ==> last == Recorded(alphabetic, cs[t - 1]) && lines[|lines| - 1].offset < t)
    && h == RawHash(cs, lines[|lines| - 1].offset, t)
  }

  /** Whether the WClass load stores the open token before c, given the
      class it remembers. */
  function ClassBreak(alphabetic: JChar -> bool, c: JChar, last: int): bool
  {
    var k := CharClass(alphabetic, c);
    k != last && !(k == 5 && last == 1) && last != 0
  }

  /** One pass of the WClass load: store before cs[t] at a class change,
      then hash cs[t] and remember its class. */
  function ClassNext(alphabetic: JChar -> bool, cs: seq<JChar>, lines: seq<VarInfo>,
                     t: int, h: bv32, last: int): (seq<VarInfo>, bv32, int)
    requires 0 <= t < |cs| && |lines| >= 1
  {
    var k := CharClass(alphabetic, cs[t]);
    var last' := if k == 5 then 6 else k;
    if ClassBreak(alphabetic, cs[t], last) then (Stored(lines, h, t), CharHash(0, cs[t]), last')
    else (lines, CharHash(h, cs[t]), last')
  }

  /** The remembered class decides exactly the WClass cuts. */
  lemma ClassBreakIsCut(alphabetic: JChar -> bool, cs: seq<JChar>, t: int, last: int)
    requires 0 <= t < |cs|
    requires t == 0 ==> last == 0
    requires t > 0 ==> last == Recorded(alphabetic, cs[t - 1])
    ensures ClassBreak(alphabetic, cs[t], last) <==> Cut(WClass, alphabetic, cs, t)
  {
  }

  lemma ClassStart(alphabetic: JChar -> bool, cs: seq<JChar>)
    ensures ClassReading(alphabetic, cs, [VarInfo(0, 0)], 0, 0, 0)
  {
    StartPartial(WClass, alphabetic, cs);
  }

  lemma ClassStep(alphabetic: JChar -> bool, cs: seq<JChar>, lines: seq<VarInfo>,
                  t: int, h: bv32, last: int)
    requires ClassReading(alphabetic, cs, lines, t, h, last) && t < |cs|
    ensures last != 5
    ensures ClassReading(alphabetic, cs, ClassNext(alphabetic, cs, lines, t, h, last).0, t + 1,
                         ClassNext(alphabetic, cs, lines, t, h, last).1, ClassNext(alphabetic, cs, lines, t, h, last).2)
  {
    ClassBreakIsCut(alphabetic, cs, t, last);
    if ClassBreak(alphabetic, cs[t], last) {
      ClassStore(alphabetic, cs, lines, t, h, last);
    } else {
      AdvancePartial(WClass, alphabetic, cs, lines, t);
    }
  }

  lemma ClassStore(alphabetic: JChar -> bool, cs: seq<JChar>, lines: seq<VarInfo>,
                   t: int, h: bv32, last: int)
    requires ClassReading(alphabetic, cs, lines, t, h, last) && t < |cs|
    requires Cut(WClass, alphabetic, cs, t)
    ensures ClassReading(alphabetic, cs, Stored(lines, h, t), t + 1, CharHash(0, cs[t]), Recorded(alphabetic, cs[t]))
  {
    StoreClosed(WClass, alphabetic, cs, lines, t, h);
    AdvancePartial(WClass, alphabetic, cs, Stored(lines, h, t), t);
  }

  /** After the last character the WClass load stores the open token. */
  lemma ClassFinish(alphabetic: JChar -> bool, cs: seq<JChar>, lines: seq<VarInfo>, h: bv32, last: int)
    requires ClassReading(alphabetic, cs, lines, |cs|, h, last) && |cs| > 0
    ensures Table(WClass, alphabetic, cs, Stored(lines, h, |cs|))
  {
    StoreClosed(WClass, alphabetic, cs, lines, |cs|, h);
  }

  /** The state of the -l load before reading cs[t]: the open token holds
      no line end and its -l characters hash to h; at the end of the file
      the last token is stored. */
  ghost predicate DashLReading(alphabetic: JChar -> bool, cs: seq<JChar>, lines: seq<VarInfo>, t: int, h: bv32)
  {
    && Partial(DashL, alphabetic, cs, lines, t) && t <= |cs|
    && (lines[|lines| - 1].offset < t ==> !IsNewLine(cs[t - 1]))
    && (t < |cs| ==> h == LineHash(cs, lines[|lines| - 1].offset, t))
    && (t == |cs| ==> lines[|lines| - 1].offset == |cs|)
  }

  /** One pass of the -l load: read a character, or a CR LF pair, as one
      LF for a line end; add the LF an unterminated last line lacks; store
      at a line end or at the end of the file. Returns the table, the open
      hash and the new position. */
  function DashLNext(cs: seq<JChar>, lines: seq<VarInfo>, t: int, h: bv32): (seq<VarInfo>, bv32, int)
    requires 0 <= t < |cs| && |lines| >= 1
  {
    var t' := if cs[t] == CR && t + 1 < |cs| && cs[t + 1] == LF then t + 2 else t + 1;
    var c := if IsNewLine(cs[t]) then LF else cs[t];
    var h1 := CharHash(h, c);
    var h2 := if t' == |cs| && c != LF then CharHash(h1, LF) else h1;
    if t' == |cs| || c == LF then (Stored(lines, h2, t'), 0, t') else (lines, h2, t')
  }

  lemma DashLStart(alphabetic: JChar -> bool, cs: seq<JChar>)
    ensures DashLReading(alphabetic, cs, [VarInfo(0, 0)], 0, 0)
  {
    StartPartial(DashL, alphabetic, cs);
  }

  lemma DashLStep(alphabetic: JChar -> bool, cs: seq<JChar>, lines: seq<VarInfo>, t: int, h: bv32)
    requires DashLReading(alphabetic, cs, lines, t, h) && t < |cs|
    ensures DashLReading(alphabetic, cs, DashLNext(cs, lines, t, h).0, DashLNext(cs, lines, t, h).2,
                         DashLNext(cs, lines, t, h).1)
  {
    if !IsNewLine(cs[t]) {
      if t + 1 == |cs| {
        DashLLast(alphabetic, cs, lines, t, h);
      } else {
        AdvancePartial(DashL, alphabetic, cs, lines, t);
      }
    } else if cs[t] == CR && t + 1 < |cs| && cs[t + 1] == LF {
      DashLPair(alphabetic, cs, lines, t, h);
    } else {
      DashLBreak(alphabetic, cs, lines, t, h);
    }
  }

  /** The -l load stores a line that ends in CR LF. */
  lemma DashLPair(alphabetic: JChar -> bool, cs: seq<JChar>, lines: seq<VarInfo>, t: int, h: bv32)
    requires DashLReading(alphabetic, cs, lines, t, h)
    requires t + 1 < |cs| && cs[t] == CR && cs[t + 1] == LF
    ensures Partial(DashL, alphabetic, cs, Stored(lines, CharHash(h, LF), t + 2), t + 2)
  {
    var s := lines[|lines| - 1].offset;
    AdvancePartial(DashL, alphabetic, cs, lines, t);
    AdvancePartial(DashL, alphabetic, cs, lines, t + 1);
    assert LineHash(cs, s, t + 1) == CharHash(h, LF);
    assert LineHash(cs, s, t + 2) == LineHash(cs, s, t + 1);
    StoreClosed(DashL, alphabetic, cs, lines, t + 2, CharHash(h, LF));
  }

  /** The -l load stores an unterminated last line with the LF it lacks. */
  lemma DashLLast(alphabetic: JChar -> bool, cs: seq<JChar>, lines: seq<VarInfo>, t: int, h: bv32)
    requires DashLReading(alphabetic, cs, lines, t, h)
    requires t + 1 == |cs| && !IsNewLine(cs[t])
    ensures Partial(DashL, alphabetic, cs, Stored(lines, CharHash(CharHash(h, cs[t]), LF), t + 1), t + 1)
  {
    var s := lines[|lines| - 1].offset;
    AdvancePartial(DashL, alphabetic, cs, lines, t);
    assert LineHash(cs, s, t + 1) == CharHash(h, cs[t]);
    StoreClosed(DashL, alphabetic, cs, lines, t + 1, CharHash(CharHash(h, cs[t]), LF));
  }

  /** The -l load stores a line that ends in a lone CR or LF. */
  lemma DashLBreak(alphabetic: JChar -> bool, cs: seq<JChar>, lines: seq<VarInfo>, t: int, h: bv32)
    requires DashLReading(alphabetic, cs, lines, t, h) && t < |cs| && IsNewLine(cs[t])
    requires !(cs[t] == CR && t + 1 < |cs| && cs[t + 1] == LF)
    ensures Partial(DashL, alphabetic, cs, Stored(lines, CharHash(h, LF), t + 1), t + 1)
  {
    var s := lines[|lines| - 1].offset;
    AdvancePartial(DashL, alphabetic, cs, lines, t);
    assert LineHash(cs, s, t + 1) == CharHash(h, LF);
    StoreClosed(DashL, alphabetic, cs, lines, t + 1, CharHash(h, LF));
  }

  /** A character the -b and -w policies hash as itself. */
  predicate Real(c: JChar)
  {
    !IsWhitespace(c) && !IsNewLine(c)
  }

  /** Where the -b load's whitespace skip from i stops: the first position
      at or after i without whitespace, or the file's end. */
  function BlankEnd(cs: seq<JChar>, i: int): (r: int)
    requires 0 <= i <= |cs|
    ensures i <= r <= |cs| && (r < |cs| ==> !IsWhitespace(cs[r]))
    ensures forall p :: i <= p < r ==> IsWhitespace(cs[p])
    decreases |cs| - i
  {
    if i < |cs| && IsWhitespace(cs[i]) then BlankEnd(cs, i + 1) else i
  }

  /** The position of the character the -w load settles on from i: the
      first without whitespace, or the file's last. */
  function SkipTo(cs: seq<JChar>, i: int): (r: int)
    requires 0 <= i < |cs|
    ensures i <= r < |cs| && (IsWhitespace(cs[r]) ==> r + 1 == |cs|)
    ensures forall p :: i <= p < r ==> IsWhitespace(cs[p])
    decreases |cs| - i
  {
    if IsWhitespace(cs[i]) && i + 1 < |cs| then SkipTo(cs, i + 1) else i
  }

  /** The state of the -b and -w loads before reading cs[t]: the open token
      so far ends in a character hashed as itself, and the load's fold over
      it is h; at the end of the file the last token is stored. */
  ghost predicate BlankReading(kind: SequenceKind, alphabetic: JChar -> bool, cs: seq<JChar>,
                               lines: seq<VarInfo>, t: int, h: bv32)
  {
    && Partial(kind, alphabetic, cs, lines, t) && t <= |cs|
    && (lines[|lines| - 1].offset < t ==> Real(cs[t - 1]))
    && (t < |cs| ==> h == ClosedHash(kind, cs, lines[|lines| - 1].offset, t))
    && (t == |cs| ==> lines[|lines| - 1].offset == |cs|)
  }

  /** Whether the -b or -w load hashes the character c it settled on: -b
      every character but a line end (it never settles on whitespace), -w
      neither whitespace nor a line end. */
  function TailHash(kind: SequenceKind, c: JChar, h: bv32): bv32
  {
    if (if kind == DashB then !IsNewLine(c) else Real(c)) then CharHash(h, c) else h
  }

  /** The end of one pass of the -b and -w loads, from the character cs[u]
      they settled on: step over it, and over the LF of a CR LF pair; hash
      it; store at a line end or at the end of the file. Returns the table,
      the open hash and the new position. */
  function LineTail(kind: SequenceKind, cs: seq<JChar>, lines: seq<VarInfo>, u: int, h: bv32): (seq<VarInfo>, bv32, int)
    requires 0 <= u < |cs| && |lines| >= 1
  {
    var c := cs[u];
    var u' := if c == CR && u + 1 < |cs| && cs[u + 1] == LF then u + 2 else u + 1;
    var h' := TailHash(kind, c, h);
    if u' == |cs| || IsNewLine(c) then (Stored(lines, h', u'), 0, u') else (lines, h', u')
  }

  /** One pass of the -b load: a whitespace run becomes one hashed space
      unless the file or the line ends after it; the file ending after it
      stores the token and ends the load. */
  function DashBNext(cs: seq<JChar>, lines: seq<VarInfo>, t: int, h: bv32): (seq<VarInfo>, bv32, int)
    requires 0 <= t < |cs| && |lines| >= 1
  {
    if IsWhitespace(cs[t]) then BlankRun(cs, lines, BlankEnd(cs, t + 1), h)
    else LineTail(DashB, cs, lines, t, h)
  }

  /** The rest of a -b pass after a whitespace run that ends at t2. */
  function BlankRun(cs: seq<JChar>, lines: seq<VarInfo>, t2: int, h: bv32): (seq<VarInfo>, bv32, int)
    requires 0 <= t2 <= |cs| && |lines| >= 1
  {
    if t2 == |cs| then (Stored(lines, h, |cs|), h, |cs|)
    else LineTail(DashB, cs, lines, t2, if IsNewLine(cs[t2]) then h else CharHash(h, SPACE))
  }

  /** One pass of the -w load: skip whitespace, stopping at the file's last
      character at the latest. */
  function DashWNext(cs: seq<JChar>, lines: seq<VarInfo>, t: int, h: bv32): (seq<VarInfo>, bv32, int)
    requires 0 <= t < |cs| && |lines| >= 1
  {
    LineTail(DashW, cs, lines, SkipTo(cs, t), h)
  }

  lemma BlankStart(kind: SequenceKind, alphabetic: JChar -> bool, cs: seq<JChar>)
    requires kind == DashB || kind == DashW
    ensures BlankReading(kind, alphabetic, cs, [VarInfo(0, 0)], 0, 0)
  {
    StartPartial(kind, alphabetic, cs);
  }

  lemma DashBStep(alphabetic: JChar -> bool, cs: seq<JChar>, lines: seq<VarInfo>, t: int, h: bv32)
    requires BlankReading(DashB, alphabetic, cs, lines, t, h) && t < |cs|
    ensures BlankReading(DashB, alphabetic, cs, DashBNext(cs, lines, t, h).0, DashBNext(cs, lines, t, h).2,
                         DashBNext(cs, lines, t, h).1)
  {
    var next := DashBNext(cs, lines, t, h);
    if !IsWhitespace(cs[t]) {
      DashBPlain(alphabetic, cs, lines, t, h, next.0, next.1, next.2);
    } else {
      DashBBlank(alphabetic, cs, lines, t, h, next.0, next.1, next.2);
    }
  }

  /** A -b pass that starts on a character other than space or tab. */
  lemma DashBPlain(alphabetic: JChar -> bool, cs: seq<JChar>, lines: seq<VarInfo>, t: int, h: bv32,
                   lines': seq<VarInfo>, h': bv32, t': int)
    requires BlankReading(DashB, alphabetic, cs, lines, t, h) && t < |cs| && !IsWhitespace(cs[t])
    requires (lines', h', t') == LineTail(DashB, cs, lines, t, h)
    ensures BlankReading(DashB, alphabetic, cs, lines', t', h')
  {
    TailStep(DashB, alphabetic, cs, lines, t, h, lines', h', t');
  }

  /** A -b pass that starts on a space or tab. */
  lemma DashBBlank(alphabetic: JChar -> bool, cs: seq<JChar>, lines: seq<VarInfo>, t: int, h: bv32,
                   lines': seq<VarInfo>, h': bv32, t': int)
    requires BlankReading(DashB, alphabetic, cs, lines, t, h) && t < |cs| && IsWhitespace(cs[t])
    requires (lines', h', t') == BlankRun(cs, lines, BlankEnd(cs, t + 1), h)
    ensures BlankReading(DashB, alphabetic, cs, lines', t', h')
  {
    var s := lines[|lines| - 1].offset;
    var t2 := BlankEnd(cs, t + 1);
    BlankExtend(DashB, alphabetic, cs, lines, t, t2);
    if t2 == |cs| {
      SqueezeHashBlank(cs, s, t, t2);
      assert lines' == Stored(lines, h, |cs|) && t' == |cs|;
      StoreClosed(DashB, alphabetic, cs, lines, |cs|, h);
    } else {
      var h1 := if IsNewLine(cs[t2]) then h else CharHash(h, SPACE);
      BlankTailHash(cs, s, t, t2, h);
      assert (lines', h', t') == LineTail(DashB, cs, lines, t2, h1);
      TailStep(DashB, alphabetic, cs, lines, t2, h1, lines', h', t');
    }
  }

  /** After a whitespace run the -b fold has one space to add, unless a
      line end follows. */
  lemma BlankTailHash(cs: seq<JChar>, s: int, t: int, t2: int, h: bv32)
    requires 0 <= s <= t < t2 < |cs| && !IsWhitespace(cs[t2])
    requires forall p :: t <= p < t2 ==> IsWhitespace(cs[p])
    requires h == SqueezeHash(cs, s, t)
    ensures TailHash(DashB, cs[t2], if IsNewLine(cs[t2]) then h else CharHash(h, SPACE)) == ClosedHash(DashB, cs, s, t2 + 1)
  {
    SqueezeHashBlank(cs, s, t, t2);
    assert IsWhitespace(cs[t2 - 1]);
  }

  lemma DashWStep(alphabetic: JChar -> bool, cs: seq<JChar>, lines: seq<VarInfo>, t: int, h: bv32)
    requires BlankReading(DashW, alphabetic, cs, lines, t, h) && t < |cs|
    ensures BlankReading(DashW, alphabetic, cs, DashWNext(cs, lines, t, h).0, DashWNext(cs, lines, t, h).2,
                         DashWNext(cs, lines, t, h).1)
  {
    var u := SkipTo(cs, t);
    BlankExtend(DashW, alphabetic, cs, lines, t, u);
    StripHashBlank(cs, lines[|lines| - 1].offset, t, u);
    var next := DashWNext(cs, lines, t, h);
    TailStep(DashW, alphabetic, cs, lines, u, h, next.0, next.1, next.2);
  }

  /** A whitespace run read after a character that ends no line holds no
      boundary. */
  lemma BlankExtend(kind: SequenceKind, alphabetic: JChar -> bool, cs: seq<JChar>,
                    lines: seq<VarInfo>, t: int, t2: int)
    requires kind == DashB || kind == DashW
    requires Partial(kind, alphabetic, cs, lines, t) && t <= t2 <= |cs|
    requires lines[|lines| - 1].offset < t ==> !IsNewLine(cs[t - 1])
    requires forall p :: t <= p < t2 ==> IsWhitespace(cs[p])
    ensures Partial(kind, alphabetic, cs, lines, t2)
  {
    forall p | t <= p < t2 && lines[|lines| - 1].offset < p
      ensures !Cut(kind, alphabetic, cs, p)
    {
      if p > t {
        assert IsWhitespace(cs[p - 1]);
      }
    }
    ExtendPartial(kind, alphabetic, cs, lines, t, t2);
  }

  /** The -b and -w loads settle on cs[u], and hashing it into h1 folds
      the token so far. */
  lemma TailStep(kind: SequenceKind, alphabetic: JChar -> bool, cs: seq<JChar>,
                 lines: seq<VarInfo>, u: int, h1: bv32, lines': seq<VarInfo>, h': bv32, u': int)
    requires kind == DashB || kind == DashW
    requires Partial(kind, alphabetic, cs, lines, u) && u < |cs|
    requires lines[|lines| - 1].offset < u ==> !IsNewLine(cs[u - 1])
    requires IsWhitespace(cs[u]) ==> kind == DashW && u + 1 == |cs|
    requires TailHash(kind, cs[u], h1) == ClosedHash(kind, cs, lines[|lines| - 1].offset, u + 1)
    requires (lines', h', u') == LineTail(kind, cs, lines, u, h1)
    ensures BlankReading(kind, alphabetic, cs, lines', u', h')
  {
    var ht := TailHash(kind, cs[u], h1);
    AdvancePartial(kind, alphabetic, cs, lines, u);
    if cs[u] == CR && u + 1 < |cs| && cs[u + 1] == LF {
      TailPair(kind, alphabetic, cs, lines, u, ht);
      assert lines' == Stored(lines, ht, u + 2) && u' == u + 2 && h' == 0;
      StoredReading(kind, alphabetic, cs, lines', u');
    } else if u + 1 == |cs| || IsNewLine(cs[u]) {
      StoreClosed(kind, alphabetic, cs, lines, u + 1, ht);
      assert lines' == Stored(lines, ht, u + 1) && u' == u + 1 && h' == 0;
      StoredReading(kind, alphabetic, cs, lines', u');
    } else {
      assert lines' == lines && u' == u + 1 && h' == ht;
    }
  }

  /** Right after a store the -b and -w loads read on with an empty token
      and hash 0. */
  lemma StoredReading(kind: SequenceKind, alphabetic: JChar -> bool, cs: seq<JChar>, lines: seq<VarInfo>, t: int)
    requires kind == DashB || kind == DashW
    requires Partial(kind, alphabetic, cs, lines, t) && t <= |cs| && lines[|lines| - 1].offset == t
    ensures BlankReading(kind, alphabetic, cs, lines, t, 0)
  {
  }

  /** The -b and -w loads store a line that ends in CR LF: the LF adds
      nothing to the fold. */
  lemma TailPair(kind: SequenceKind, alphabetic: JChar -> bool, cs: seq<JChar>,
                 lines: seq<VarInfo>, u: int, h: bv32)
    requires kind == DashB || kind == DashW
    requires Partial(kind, alphabetic, cs, lines, u + 1) && lines[|lines| - 1].offset <= u
    requires 0 <= u && u + 1 < |cs| && cs[u] == CR && cs[u + 1] == LF
    requires h == ClosedHash(kind, cs, lines[|lines| - 1].offset, u + 1)
    ensures Partial(kind, alphabetic, cs, Stored(lines, h, u + 2), u + 2)
  {
    AdvancePartial(kind, alphabetic, cs, lines, u + 1);
    StoreClosed(kind, alphabetic, cs, lines, u + 2, h);
  }

  /** A whitespace run adds nothing to the -b fold... */
  lemma {:induction false} SqueezeHashBlank(cs: seq<JChar>, s: int, t: int, t2: int)
    requires 0 <= s <= t <= t2 <= |cs|
    requires forall p :: t <= p < t2 ==> IsWhitespace(cs[p])
    ensures SqueezeHash(cs, s, t2) == SqueezeHash(cs, s, t)
    decreases t2 - t
  {
    if t < t2 {
      SqueezeHashBlank(cs, s, t, t2 - 1);
    }
  }

  /** ...nor to the -w fold. */
  lemma {:induction false} StripHashBlank(cs: seq<JChar>, s: int, t: int, t2: int)
    requires 0 <= s <= t <= t2 <= |cs|
    requires forall p :: t <= p < t2 ==> IsWhitespace(cs[p])
    ensures StripHash(cs, s, t2) == StripHash(cs, s, t)
    decreases t2 - t
  {
    if t < t2 {
      StripHashBlank(cs, s, t, t2 - 1);
    }
  }
}
