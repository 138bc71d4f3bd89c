/** A file read as a sequence of tokens (lines, words, or runs of one
    character class): the token table a load builds, the queries the
    analysis asks of it, and the content comparisons behind Equal. */
module Sequences {
  import opened JavaTypes
  import opened Flags
  import opened Tokens
  import opened Buffered
  import opened LoadSteps
  import opened Compare

  class Sequence {
    /** The tokenizing policy; it stands for the reader object the source
        picks once from the flags. */
    const kind: SequenceKind
    /** Character.isAlphabetic, which the WClass policy consults. */
    const alphabetic: JChar -> bool
    const readfile: ReadFile
    /** The token table: entry l holds token l's offset and hash, the last
        entry the file's length. */
    var lines: seq<VarInfo>

    /** The file's characters, each byte sign-extended. */
    function Text(): seq<JChar>
    {
      Chars(readfile.data)
    }

    /** The table is the file's token table for the policy. */
    ghost predicate Loaded()
      reads this
    {
      Table(kind, alphabetic, Text(), lines)
    }

    ghost predicate Valid()
      reads this, readfile, readfile.buf
    {
      readfile.Valid() && Loaded()
    }

    /** Open the file, start the table with the sentinel entry and load
        it. */
    constructor (data: seq<byte>, bufSize: int, kind: SequenceKind, alphabetic: JChar -> bool)
      requires bufSize >= 1
      ensures Valid() && readfile.data == data && this.kind == kind && this.alphabetic == alphabetic
      ensures fresh(readfile) && fresh(readfile.buf)
    {
      this.kind := kind;
      this.alphabetic := alphabetic;
      readfile := new ReadFile(data, bufSize);
      lines := [VarInfo(0, 0)];
      new;
      Load();
    }

    /** The open token gets hash h; a new one opens at the cursor. */
    method StoreLine(h: bv32)
      requires |lines| >= 1
      modifies this
      ensures lines == Stored(old(lines), h, readfile.Tell())
    {
      lines := lines[|lines| - 1 := VarInfo(h, lines[|lines| - 1].offset)] + [VarInfo(0, readfile.Tell())];
    }

    method Load()
      requires readfile.Valid() && readfile.Tell() == 0 && lines == [VarInfo(0, 0)]
      modifies this, readfile, readfile.buf
      ensures Valid()
    {
      match kind
      case Line => LoadRaw();
      case Word => LoadRaw();
      case WClass => LoadWClass();
      case DashL => LoadDashL();
      case DashB => LoadDashB();
      case DashW => LoadDashW();
    }

    /** Lines end after each LF (Line) or space (Word); a token hashes all
        its bytes. */
    method LoadRaw()
      requires kind == Line || kind == Word
      requires readfile.Valid() && readfile.Tell() == 0 && lines == [VarInfo(0, 0)]
      modifies this, readfile, readfile.buf
      ensures Valid()
    {
      ghost var cs := Text();
      var h: bv32 := 0;
      var eof := readfile.Eof();
      if eof {
        StartPartial(kind, alphabetic, cs);
        return;
      }
      RawStart(kind, alphabetic, cs);
      while true
        invariant readfile.Valid() && readfile.pos < readfile.len
        invariant RawReading(kind, alphabetic, cs, lines, readfile.Tell(), h)
        decreases |cs| - readfile.Tell()
      {
        ghost var t := readfile.Tell();
        RawStep(kind, alphabetic, cs, lines, t, h);
        h, eof := RawIteration(cs, h);
        if eof {
          break;
        }
      }
    }

    /** One pass of the Line and Word load loops. */
    method RawIteration(ghost cs: seq<JChar>, h: bv32) returns (h': bv32, eof: bool)
      requires kind == Line || kind == Word
      requires readfile.Valid() && readfile.pos < readfile.len && cs == Text() && |lines| >= 1
      modifies this, readfile, readfile.buf
      ensures readfile.Valid() && readfile.Tell() == old(readfile.Tell()) + 1
      ensures !eof ==> readfile.pos < readfile.len
      ensures eof <==> readfile.Tell() == |cs|
      ensures (lines, h') == RawNext(kind, cs, old(lines), old(readfile.Tell()), h)
    {
      ghost var t := readfile.Tell();
      var c;
      c, eof := readfile.Step();
      assert c == cs[t];
      h' := CharHash(h, c);
      if eof {
        StoreLine(h');
      } else if (kind == Line && c == LF) || (kind == Word && c == SPACE) {
        StoreLine(h');
        h' := 0;
      }
    }

    /** Tokens end where the character class changes; a CR LF pair stays
        in one token. The file's last token is stored after the loop. */
    method LoadWClass()
      requires kind == WClass
      requires readfile.Valid() && readfile.Tell() == 0 && lines == [VarInfo(0, 0)]
      modifies this, readfile, readfile.buf
      ensures Valid()
    {
      ghost var cs := Text();
      var h: bv32 := 0;
      var lastcharclass := 0;
      var eof := readfile.Eof();
      if eof {
        StartPartial(kind, alphabetic, cs);
        return;
      }
      hide ClassNext, Table;
      ClassStart(alphabetic, cs);
      ghost var t := 0;
      while !eof
        invariant readfile.Valid() && |cs| > 0 && t == readfile.Tell()
        invariant eof <==> t == |cs|
        invariant !eof ==> readfile.pos < readfile.len
        invariant ClassReading(alphabetic, cs, lines, t, h, lastcharclass)
        decreases |cs| - t
      {
        h, lastcharclass, eof := ClassRound(cs, t, h, lastcharclass);
        t := t + 1;
      }
      ClassFinish(alphabetic, cs, lines, h, lastcharclass);
      StoreLine(h);
    }

    /** One pass of the WClass load loop, with the reading kept. */
    method ClassRound(ghost cs: seq<JChar>, ghost t: int, h: bv32, lastcharclass: int)
      returns (h': bv32, lastcharclass': int, eof: bool)
      requires kind == WClass && readfile.Valid() && readfile.pos < readfile.len && cs == Text()
      requires t == readfile.Tell() && t < |cs| && ClassReading(alphabetic, cs, lines, t, h, lastcharclass)
      modifies this, readfile, readfile.buf
      ensures readfile.Valid() && readfile.Tell() == t + 1
      ensures !eof ==> readfile.pos < readfile.len
      ensures eof <==> t + 1 == |cs|
      ensures ClassReading(alphabetic, cs, lines, t + 1, h', lastcharclass')
    {
      ClassStep(alphabetic, cs, lines, t, h, lastcharclass);
      h', lastcharclass', eof := ClassIteration(cs, h, lastcharclass);
    }

    /** One pass of the WClass load loop. */
    method ClassIteration(ghost cs: seq<JChar>, h: bv32, lastcharclass: int)
      returns (h': bv32, lastcharclass': int, eof: bool)
      requires kind == WClass
      requires readfile.Valid() && readfile.pos < readfile.len && cs == Text() && |lines| >= 1
      requires lastcharclass != 5
      modifies this, readfile, readfile.buf
      ensures readfile.Valid() && readfile.Tell() == old(readfile.Tell()) + 1
      ensures !eof ==> readfile.pos < readfile.len
      ensures eof <==> readfile.Tell() == |cs|
      ensures (lines, h', lastcharclass') == ClassNext(alphabetic, cs, old(lines), old(readfile.Tell()), h, lastcharclass)
    {
      var c := readfile.Char();
      var charclass := CharClass(alphabetic, c);
      h', lastcharclass' := h, lastcharclass;
      if charclass != lastcharclass' {
        if charclass == 5 {
          charclass := 6;
          if lastcharclass' == 1 {
            lastcharclass' := 0;
          }
        }
        if lastcharclass' != 0 {
          StoreLine(h');
          h' := 0;
        }
        lastcharclass' := charclass;
      }
      h' := CharHash(h', c);
      readfile.Next();
      eof := readfile.Eof();
    }

    /** Lines end at LF, CR or CR LF, each hashed as one LF; a last line
        without one is hashed as if it had one. */
    method LoadDashL()
      requires kind == DashL
      requires readfile.Valid() && readfile.Tell() == 0 && lines == [VarInfo(0, 0)]
      modifies this, readfile, readfile.buf
      ensures Valid()
    {
      ghost var cs := Text();
      var h: bv32 := 0;
      DashLStart(alphabetic, cs);
      var eof := readfile.Eof();
      while !eof
        invariant readfile.Valid()
        invariant eof <==> readfile.Tell() == |cs|
        invariant !eof ==> readfile.pos < readfile.len
        invariant DashLReading(alphabetic, cs, lines, readfile.Tell(), h)
        decreases |cs| - readfile.Tell()
      {
        DashLStep(alphabetic, cs, lines, readfile.Tell(), h);
        h, eof := DashLIteration(cs, h);
      }
    }

    /** One pass of the -l load loop. */
    method DashLIteration(ghost cs: seq<JChar>, h: bv32) returns (h': bv32, eof: bool)
      requires kind == DashL
      requires readfile.Valid() && readfile.pos < readfile.len && cs == Text() && |lines| >= 1
      modifies this, readfile, readfile.buf
      ensures readfile.Valid() && old(readfile.Tell()) < readfile.Tell()
      ensures !eof ==> readfile.pos < readfile.len
      ensures eof <==> readfile.Tell() == |cs|
      ensures (lines, h', readfile.Tell()) == DashLNext(cs, old(lines), old(readfile.Tell()), h)
    {
      var c, atEnd := readfile.Step();
      if IsNewLine(c) {
        SkipPairedLF(cs, c, atEnd);
        c := LF;
      }
      h' := CharHash(h, c);
      atEnd := readfile.Eof();
      if atEnd && c != LF {
        h' := CharHash(h', LF);
      }
      h', eof := StoreAtEnd(cs, h', c == LF);
    }

    /** Lines as -l reads them, with every run of spaces and tabs hashed as
        one space, except one that ends the line or the file. */
    method LoadDashB()
      requires kind == DashB
      requires readfile.Valid() && readfile.Tell() == 0 && lines == [VarInfo(0, 0)]
      modifies this, readfile, readfile.buf
      ensures Valid()
    {
      ghost var cs := Text();
      var h: bv32 := 0;
      BlankStart(kind, alphabetic, cs);
      var eof := readfile.Eof();
      ghost var t := 0;
      while !eof
        invariant readfile.Valid() && t == readfile.Tell()
        invariant eof <==> t == |cs|
        invariant !eof ==> readfile.pos < readfile.len
        invariant BlankReading(DashB, alphabetic, cs, lines, t, h)
        decreases |cs| - t
      {
        ghost var lines0, h0 := lines, h;
        var c, atEnd := readfile.Step();
        assert c == cs[t];
        if IsWhitespace(c) {
          h, eof := DashBBlanks(cs, h);
          DashBBlank(alphabetic, cs, lines0, t, h0, lines, h, readfile.Tell());
        } else {
          h, eof := LineEnd(cs, c, atEnd, h);
          DashBPlain(alphabetic, cs, lines0, t, h0, lines, h, readfile.Tell());
        }
        t := readfile.Tell();
      }
    }

    /** The -b pass after a space or tab: skip the rest of the run; at the
        end of the file store the token, otherwise hash one space unless a
        line end follows and finish the pass on the character after the
        run. */
    method DashBBlanks(ghost cs: seq<JChar>, h: bv32) returns (h': bv32, eof: bool)
      requires kind == DashB
      requires readfile.Valid() && cs == Text() && |lines| >= 1
      modifies this, readfile, readfile.buf
      ensures readfile.Valid() && old(readfile.Tell()) <= readfile.Tell()
      ensures !eof ==> readfile.pos < readfile.len
      ensures eof <==> readfile.Tell() == |cs|
      ensures (lines, h', readfile.Tell()) == BlankRun(cs, old(lines), BlankEnd(cs, old(readfile.Tell())), h)
    {
      var c := SPACE;
      var atEnd := SkipBlanks(cs);
      h' := h;
      if atEnd {
        StoreLine(h');
        eof := true;
        return;
      }
      if !IsNewLine(readfile.Char()) {
        h' := CharHash(h', c);
      }
      c, atEnd := readfile.Step();
      h', eof := LineEnd(cs, c, atEnd, h');
    }

    /** The whitespace skip of the -b load. */
    method SkipBlanks(ghost cs: seq<JChar>) returns (eof: bool)
      requires readfile.Valid() && cs == Text()
      modifies readfile, readfile.buf
      ensures readfile.Valid() && readfile.Tell() == BlankEnd(cs, old(readfile.Tell()))
      ensures eof <==> readfile.Tell() == |cs|
      ensures !eof ==> readfile.pos < readfile.len
    {
      ghost var t0 := readfile.Tell();
      eof := readfile.Eof();
      while !eof && IsWhitespace(readfile.Char())
        invariant readfile.Valid() && t0 <= readfile.Tell() <= |cs|
        invariant BlankEnd(cs, readfile.Tell()) == BlankEnd(cs, t0)
        invariant eof <==> readfile.Tell() == |cs|
        invariant !eof ==> readfile.pos < readfile.len
        decreases |cs| - readfile.Tell()
      {
        readfile.Next();
        eof := readfile.Eof();
      }
    }

    /** Lines as -l reads them, with spaces and tabs not hashed at all. */
    method LoadDashW()
      requires kind == DashW
      requires readfile.Valid() && readfile.Tell() == 0 && lines == [VarInfo(0, 0)]
      modifies this, readfile, readfile.buf
      ensures Valid()
    {
      ghost var cs := Text();
      var h: bv32 := 0;
      BlankStart(kind, alphabetic, cs);
      var eof := readfile.Eof();
      while !eof
        invariant readfile.Valid()
        invariant eof <==> readfile.Tell() == |cs|
        invariant !eof ==> readfile.pos < readfile.len
        invariant BlankReading(kind, alphabetic, cs, lines, readfile.Tell(), h)
        decreases |cs| - readfile.Tell()
      {
        DashWStep(alphabetic, cs, lines, readfile.Tell(), h);
        h, eof := DashWIteration(cs, h);
      }
    }

    /** One pass of the -w load loop. */
    method DashWIteration(ghost cs: seq<JChar>, h: bv32) returns (h': bv32, eof: bool)
      requires kind == DashW
      requires readfile.Valid() && readfile.pos < readfile.len && cs == Text() && |lines| >= 1
      modifies this, readfile, readfile.buf
      ensures readfile.Valid() && old(readfile.Tell()) < readfile.Tell()
      ensures !eof ==> readfile.pos < readfile.len
      ensures eof <==> readfile.Tell() == |cs|
      ensures (lines, h', readfile.Tell()) == DashWNext(cs, old(lines), old(readfile.Tell()), h)
    {
      ghost var t0 := readfile.Tell();
      var c, atEnd := readfile.Step();
      while IsWhitespace(c) && !atEnd
        invariant readfile.Valid() && t0 < readfile.Tell() <= |cs|
        invariant c == cs[readfile.Tell() - 1] && SkipTo(cs, readfile.Tell() - 1) == SkipTo(cs, t0)
        invariant atEnd <==> readfile.Tell() == |cs|
        invariant !atEnd ==> readfile.pos < readfile.len
        decreases |cs| - readfile.Tell()
        modifies readfile, readfile.buf
      {
        c, atEnd := readfile.Step();
      }
      h', eof := LineEnd(cs, c, atEnd, h);
    }

    /** The end of a -b or -w pass, on the character c just read: step over
        the LF of a CR LF pair, hash c unless it ends the line (or, for -w,
        is whitespace), and store the line at its end or the file's. */
    method LineEnd(ghost cs: seq<JChar>, c: JChar, atEnd: bool, h: bv32) returns (h': bv32, eof: bool)
      requires kind == DashB || kind == DashW
      requires readfile.Valid() && cs == Text() && |lines| >= 1 && 0 < readfile.Tell()
      requires c == cs[readfile.Tell() - 1]
      requires atEnd <==> readfile.Tell() == |cs|
      requires !atEnd ==> readfile.pos < readfile.len
      modifies this, readfile, readfile.buf
      ensures readfile.Valid() && old(readfile.Tell()) <= readfile.Tell()
      ensures !eof ==> readfile.pos < readfile.len
      ensures eof <==> readfile.Tell() == |cs|
      ensures (lines, h', readfile.Tell()) == LineTail(kind, cs, old(lines), old(readfile.Tell()) - 1, h)
    {
      SkipPairedLF(cs, c, atEnd);
      h' := h;
      if !IsNewLine(c) && (kind == DashB || !IsWhitespace(c)) {
        h' := CharHash(h', c);
      }
      h', eof := StoreAtEnd(cs, h', IsNewLine(c));
    }

    /** After a CR, step over the LF that completes a CR LF pair. */
    method SkipPairedLF(ghost cs: seq<JChar>, c: JChar, atEnd: bool)
      requires readfile.Valid() && cs == Text()
      requires atEnd <==> readfile.Tell() == |cs|
      requires !atEnd ==> readfile.pos < readfile.len
      modifies readfile
      ensures readfile.Valid()
      ensures readfile.Tell() == old(readfile.Tell()) +
        if c == CR && old(readfile.Tell()) < |cs| && cs[old(readfile.Tell())] == LF then 1 else 0
    {
      if !atEnd && c == CR && readfile.Char() == LF {
        readfile.Next();
      }
    }

    /** Store the open token, with hash h, at a line end (ends) or at the
        end of the file; the next token then starts from hash 0. */
    method StoreAtEnd(ghost cs: seq<JChar>, h: bv32, ends: bool) returns (h': bv32, eof: bool)
      requires readfile.Valid() && cs == Text() && |lines| >= 1
      modifies this, readfile, readfile.buf
      ensures readfile.Valid() && readfile.Tell() == old(readfile.Tell())
      ensures !eof ==> readfile.pos < readfile.len
      ensures eof <==> readfile.Tell() == |cs|
      ensures (lines, h') == if eof || ends then (Stored(old(lines), h, readfile.Tell()), 0) else (old(lines), h)
    {
      eof := readfile.Eof();
      h' := h;
      if eof || ends {
        StoreLine(h');
        h' := 0;
      }
    }
    // -------------------------------------------------------------------
    // Queries on the table.

    /** Lines: the number of tokens; the table's last entry only marks the
        end of the file. */
    function Lines(): int
      reads this
    {
      |lines| - 1
    }

    /** Off: where token l starts (for l == Lines(), the file's end);
        offsets rise from 0 to the file's length. */
    function Off(l: int): (o: int)
      reads this
      requires Loaded() && 0 <= l <= Lines()
      ensures 0 <= o <= |Text()|
      ensures l == 0 ==> o == 0
      ensures l == Lines() ==> o == |Text()|
      ensures l < Lines() ==> o < lines[l + 1].offset
    {
      TableBounds(l);
      lines[l].offset
    }

    /** Hash: token l's hash. */
    function Hash(l: int): bv32
      reads this
      requires 0 <= l < |lines|
    {
      lines[l].hash
    }

    /** The offsets of a loaded table run from 0 to the file's length and
        rise strictly from token to token. */
    lemma TableBounds(l: int)
      requires Loaded() && 0 <= l <= Lines()
      ensures Lines() >= 0 && lines[0].offset == 0 && lines[Lines()].offset == |Text()|
      ensures 0 <= lines[l].offset <= |Text()|
      ensures l < Lines() ==> lines[l].offset < lines[l + 1].offset
    {
      assert Before(lines, 0, l);
      assert Before(lines, l, Lines());
      assert Before(lines, l, l + 1);
    }

    /** Token l's characters. */
    function Token(l: int): (t: seq<JChar>)
      reads this
      requires Loaded() && 0 <= l < Lines()
      ensures |t| > 0
    {
      Text()[Off(l)..Off(l + 1)]
    }

    /** All the tokens, in order. */
    function Tokens(): (ts: seq<seq<JChar>>)
      reads this
      requires Loaded()
      ensures |ts| == Lines() && forall l :: 0 <= l < Lines() ==> ts[l] == Token(l)
    {
      seq(Lines(), l reads this requires Loaded() && 0 <= l < Lines() => Token(l))
    }

    /** The token hashes, in order: what the analysis compares first. */
    function Hashes(): (hs: seq<bv32>)
      reads this
      requires |lines| >= 1
      ensures |hs| == Lines() && forall l :: 0 <= l < Lines() ==> hs[l] == Hash(l)
    {
      HashesOf(lines[..|lines| - 1])
    }

    /** The tokens tile the file: tokens 0 .. m - 1 put together are the
        file up to where token m starts, so all Lines() of them make up the
        whole file. */
    lemma {:induction false} TokensTile(m: int)
      requires Loaded() && 0 <= m <= Lines()
      ensures Concat(Tokens()[..m]) == Text()[..Off(m)]
      decreases m
    {
      if m == 0 {
        assert Tokens()[..0] == [];
      } else {
        TokensTile(m - 1);
        var ts := Tokens();
        assert ts[..m][..m - 1] == ts[..m - 1];
        assert Text()[..Off(m)] == Text()[..Off(m - 1)] + Text()[Off(m - 1)..Off(m)];
      }
    }

    /** The characters of tokens l .. m - 1 are those tokens put
        together. */
    lemma Span(l: int, m: int)
      requires Loaded() && 0 <= l <= m <= Lines()
      ensures Off(l) <= Off(m) && Text()[Off(l)..Off(m)] == Concat(Tokens()[l..m])
    {
      OffsetsRise(l, m);
      var ts := Tokens();
      TokensTile(l);
      TokensTile(m);
      assert ts[..m] == ts[..l] + ts[l..m];
      ConcatAppend(ts[..l], ts[l..m]);
      assert Text()[..Off(m)] == Text()[..Off(l)] + Text()[Off(l)..Off(m)];
    }

    /** Length: the number of characters of token l. */
    function Length(l: int): (n: int)
      reads this
      requires Loaded() && 0 <= l < Lines()
      ensures n == |Token(l)| && n > 0
    {
      Off(l + 1) - Off(l)
    }

    /** Length(l, m): the number of characters of tokens l .. m - 1, at
        least one per token. */
    function LengthBetween(l: int, m: int): (n: int)
      reads this
      requires Loaded() && 0 <= l <= m <= Lines()
      ensures n == |Concat(Tokens()[l..m])| && n >= m - l
    {
      OffsetsRise(l, m);
      Off(m) - Off(l)
    }

    /** Off(m) - Off(l) is the length of tokens l .. m - 1, each of which
        has at least one character. */
    lemma {:induction false} OffsetsRise(l: int, m: int)
      requires Loaded() && 0 <= l <= m <= Lines()
      ensures Off(m) - Off(l) == |Concat(Tokens()[l..m])| && Off(m) - Off(l) >= m - l
      decreases m - l
    {
      hide Loaded, Concat, Text;
      if l < m {
        OffsetsRise(l, m - 1);
        var ts := Tokens()[l..m];
        assert ts[..|ts| - 1] == Tokens()[l..m - 1];
        assert ts[|ts| - 1] == Token(m - 1);
        ConcatLast(ts);
        assert |Token(m - 1)| == Off(m) - Off(m - 1) > 0;
      } else {
        ConcatNone();
        assert Tokens()[l..m] == [];
      }
    }

    /** LengthLeft: the characters from the cursor to the end of token l
        (l == -1 ends at the file's start). */
    function LengthLeft(l: int): (n: int)
      reads this, readfile
      requires Loaded() && -1 <= l < Lines()
      ensures 0 <= readfile.Tell() <= Off(l + 1) ==> n == |Text()[readfile.Tell()..Off(l + 1)]|
    {
      Off(l + 1) - readfile.Tell()
    }

    /** SeekLine: put the cursor at the start of token l. */
    method SeekLine(l: int)
      requires Valid() && 0 <= l <= Lines()
      modifies readfile, readfile.buf
      ensures Valid() && readfile.Tell() == Off(l)
    {
      readfile.Seek(Off(l));
    }

    // -------------------------------------------------------------------
    // Equal.

    /** ProbablyEqual: token lA of this file and token lB of b hash the
        same. */
    predicate ProbablyEqual(lA: int, b: Sequence, lB: int)
      reads this, b
      requires 0 <= lA < |lines| && 0 <= lB < |b.lines|
    {
      Hash(lA) == b.Hash(lB)
    }

    /** Two sequences read their files with readers of their own. */
    predicate Apart(b: Sequence)
      reads this, b
    {
      b.readfile != readfile && b.readfile.buf != readfile.buf
    }

    /** Tokens whose hashed characters are the same carry the same hash. */
    lemma SameCharsProbablyEqual(lA: int, b: Sequence, lB: int)
      requires Loaded() && b.Loaded() && b.kind == kind
      requires 0 <= lA < Lines() && 0 <= lB < b.Lines()
      requires Hashed(kind, Token(lA)) == Hashed(kind, b.Token(lB))
      ensures ProbablyEqual(lA, b, lB)
    {
      assert HashedToken(kind, Text(), lines, lA);
      assert HashedToken(kind, b.Text(), b.lines, lB);
    }

    /** Equal: the hashes agree and then the policy's reader confirms it on
        the characters. */
    method Equal(lA: int, b: Sequence, lB: int) returns (r: bool)
      requires Valid() && b.Valid() && Apart(b) && b.kind == kind
      requires 0 <= lA < Lines() && 0 <= lB < b.Lines()
      modifies readfile, readfile.buf, b.readfile, b.readfile.buf
      ensures Valid() && b.Valid()
      ensures r == (ProbablyEqual(lA, b, lB) && SameToken(kind, Token(lA), b.Token(lB)))
    {
      if !ProbablyEqual(lA, b, lB) {
        return false;
      }
      match kind
      case DashL =>
        r := DashLEqual(lA, b, lB);
      case DashB =>
        r := BlankEqual(lA, b, lB);
      case DashW =>
        r := WhiteEqual(lA, b, lB);
      case _ =>
        r := BytesEqual(lA, b, lB);
    }

    /** Except under -l, Equal holds exactly when the two tokens hash the
        same characters: what the hash tells apart is never Equal, and two
        tokens the policy reads alike are always Equal. */
    lemma EqualIffSameChars(lA: int, b: Sequence, lB: int)
      requires Loaded() && b.Loaded() && b.kind == kind && kind != DashL
      requires 0 <= lA < Lines() && 0 <= lB < b.Lines()
      ensures ProbablyEqual(lA, b, lB) && SameToken(kind, Token(lA), b.Token(lB))
          <==> Hashed(kind, Token(lA)) == Hashed(kind, b.Token(lB))
    {
      if kind == DashB || kind == DashW {
        TokenShaped(kind, alphabetic, Text(), lines, lA);
        TokenShaped(kind, b.alphabetic, b.Text(), b.lines, lB);
      }
      SameTokenIff(kind, Token(lA), b.Token(lB));
      if Hashed(kind, Token(lA)) == Hashed(kind, b.Token(lB)) {
        SameCharsProbablyEqual(lA, b, lB);
      }
    }

    /** Under -l, two lines that agree up to their line ends (CR, LF and
        CR LF alike, or none on a last line) are Equal. */
    lemma EqualAcceptsSameLines(lA: int, b: Sequence, lB: int)
      requires Loaded() && b.Loaded() && b.kind == kind && kind == DashL
      requires 0 <= lA < Lines() && 0 <= lB < b.Lines()
      requires LineEndsEqual(Token(lA), b.Token(lB))
      ensures ProbablyEqual(lA, b, lB) && SameToken(kind, Token(lA), b.Token(lB))
    {
      TokenShaped(kind, alphabetic, Text(), lines, lA);
      TokenShaped(kind, b.alphabetic, b.Text(), b.lines, lB);
      LineEndsEqualHashed(Token(lA), b.Token(lB));
      DashLWalkAcceptsIntended(Token(lA), b.Token(lB));
      SameCharsProbablyEqual(lA, b, lB);
    }

    /** Under -l, lines whose lengths are more than one character apart
        are never Equal: a CR LF against an LF is the only difference in
        length the comparison allows. */
    lemma DashLLengthsApart(lA: int, b: Sequence, lB: int)
      requires Loaded() && b.Loaded() && kind == DashL
      requires 0 <= lA < Lines() && 0 <= lB < b.Lines()
      requires Length(lA) > b.Length(lB) + 1 || Length(lA) + 1 < b.Length(lB)
      ensures !SameToken(kind, Token(lA), b.Token(lB))
    {
    }

    /** The Line, Word and WClass readers' Equal: equal lengths, then the
        same bytes. */
    method BytesEqual(lA: int, b: Sequence, lB: int) returns (r: bool)
      requires Valid() && b.Valid() && Apart(b)
      requires 0 <= lA < Lines() && 0 <= lB < b.Lines()
      modifies readfile, readfile.buf, b.readfile, b.readfile.buf
      ensures Valid() && b.Valid()
      ensures r == (Token(lA) == b.Token(lB))
    {
      ghost var A, B := Token(lA), b.Token(lB);
      ghost var s, t := Off(lA), b.Off(lB);
      var n := Length(lA);
      if n != b.Length(lB) {
        return false;
      }
      assert A == Text()[s..s + n] && B == b.Text()[t..t + n];
      SeekLine(lA);
      b.SeekLine(lB);
      r := SameBytes(readfile, b.readfile, n, s, t);
    }

    /** Memcmp of n bytes at the two cursors, with n bytes left on both
        sides, finds them equal exactly when their characters are. */
    static method SameBytes(f: ReadFile, g: ReadFile, n: int, ghost s: int, ghost t: int) returns (r: bool)
      requires f.Valid() && g.Valid() && f != g && f.buf != g.buf && n > 0
      requires s == f.Tell() && t == g.Tell() && s + n <= |f.data| && t + n <= |g.data|
      modifies f, f.buf, g, g.buf
      ensures f.Valid() && g.Valid()
      ensures r == (Chars(f.data)[s..s + n] == Chars(g.data)[t..t + n])
    {
      SlicesSameChars(f.data, g.data, s, t, n);
      var x := f.Memcmp(g, n);
      r := x == 0;
      ComparedZero(f.data, g.data, s, t, n, x);
    }

    /** The -l reader's Equal, as written: the walk DashLWalk describes. */
    method DashLEqual(lA: int, b: Sequence, lB: int) returns (r: bool)
      requires Valid() && b.Valid() && Apart(b)
      requires 0 <= lA < Lines() && 0 <= lB < b.Lines()
      modifies readfile, readfile.buf, b.readfile, b.readfile.buf
      ensures Valid() && b.Valid()
      ensures r == DashLWalk(Token(lA), b.Token(lB))
    {
      var la, lb := Length(lA), b.Length(lB);
      if la > lb + 1 || la + 1 < lb {
        return false;
      }
      SeekLine(lA);
      b.SeekLine(lB);
      r := LineWalk(readfile, b.readfile, Token(lA), b.Token(lB));
    }

    /** The -b reader's Equal: the walk BlankWalk describes. */
    method BlankEqual(lA: int, b: Sequence, lB: int) returns (r: bool)
      requires Valid() && b.Valid() && Apart(b)
      requires 0 <= lA < Lines() && 0 <= lB < b.Lines()
      modifies readfile, readfile.buf, b.readfile, b.readfile.buf
      ensures Valid() && b.Valid()
      ensures r == BlankWalk(Token(lA), b.Token(lB), 0, 0)
    {
      SeekLine(lA);
      b.SeekLine(lB);
      r := BlankWalker(readfile, b.readfile, Token(lA), b.Token(lB));
    }

    /** The -w reader's Equal: the walk WhiteWalk describes. */
    method WhiteEqual(lA: int, b: Sequence, lB: int) returns (r: bool)
      requires Valid() && b.Valid() && Apart(b)
      requires 0 <= lA < Lines() && 0 <= lB < b.Lines()
      modifies readfile, readfile.buf, b.readfile, b.readfile.buf
      ensures Valid() && b.Valid()
      ensures r == WhiteWalk(Token(lA), b.Token(lB), 0, 0)
    {
      SeekLine(lA);
      b.SeekLine(lB);
      r := WhiteWalker(readfile, b.readfile, Token(lA), b.Token(lB));
    }

    // -------------------------------------------------------------------
    // Copying tokens out.

    /** The last token a copy up to m may reach: m, but no further than
        the file's last token. */
    function Clamp(m: int): int
      reads this
    {
      if Lines() < m then Lines() else m
    }

    /** CopyLines: copy the characters from the cursor to the end of token
        Clamp(m) - 1, at most `length` of them, into dst; l becomes
        Clamp(m) once the cursor has reached that end. */
    method CopyLines(l: int, m: int, dst: array<byte>, length: int, ghost t: int) returns (l': int, n: int)
      requires Valid() && 0 <= m && dst != readfile.buf && t == readfile.Tell()
      requires Min(length, Off(Clamp(m)) - t) <= dst.Length
      modifies readfile, readfile.buf, dst
      ensures Valid()
      ensures n == CopyCount(Min(length, Off(Clamp(m)) - t), |Text()| - t)
      ensures readfile.Tell() == t + Max0(n)
      ensures dst[..Max0(n)] == readfile.data[t..readfile.Tell()]
      ensures Min(length, Off(Clamp(m)) - t) == 0 ==> dst[..] == old(dst[..])
      ensures l' == if Off(Clamp(m)) == readfile.Tell() then Clamp(m) else l
    {
      var m' := m;
      if Lines() < m' {
        m' := Lines();
      }
      n := readfile.Textcpy(dst, length, LengthLeft(m' - 1));
      l' := l;
      if LengthLeft(m' - 1) == 0 {
        l' := m';
      }
    }

    /** Dump: write the characters from the cursor to the end of token
        Clamp(m) - 1, through a buffer of 1024; l ends at Clamp(m), and the
        result says whether what was written is empty or ends in LF. */
    method Dump(l: int, m: int) returns (l': int, written: seq<JChar>, lineEnd: bool)
      requires Valid() && 0 <= m && readfile.Tell() <= Off(Clamp(m))
      modifies readfile, readfile.buf
      ensures Valid() && readfile.Tell() == Off(Clamp(m)) && l' == Clamp(m)
      ensures written == Text()[old(readfile.Tell())..Off(Clamp(m))]
      ensures lineEnd <==> written == [] || written[|written| - 1] == LF
    {
      ghost var t0 := readfile.Tell();
      ghost var end := Off(Clamp(m));
      var buf := new byte[1024];
      written := [];
      var llen := 0;
      l' := l;
      while true
        invariant Valid() && t0 <= readfile.Tell() <= end && fresh(buf) && buf.Length == 1024
        invariant written == Text()[t0..readfile.Tell()]
        invariant 0 <= llen <= 1024 && (llen == 0 <==> written == [])
        invariant llen > 0 ==> ToChar(buf[llen - 1]) == written[|written| - 1]
        decreases end - readfile.Tell()
      {
        var len, piece;
        ghost var t := readfile.Tell();
        l', len, piece := DumpPiece(l', m, buf);
        if len == 0 {
          break;
        }
        SliceJoin(Text(), t0, t, readfile.Tell());
        written := written + piece;
        llen := len;
      }
      lineEnd := llen <= 0 || buf[llen - 1] == LF_BYTE;
    }

    /** One round of Dump's loop: at most 1024 characters copied into buf,
        and what they are. */
    method DumpPiece(l: int, m: int, buf: array<byte>) returns (l': int, len: int, piece: seq<JChar>)
      requires Valid() && 0 <= m && buf != readfile.buf && buf.Length == 1024 && readfile.Tell() <= Off(Clamp(m))
      modifies readfile, readfile.buf, buf
      ensures Valid() && old(readfile.Tell()) <= readfile.Tell() <= Off(Clamp(m))
      ensures 0 <= len <= 1024 && |piece| == len && piece == Text()[old(readfile.Tell())..readfile.Tell()]
      ensures len == 0 ==> readfile.Tell() == Off(Clamp(m)) && l' == Clamp(m) && buf[..] == old(buf[..])
      ensures len > 0 ==> old(readfile.Tell()) < readfile.Tell() && piece != [] && ToChar(buf[len - 1]) == piece[|piece| - 1]
    {
      ghost var t := readfile.Tell();
      l', len := CopyLines(l, m, buf, 1024, t);
      ghost var u := readfile.Tell();
      if len == 0 {
        piece := [];
        return;
      }
      assert buf[..len] == readfile.data[t..u];
      CharsSlice(readfile.data, t, u);
      piece := Chars(buf[..len]);
      assert ToChar(buf[len - 1]) == piece[|piece| - 1];
    }

    /** Dumping one token from its start writes exactly that token. */
    lemma DumpsToken(l: int)
      requires Loaded() && 0 <= l < Lines()
      ensures Clamp(l + 1) == l + 1 && Text()[Off(l)..Off(Clamp(l + 1))] == Token(l)
    {
    }
  }

  lemma SliceJoin<T>(x: seq<T>, a: int, b: int, c: int)
    requires 0 <= a <= b <= c <= |x|
    ensures x[a..c] == x[a..b] + x[b..c]
  {
  }

  /** The tokens put together, in order. */
  function Concat(ts: seq<seq<JChar>>): seq<JChar>
  {
    if ts == [] then [] else Concat(ts[..|ts| - 1]) + ts[|ts| - 1]
  }

  lemma ConcatLast(ts: seq<seq<JChar>>)
    requires ts != []
    ensures Concat(ts) == Concat(ts[..|ts| - 1]) + ts[|ts| - 1]
  {
  }

  lemma ConcatNone()
    ensures Concat([]) == []
  {
  }

  /** Tokens put together in two parts give the parts put together. */
  lemma {:induction false} ConcatAppend(p: seq<seq<JChar>>, q: seq<seq<JChar>>)
    ensures Concat(p + q) == Concat(p) + Concat(q)
    decreases |q|
  {
    if q == [] {
      assert p + q == p;
    } else {
      var front, last := q[..|q| - 1], q[|q| - 1];
      ConcatAppend(p, front);
      assert (p + q)[..|p + q| - 1] == p + front && (p + q)[|p + q| - 1] == last;
      calc {
        Concat(p + q);
        Concat(p + front) + last;
        (Concat(p) + Concat(front)) + last;
        Concat(p) + (Concat(front) + last);
        Concat(p) + Concat(q);
      }
    }
  }

  /** The hashes of the table entries. */
  function HashesOf(vs: seq<VarInfo>): (hs: seq<bv32>)
    ensures |hs| == |vs| && forall i :: 0 <= i < |vs| ==> hs[i] == vs[i].hash
  {
    seq(|vs|, i requires 0 <= i < |vs| => vs[i].hash)
  }

  /** Memcmp over n bytes at s and t, n at most what both sides have
      left, reports 0 exactly when those n bytes agree. */
  lemma ComparedZero(a: seq<byte>, b: seq<byte>, s: int, t: int, n: int, x: int)
    requires 0 <= s && s + n <= |a| && 0 <= t && t + n <= |b| && n > 0
    requires Compared(a[s..], b[t..], n, x)
    ensures x == 0 <==> a[s..s + n] == b[t..t + n]
  {
    assert CopyCount(n, Min(|a[s..]|, |b[t..]|)) == n;
    assert a[s..][..n] == a[s..s + n] && b[t..][..n] == b[t..t + n];
  }

  /** Two byte slices are the same exactly when their characters are. */
  lemma SlicesSameChars(a: seq<byte>, b: seq<byte>, s: int, t: int, n: int)
    requires 0 <= s && 0 <= n && s + n <= |a| && 0 <= t && t + n <= |b|
    ensures (Chars(a)[s..s + n] == Chars(b)[t..t + n]) == (a[s..s + n] == b[t..t + n])
  {
    CharsSlice(a, s, s + n);
    CharsSlice(b, t, t + n);
    SameChars(a[s..s + n], b[t..t + n]);
  }

  /** Byte runs with the same characters are the same bytes. */
  lemma SameChars(u: seq<byte>, v: seq<byte>)
    requires |u| == |v|
    ensures Chars(u) == Chars(v) <==> u == v
  {
    if Chars(u) == Chars(v) {
      forall k | 0 <= k < |u|
        ensures u[k] == v[k]
      {
        assert Chars(u)[k] == Chars(v)[k];
        ToCharInjective(u[k], v[k]);
      }
    }
  }

  /** A walk that agreed on the first k pairs and then stopped at the end
      of either side or at a differing pair found the common prefix. */
  lemma {:induction false} CommonFromIs(A: seq<JChar>, B: seq<JChar>, k: int, p: int)
    requires 0 <= p <= k <= |A| && k <= |B|
    requires forall q :: p <= q < k ==> A[q] == B[q]
    requires k == |A| || k == |B| || A[k] != B[k]
    ensures CommonFrom(A, B, p) == k
    decreases k - p
  {
    if p < k {
      CommonFromIs(A, B, k, p + 1);
    }
  }

  // ---------------------------------------------------------------------
  // The readers' walks over two cursors.

  /** The characters of data from s on start with A. */
  predicate At(data: seq<byte>, s: int, A: seq<JChar>)
  {
    0 <= s && s + |A| <= |data| && Chars(data)[s..s + |A|] == A
  }

  /** Two readers that share neither themselves nor their buffers, each
      valid and at the start of its token. */
  ghost predicate Facing(f: ReadFile, g: ReadFile, A: seq<JChar>, B: seq<JChar>)
    reads f, f.buf, g, g.buf
  {
    && f.Valid() && g.Valid() && f != g && f.buf != g.buf
    && At(f.data, f.Tell(), A) && At(g.data, g.Tell(), B)
  }

  /** Get at position k of A: the character there, the cursor past it. */
  method ReadAt(f: ReadFile, ghost s: int, ghost A: seq<JChar>, ghost k: int) returns (c: JChar)
    requires f.Valid() && At(f.data, s, A) && 0 <= k < |A| && f.Tell() == s + k
    modifies f, f.buf
    ensures f.Valid() && f.Tell() == s + k + 1 && c == A[k]
  {
    c := f.Get();
    assert c == Chars(f.data)[s..s + |A|][k];
  }

  /** The loop of the -l walk: read both tokens while they agree. It
      stops after the common prefix k, at a differing pair (read already)
      or where either side is used up (the last pair read in ca, cb). */
  method CommonWalk(f: ReadFile, g: ReadFile, ghost s: int, ghost t: int, A: seq<JChar>, B: seq<JChar>)
    returns (la: int, lb: int, ca: JChar, cb: JChar, ghost k: int)
    requires Facing(f, g, A, B) && f.Tell() == s && g.Tell() == t
    modifies f, f.buf, g, g.buf
    ensures f.Valid() && g.Valid() && k == CommonFrom(A, B, 0) && la == |A| - k && lb == |B| - k
    ensures k < |A| && k < |B| ==> ca == A[k] && cb == B[k]
    ensures !(k < |A| && k < |B|) ==> f.Tell() == s + k && g.Tell() == t + k
    ensures !(k < |A| && k < |B|) ==> ca == (if k > 0 then A[k - 1] else 0) && cb == (if k > 0 then B[k - 1] else 0)
  {
    la, lb := |A|, |B|;
    ca, cb := 0, 0;
    k := 0;
    while la != 0 && lb != 0
      invariant f.Valid() && g.Valid()
      invariant 0 <= k <= |A| && k <= |B| && la == |A| - k && lb == |B| - k
      invariant f.Tell() == s + k && g.Tell() == t + k
      invariant forall p :: 0 <= p < k ==> A[p] == B[p]
      invariant ca == (if k > 0 then A[k - 1] else 0) && cb == (if k > 0 then B[k - 1] else 0)
      decreases la
    {
      ca := ReadAt(f, s, A, k);
      cb := ReadAt(g, t, B, k);
      if ca != cb {
        break;
      }
      la, lb, k := la - 1, lb - 1, k + 1;
    }
    CommonFromIs(A, B, k, 0);
  }

  /** The -l walk over the two cursors: read both tokens while they agree,
      then apply the source's end-of-line tests. */
  method LineWalk(f: ReadFile, g: ReadFile, A: seq<JChar>, B: seq<JChar>) returns (r: bool)
    requires Facing(f, g, A, B) && |A| <= |B| + 1 && |B| <= |A| + 1
    modifies f, f.buf, g, g.buf
    ensures f.Valid() && g.Valid()
    ensures r == DashLWalk(A, B)
  {
    ghost var s, t := f.Tell(), g.Tell();
    var la, lb, ca, cb, k := CommonWalk(f, g, s, t, A, B);
    if la == 0 && lb == 1 {
      var c := ReadAt(g, t, B, k);
      if IsNewLine(c) {
        return true;
      }
    } else if lb == 0 && la == 1 {
      var c := ReadAt(f, s, A, k);
      if IsNewLine(c) {
        return true;
      }
    }
    r := !((la != 0 || lb != 0) && !IsNewLine(ca) && !IsNewLine(cb));
  }

  /** The state of a -b or -w walk over A, which starts at s in f's data:
      la characters are left, position i is the one in ca (read already,
      unless none are left). */
  ghost predicate Reading(f: ReadFile, s: int, A: seq<JChar>, i: int, la: int, ca: JChar)
    reads f, f.buf
  {
    && f.Valid() && At(f.data, s, A) && 0 <= i <= |A| && la == |A| - i
    && (la != 0 ==> ca == A[i])
    && f.Tell() == s + (if la != 0 then i + 1 else i)
  }

  /** Start a walk over A at the cursor: its first character read. */
  method StartWalk(f: ReadFile, ghost s: int, A: seq<JChar>) returns (la: int, ca: JChar)
    requires f.Valid() && At(f.data, s, A) && f.Tell() == s
    modifies f, f.buf
    ensures Reading(f, s, A, 0, la, ca)
  {
    la := |A|;
    ca := 0;
    if la != 0 {
      ca := ReadAt(f, s, A, 0);
    }
  }

  /** Step over the character in ca: count it off, and read the next one
      while any are left. */
  method StepWalk(f: ReadFile, ghost s: int, ghost A: seq<JChar>, la: int, ca: JChar, ghost i: int)
    returns (la': int, ca': JChar, ghost i': int)
    requires Reading(f, s, A, i, la, ca) && la != 0
    modifies f, f.buf
    ensures Reading(f, s, A, i', la', ca') && i' == i + 1
  {
    la', ca', i' := la - 1, ca, i + 1;
    if la' != 0 {
      ca' := ReadAt(f, s, A, i');
    }
  }

  /** The whitespace skip of the -b and -w walks: step over spaces and
      tabs while any characters are left. */
  method SkipWhite(f: ReadFile, ghost s: int, ghost A: seq<JChar>, la: int, ca: JChar, ghost i: int)
    returns (la': int, ca': JChar, ghost i': int)
    requires Reading(f, s, A, i, la, ca)
    modifies f, f.buf
    ensures Reading(f, s, A, i', la', ca') && i' == BlankEnd(A, i)
  {
    la', ca', i' := la, ca, i;
    while la' != 0 && IsWhitespace(ca')
      invariant Reading(f, s, A, i', la', ca') && i <= i'
      invariant BlankEnd(A, i') == BlankEnd(A, i)
      decreases la'
    {
      la', ca', i' := StepWalk(f, s, A, la', ca', i');
    }
  }

  /** The closing skip of the -b and -w walks: step over whitespace and
      line ends; nothing is left afterwards exactly when the rest of A was
      trailing. */
  method SkipTrailing(f: ReadFile, ghost s: int, ghost A: seq<JChar>, la: int, ca: JChar, ghost i: int)
    returns (la': int)
    requires Reading(f, s, A, i, la, ca)
    modifies f, f.buf
    ensures f.Valid() && (la' == 0 <==> Trailing(A, i))
  {
    la' := la;
    var ca' := ca;
    ghost var i' := i;
    while la' != 0 && !Real(ca')
      invariant Reading(f, s, A, i', la', ca') && i <= i'
      invariant Trailing(A, i') == Trailing(A, i)
      decreases la'
    {
      la', ca', i' := StepWalk(f, s, A, la', ca', i');
    }
  }

  /** The -b walk over the two cursors. */
  method BlankWalker(f: ReadFile, g: ReadFile, A: seq<JChar>, B: seq<JChar>) returns (r: bool)
    requires Facing(f, g, A, B)
    modifies f, f.buf, g, g.buf
    ensures f.Valid() && g.Valid()
    ensures r == BlankWalk(A, B, 0, 0)
  {
    ghost var s, t := f.Tell(), g.Tell();
    ghost var goal := BlankWalk(A, B, 0, 0);
    var la, ca := StartWalk(f, s, A);
    var lb, cb := StartWalk(g, t, B);
    ghost var i, j := 0, 0;
    var stop := false;
    while la != 0 && lb != 0 && !stop
      invariant Reading(f, s, A, i, la, ca) && Reading(g, t, B, j, lb, cb) && f != g && f.buf != g.buf
      invariant goal == if stop then Trailing(A, i) && Trailing(B, j) else BlankWalk(A, B, i, j)
      decreases la + (if stop then 0 else 1)
    {
      BlankWalkRounds(A, B, i, j);
      la, ca, i, lb, cb, j, stop := BlankRound(f, g, s, t, A, B, la, ca, i, lb, cb, j);
    }
    la := SkipTrailing(f, s, A, la, ca, i);
    lb := SkipTrailing(g, t, B, lb, cb, j);
    r := la == 0 && lb == 0;
  }

  /** One round of the -b walk's loop: where both sides show whitespace or
      a line end, skip the whitespace on both; stop at the end of either
      side or at a differing pair, otherwise step past the pair. */
  method BlankRound(f: ReadFile, g: ReadFile, ghost s: int, ghost t: int, ghost A: seq<JChar>, ghost B: seq<JChar>,
                    la: int, ca: JChar, ghost i: int, lb: int, cb: JChar, ghost j: int)
    returns (la': int, ca': JChar, ghost i': int, lb': int, cb': JChar, ghost j': int, stop: bool)
    requires Reading(f, s, A, i, la, ca) && Reading(g, t, B, j, lb, cb) && f != g && f.buf != g.buf
    requires la != 0 && lb != 0
    modifies f, f.buf, g, g.buf
    ensures Reading(f, s, A, i', la', ca') && Reading(g, t, B, j', lb', cb')
    ensures (i', j', stop) == BlankStep(A, B, i, j)
  {
    la', ca', i', lb', cb', j' := la, ca, i, lb, cb, j;
    if !Real(ca) && !Real(cb) {
      la', ca', i', lb', cb', j' := SkipBoth(f, g, s, t, A, B, la, ca, i, lb, cb, j);
    }
    stop := la' == 0 || lb' == 0 || ca' != cb';
    if !stop {
      la', ca', i', lb', cb', j' := StepBoth(f, g, s, t, A, B, la', ca', i', lb', cb', j');
    }
  }

  /** The whitespace skip on both sides of a walk. */
  method SkipBoth(f: ReadFile, g: ReadFile, ghost s: int, ghost t: int, ghost A: seq<JChar>, ghost B: seq<JChar>,
                  la: int, ca: JChar, ghost i: int, lb: int, cb: JChar, ghost j: int)
    returns (la': int, ca': JChar, ghost i': int, lb': int, cb': JChar, ghost j': int)
    requires Reading(f, s, A, i, la, ca) && Reading(g, t, B, j, lb, cb) && f != g && f.buf != g.buf
    modifies f, f.buf, g, g.buf
    ensures Reading(f, s, A, i', la', ca') && Reading(g, t, B, j', lb', cb')
    ensures i' == BlankEnd(A, i) && j' == BlankEnd(B, j)
  {
    la', ca', i' := SkipWhite(f, s, A, la, ca, i);
    lb', cb', j' := SkipWhite(g, t, B, lb, cb, j);
  }

  /** A step past the current pair on both sides of a walk. */
  method StepBoth(f: ReadFile, g: ReadFile, ghost s: int, ghost t: int, ghost A: seq<JChar>, ghost B: seq<JChar>,
                  la: int, ca: JChar, ghost i: int, lb: int, cb: JChar, ghost j: int)
    returns (la': int, ca': JChar, ghost i': int, lb': int, cb': JChar, ghost j': int)
    requires Reading(f, s, A, i, la, ca) && Reading(g, t, B, j, lb, cb) && f != g && f.buf != g.buf
    requires la != 0 && lb != 0
    modifies f, f.buf, g, g.buf
    ensures Reading(f, s, A, i', la', ca') && Reading(g, t, B, j', lb', cb')
    ensures i' == i + 1 && j' == j + 1
  {
    la', ca', i' := StepWalk(f, s, A, la, ca, i);
    lb', cb', j' := StepWalk(g, t, B, lb, cb, j);
  }

  /** The -w walk over the two cursors. */
  method WhiteWalker(f: ReadFile, g: ReadFile, A: seq<JChar>, B: seq<JChar>) returns (r: bool)
    requires Facing(f, g, A, B)
    modifies f, f.buf, g, g.buf
    ensures f.Valid() && g.Valid()
    ensures r == WhiteWalk(A, B, 0, 0)
  {
    ghost var s, t := f.Tell(), g.Tell();
    ghost var goal := WhiteWalk(A, B, 0, 0);
    var la, ca := StartWalk(f, s, A);
    var lb, cb := StartWalk(g, t, B);
    ghost var i, j := 0, 0;
    var stop := false;
    while la != 0 && lb != 0 && !stop
      invariant Reading(f, s, A, i, la, ca) && Reading(g, t, B, j, lb, cb) && f != g && f.buf != g.buf
      invariant goal == if stop then Trailing(A, i) && Trailing(B, j) else WhiteWalk(A, B, i, j)
      decreases la + (if stop then 0 else 1)
    {
      WhiteWalkRounds(A, B, i, j);
      la, ca, i, lb, cb, j, stop := WhiteRound(f, g, s, t, A, B, la, ca, i, lb, cb, j);
    }
    la := SkipTrailing(f, s, A, la, ca, i);
    lb := SkipTrailing(g, t, B, lb, cb, j);
    r := la == 0 && lb == 0;
  }

  /** One round of the -w walk's loop: skip the whitespace on both sides;
      stop at the end of either side or at a differing pair, otherwise
      step past the pair. */
  method WhiteRound(f: ReadFile, g: ReadFile, ghost s: int, ghost t: int, ghost A: seq<JChar>, ghost B: seq<JChar>,
                    la: int, ca: JChar, ghost i: int, lb: int, cb: JChar, ghost j: int)
    returns (la': int, ca': JChar, ghost i': int, lb': int, cb': JChar, ghost j': int, stop: bool)
    requires Reading(f, s, A, i, la, ca) && Reading(g, t, B, j, lb, cb) && f != g && f.buf != g.buf
    requires la != 0 && lb != 0
    modifies f, f.buf, g, g.buf
    ensures Reading(f, s, A, i', la', ca') && Reading(g, t, B, j', lb', cb')
    ensures (i', j', stop) == WhiteStep(A, B, i, j)
  {
    la', ca', i', lb', cb', j' := SkipBoth(f, g, s, t, A, B, la, ca, i, lb, cb, j);
    stop := la' == 0 || lb' == 0 || ca' != cb';
    if !stop {
      la', ca', i', lb', cb', j' := StepBoth(f, g, s, t, A, B, la', ca', i', lb', cb', j');
    }
  }

  /** One round of the -b walk from A[i] and B[j]: where it stands next,
      and whether it stops there. */
  function BlankStep(A: seq<JChar>, B: seq<JChar>, i: int, j: int): (r: (int, int, bool))
    requires 0 <= i < |A| && 0 <= j < |B|
    ensures i <= r.0 <= |A| && j <= r.1 <= |B| && (!r.2 ==> i < r.0)
  {
    var (i', j') := if !Real(A[i]) && !Real(B[j]) then (BlankEnd(A, i), BlankEnd(B, j)) else (i, j);
    if i' == |A| || j' == |B| || A[i'] != B[j'] then (i', j', true) else (i' + 1, j' + 1, false)
  }

  /** One round of the -w walk from A[i] and B[j]. */
  function WhiteStep(A: seq<JChar>, B: seq<JChar>, i: int, j: int): (r: (int, int, bool))
    requires 0 <= i < |A| && 0 <= j < |B|
    ensures i <= r.0 <= |A| && j <= r.1 <= |B| && (!r.2 ==> i < r.0)
  {
    var (i', j') := (BlankEnd(A, i), BlankEnd(B, j));
    if i' == |A| || j' == |B| || A[i'] != B[j'] then (i', j', true) else (i' + 1, j' + 1, false)
  }

  /** The -b walk is its rounds: where a round stops, the rest of both
      sides decides; otherwise the walk goes on from where it stands. */
  lemma BlankWalkRounds(A: seq<JChar>, B: seq<JChar>, i: int, j: int)
    requires 0 <= i < |A| && 0 <= j < |B|
    ensures var (i', j', stop) := BlankStep(A, B, i, j);
      BlankWalk(A, B, i, j) == if stop then Trailing(A, i') && Trailing(B, j') else BlankWalk(A, B, i', j')
  {
  }

  /** The -w walk is its rounds. */
  lemma WhiteWalkRounds(A: seq<JChar>, B: seq<JChar>, i: int, j: int)
    requires 0 <= i < |A| && 0 <= j < |B|
    ensures var (i', j', stop) := WhiteStep(A, B, i, j);
      WhiteWalk(A, B, i, j) == if stop then Trailing(A, i') && Trailing(B, j') else WhiteWalk(A, B, i', j')
  {
  }
}
