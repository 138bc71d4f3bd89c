/** The buffered reader a Sequence scans its file with. The file's content is
    a fixed byte sequence; the reader holds a window of it in a buffer and a
    cursor inside the window, and refills the window a buffer at a time. */
module Buffered {
  import opened JavaTypes

  /** The result of a bounded copy: a non-negative length asks for that
      many bytes, as many as are left; a negative length is handed back
      unchanged when there is input left, and 0 at the end of input. */
  function CopyCount(length: int, left: int): (r: int)
    requires left >= 0
    ensures length >= 0 ==> 0 <= r <= length && r <= left && (r == length || r == left)
    ensures length < 0 ==> r <= 0
  {
    if length < 0 then (if left > 0 then length else 0)
    else if length < left then length else left
  }

  function Min(x: int, y: int): int
  {
    if x < y then x else y
  }

  class ReadFile {
    /** The file's content, as the underlying stream delivers it. */
    const data: seq<byte>
    /** The memory window; its first len bytes are the file bytes just
        before offset. */
    const buf: array<byte>
    var pos: int
    var len: int
    var size: int
    var offset: int

    /** What holds between reads: the stream has delivered `offset` bytes. */
    ghost predicate Stream()
      reads this
    {
      buf.Length >= 1 && 0 <= offset <= size <= |data|
    }

    ghost predicate Valid()
      reads this, buf
    {
      && Stream()
      && 0 <= pos <= len <= buf.Length && len <= offset
      && offset <= |data|
      && (forall k :: 0 <= k < len ==> buf[k] == data[offset - len + k])
    }

    /** Open: a buffer of bufSize bytes and a stream at the file's start. */
    constructor (data: seq<byte>, bufSize: int)
      requires bufSize >= 1
      ensures this.data == data && Valid() && Tell() == 0 && fresh(buf)
    {
      this.data := data;
      buf := new byte[bufSize];
      pos, len, size, offset := 0, 0, 0, 0;
    }

    /** Tell: the file offset of the cursor. */
    function Tell(): int
      reads this
    {
      offset - len + pos
    }

    /** Char: the byte under the cursor, as a (sign-extended) char. */
    function Char(): (c: JChar)
      reads this, buf
      requires Valid() && pos < len
      ensures c == ToChar(data[Tell()])
    {
      ToChar(buf[pos])
    }

    /** Next: step the cursor over the byte under it. */
    method Next()
      requires Valid() && pos < len
      modifies this
      ensures Valid() && Tell() == old(Tell()) + 1
    {
      pos := pos + 1;
    }

    /** The cursor steps over m bytes of the window. */
    method Advance(m: int)
      requires Valid() && 0 <= m <= len - pos
      modifies this
      ensures Valid() && Tell() == old(Tell()) + m && pos == old(pos) + m
      ensures len == old(len) && offset == old(offset)
    {
      pos := pos + m;
    }

    /** Read: fill the window with the next buffer's worth of the stream,
        or record the file's size when the stream is exhausted. */
    method Read() returns (l: int)
      requires Stream()
      modifies this, buf
      ensures Stream()
      ensures old(offset) < |data| ==>
        && Valid() && l > 0 && pos == 0 && len == l && offset == old(offset) + l
      ensures old(offset) == |data| ==>
        && l == 0 && pos == old(pos) && len == old(len) && offset == old(offset)
        && buf[..] == old(buf[..])
    {
      l := Min(buf.Length, |data| - offset);
      if l <= 0 {
        size := offset;
        return 0;
      }
      forall i | 0 <= i < l {
        buf[i] := data[offset + i];
      }
      pos := 0;
      offset := offset + l;
      len := l;
      if offset > size {
        size := offset;
      }
    }

    /** InMem: the bytes left in the window, refilling it when it is used
        up; 0 only at the end of the file. */
    method InMem() returns (n: int)
      requires Valid()
      modifies this, buf
      ensures Valid() && Tell() == old(Tell())
      ensures n == len - pos
      ensures n == 0 <==> Tell() == |data|
    {
      if len - pos > 0 {
        n := len - pos;
      } else {
        n := Read();
      }
    }

    /** Eof: the cursor is at the end of the file. */
    method Eof() returns (eof: bool)
      requires Valid()
      modifies this, buf
      ensures Valid() && Tell() == old(Tell())
      ensures eof <==> Tell() == |data|
      ensures !eof ==> pos < len
    {
      var n := InMem();
      eof := n == 0;
    }

    /** Get: the byte under the cursor, stepping over it, or '\0' at the
        end of the file. */
    method Get() returns (c: JChar)
      requires Valid()
      modifies this, buf
      ensures Valid()
      ensures old(Tell()) < |data| ==> c == ToChar(data[old(Tell())]) && Tell() == old(Tell()) + 1
      ensures old(Tell()) == |data| ==> c == 0 && Tell() == old(Tell())
    {
      var eof := Eof();
      if eof {
        c := 0;
      } else {
        c := Char();
        pos := pos + 1;
      }
    }

    /** Seek: move the cursor to file offset o, reading forward when o lies
        past the window and reopening the stream when it lies before it. */
    method Seek(o: int)
      requires Valid() && o >= 0
      modifies this, buf
      ensures Valid()
      ensures o <= |data| ==> Tell() == o
      decreases if o < offset - len then 1 else 0, |data| - offset
    {
      var windowStart := offset - len;
      if o > offset {
        var l := Read();
        if l != 0 {
          Seek(o);
        }
      } else if o < windowStart {
        offset := 0;
        var l := Read();
        if l != 0 {
          Seek(o);
        }
      } else {
        pos := o - windowStart;
      }
    }

    /** Memcmp: compare up to `length` bytes at the two cursors, as many as
        both files have left; the result is 0 when they agree and otherwise
        the signed difference of the first pair that does not. */
    method Memcmp(other: ReadFile, length: int) returns (r: int)
      requires Valid() && other.Valid() && other != this && other.buf != buf
      modifies this, buf, other, other.buf
      ensures Valid() && other.Valid()
      ensures Compared(data[old(Tell())..], other.data[old(other.Tell())..], length, r)
    {
      ghost var t0, u0 := Tell(), other.Tell();
      ghost var a, b := data[t0..], other.data[u0..];
      var rest := length;
      while true
        invariant Valid() && other.Valid()
        invariant t0 <= Tell() && u0 <= other.Tell() && Tell() - t0 == other.Tell() - u0
        invariant length >= 0 ==> rest == length - (Tell() - t0) && 0 <= rest
        invariant length < 0 ==> Tell() == t0 && (rest == length || rest == 0)
        invariant Agree(a, b, Tell() - t0)
        decreases if rest < 0 then 1 else 0, rest
      {
        if rest == 0 {
          break;
        }
        var x, l1 := CompareChunk(other, rest, length, t0, u0, a, b);
        if l1 == 0 {
          break;
        }
        if x != 0 {
          return x;
        }
        rest := rest - l1;
      }
      SameCompared(a, b, length, Tell() - t0);
      r := 0;
    }

    /** One pass of Memcmp's loop: refill both windows, then compare as many
        pairs as the count and both windows allow. l is 0 when either file
        is used up and otherwise the count the pass uses up. */
    method CompareChunk(other: ReadFile, rest: int, ghost length: int, ghost t0: int, ghost u0: int,
                        ghost a: seq<byte>, ghost b: seq<byte>)
      returns (x: int, l: int)
      requires Valid() && other.Valid() && other != this && other.buf != buf
      requires 0 <= t0 <= Tell() && 0 <= u0 <= other.Tell() && Tell() - t0 == other.Tell() - u0
      requires a == data[t0..] && b == other.data[u0..] && Agree(a, b, Tell() - t0)
      requires rest != 0 && (length >= 0 ==> rest == length - (Tell() - t0)) && (length < 0 ==> rest == length)
      modifies this, buf, other, other.buf
      ensures Valid() && other.Valid() && Tell() - t0 == other.Tell() - u0
      ensures l == 0 ==> Tell() == old(Tell()) && (Tell() == |data| || other.Tell() == |other.data|)
      ensures l != 0 && x == 0 ==>
        && (rest > 0 ==> 0 < l <= rest) && (rest < 0 ==> l == rest)
        && Tell() == old(Tell()) + Max0(l) && Agree(a, b, Tell() - t0)
      ensures x != 0 ==> Compared(a, b, length, x)
    {
      x := 0;
      l := Refill(other, rest);
      if l == 0 {
        return;
      }
      var m;
      x, m := CompareRun(other, l, Tell() - t0, a, b, length);
      Advance(m);
      other.Advance(m);
    }

    /** The loop test and clamps of Memcmp: refill both windows, and bound
        the pass by the count and by both windows; 0 when either file is
        used up. */
    method Refill(other: ReadFile, rest: int) returns (l: int)
      requires Valid() && other.Valid() && other != this && other.buf != buf && rest != 0
      modifies this, buf, other, other.buf
      ensures Valid() && other.Valid() && Tell() == old(Tell()) && other.Tell() == old(other.Tell())
      ensures l == 0 ==> Tell() == |data| || other.Tell() == |other.data|
      ensures l != 0 ==> l == Min(rest, Min(len - pos, other.len - other.pos)) && pos < len && other.pos < other.len
    {
      l := InMem();
      if l == 0 {
        return;
      }
      var l2 := other.InMem();
      if l2 == 0 {
        return 0;
      }
      if l > rest {
        l := rest;
      }
      if l > l2 {
        l := l2;
      }
    }

    /** The inner loop of Memcmp: compare up to l bytes inside both windows,
        the k-th pair on, stopping after the first pair that differs; m is
        the number of pairs compared. */
    method CompareRun(other: ReadFile, l: int, ghost k: int, ghost a: seq<byte>, ghost b: seq<byte>, ghost length: int)
      returns (x: int, m: int)
      requires Valid() && other.Valid()
      requires l <= len - pos && l <= other.len - other.pos
      requires 0 <= k <= Tell() && k <= other.Tell()
      requires a == data[Tell() - k..] && b == other.data[other.Tell() - k..] && Agree(a, b, k)
      requires length >= 0 ==> k + l <= length
      requires length < 0 ==> l <= 0
      ensures 0 <= m <= Max0(l)
      ensures x == 0 ==> m == Max0(l) && Agree(a, b, k + m)
      ensures x != 0 ==> m >= 1 && Compared(a, b, length, x)
    {
      x, m := 0, 0;
      while x == 0 && m < l
        invariant 0 <= m <= Max0(l)
        invariant x == 0 ==> Agree(a, b, k + m)
        invariant x != 0 ==>
          && m >= 1 && Agree(a, b, k + m - 1) && k + m - 1 < |a| && k + m - 1 < |b|
          && a[k + m - 1] != b[k + m - 1] && x == Signed(a[k + m - 1]) - Signed(b[k + m - 1])
      {
        assert buf[pos + m] == a[k + m] && other.buf[other.pos + m] == b[k + m];
        x := Signed(buf[pos + m]) - Signed(other.buf[other.pos + m]);
        SignedInjective(a[k + m], b[k + m]);
        m := m + 1;
      }
      if x != 0 {
        DifferCompared(a, b, length, k + m - 1, x);
      }
    }

    /** Memcpy: copy up to `length` bytes from the cursor into dst, as many
        as the file has left, and report how many. */
    method Memcpy(dst: array<byte>, length: int) returns (r: int)
      requires Valid() && dst != buf && length <= dst.Length
      modifies this, buf, dst
      ensures Valid()
      ensures r == CopyCount(length, |data| - old(Tell()))
      ensures Tell() == old(Tell()) + Max0(r)
      ensures dst[..Max0(r)] == data[old(Tell())..Tell()]
      ensures length == 0 ==> dst[..] == old(dst[..])
    {
      ghost var t0 := Tell();
      var rest := length;
      var bpos := 0;
      while true
        invariant Valid() && t0 <= Tell() && bpos == Tell() - t0 && bpos <= dst.Length
        invariant length == 0 ==> dst[..] == old(dst[..])
        invariant length >= 0 ==> rest == length - bpos && 0 <= rest
        invariant length < 0 ==> bpos == 0 && (rest == length || rest == 0)
        invariant length < 0 && rest == 0 ==> t0 < |data|
        invariant Copied(dst, data, t0, bpos)
        decreases if rest < 0 then 1 else 0, rest
      {
        if rest == 0 {
          break;
        }
        var l := InMem();
        if l == 0 {
          break;
        }
        if l > rest {
          l := rest;
        }
        bpos := CopyRun(dst, l, bpos, t0);
        rest := rest - l;
      }
      r := length - rest;
      CopiedSlice(dst, data, t0, bpos);
    }

    /** The inner loop of Memcpy: copy l bytes of the window into dst at
        bpos. */
    method CopyRun(dst: array<byte>, l: int, bpos: int, ghost t0: int) returns (bpos': int)
      requires Valid() && dst != buf && l <= len - pos
      requires 0 <= t0 <= Tell() && bpos == Tell() - t0 && bpos + Max0(l) <= dst.Length
      requires Copied(dst, data, t0, bpos)
      modifies this, dst
      ensures Valid() && Tell() == old(Tell()) + Max0(l) && bpos' == Tell() - t0
      ensures Copied(dst, data, t0, bpos')
    {
      ghost var t := Tell();
      for i := 0 to Max0(l)
        modifies dst
        invariant Copied(dst, data, t0, bpos + i)
      {
        dst[bpos + i] := buf[pos + i];
      }
      bpos' := bpos + Max0(l);
      pos := pos + Max0(l);
    }

    /** Memccpy: copy bytes from the cursor into dst up to and including the
        first one equal to c, or up to `length` bytes, or to the end of the
        file. The count it reports is in whole window chunks, not bytes. */
    method Memccpy(dst: array<byte>, c: JChar, length: int) returns (r: int)
      requires Valid() && dst != buf && length <= dst.Length
      modifies this, buf, dst
      ensures Valid() && old(Tell()) <= Tell()
      ensures Tell() - old(Tell()) <= Max0(CopyCount(length, |data| - old(Tell())))
      ensures dst[..Tell() - old(Tell())] == data[old(Tell())..Tell()]
      ensures NoHit(data, c, old(Tell()), Tell() - 1)
      ensures Tell() - old(Tell()) < CopyCount(length, |data| - old(Tell())) ==>
        old(Tell()) < Tell() && Signed(data[Tell() - 1]) == c as int
      ensures length >= 0 ==> Tell() - old(Tell()) <= r <= length
    {
      ghost var t0 := Tell();
      var rest := length;
      var bpos := 0;
      var hit := false;
      while !hit
        invariant Valid() && t0 <= Tell() && bpos == Tell() - t0 && bpos <= dst.Length
        invariant length >= 0 ==> 0 <= rest <= length - bpos
        invariant length >= 0 && !hit ==> rest == length - bpos
        invariant length < 0 ==> bpos == 0 && (rest == length || rest == 0)
        invariant Copied(dst, data, t0, bpos)
        invariant NoHit(data, c, t0, Tell() - 1)
        invariant hit == (bpos > 0 && Signed(data[Tell() - 1]) == c as int)
        decreases if rest < 0 then 1 else 0, rest, if hit then 0 else 1
      {
        if rest == 0 {
          break;
        }
        var l := InMem();
        if l == 0 {
          break;
        }
        if l > rest {
          l := rest;
        }
        bpos, hit := CopyUntil(dst, c, l, bpos, t0);
        rest := rest - l;
      }
      r := length - rest;
      CopiedSlice(dst, data, t0, bpos);
    }

    /** The inner loop of Memccpy: copy at most l bytes of the window into
        dst at bpos, stopping after a byte equal to c. */
    method CopyUntil(dst: array<byte>, c: JChar, l: int, bpos: int, ghost t0: int)
      returns (bpos': int, hit: bool)
      requires Valid() && dst != buf && l <= len - pos
      requires 0 <= t0 <= Tell() && bpos == Tell() - t0 && bpos + Max0(l) <= dst.Length
      requires Copied(dst, data, t0, bpos)
      requires NoHit(data, c, t0, Tell())
      modifies this, dst
      ensures Valid() && old(Tell()) <= Tell() <= old(Tell()) + Max0(l) && bpos' == Tell() - t0
      ensures Copied(dst, data, t0, bpos')
      ensures NoHit(data, c, t0, Tell() - 1)
      ensures hit == (Tell() > old(Tell()) && Signed(data[Tell() - 1]) == c as int)
      ensures !hit ==> Tell() == old(Tell()) + Max0(l)
    {
      ghost var t := Tell();
      hit := false;
      var i := 0;
      while !hit && i < l
        modifies dst
        invariant 0 <= i <= Max0(l)
        invariant Copied(dst, data, t0, bpos + i)
        invariant NoHit(data, c, t0, t + i - 1)
        invariant hit == (i > 0 && Signed(data[t + i - 1]) == c as int)
      {
        if i > 0 {
          assert Miss(data, c, t + i - 1);
        }
        hit := Signed(buf[pos + i]) == c as int;
        dst[bpos + i] := buf[pos + i];
        i := i + 1;
      }
      bpos' := bpos + i;
      pos := pos + i;
    }

    /** Char, Next and Eof in a row: the byte under the cursor, and whether
        the input ends after it. */
    method Step() returns (c: JChar, eof: bool)
      requires Valid() && pos < len
      modifies this, buf
      ensures Valid() && Tell() == old(Tell()) + 1 && c == ToChar(data[old(Tell())])
      ensures eof <==> Tell() == |data|
      ensures !eof ==> pos < len
    {
      c := Char();
      Next();
      eof := Eof();
    }

    /** Textcpy for raw line endings: copy the smaller of dstlen and srclen
        bytes. */
    method Textcpy(dst: array<byte>, dstlen: int, srclen: int) returns (r: int)
      requires Valid() && dst != buf && Min(dstlen, srclen) <= dst.Length
      modifies this, buf, dst
      ensures Valid()
      ensures r == CopyCount(Min(dstlen, srclen), |data| - old(Tell()))
      ensures Tell() == old(Tell()) + Max0(r)
      ensures dst[..Max0(r)] == data[old(Tell())..Tell()]
      ensures Min(dstlen, srclen) == 0 ==> dst[..] == old(dst[..])
    {
      r := Memcpy(dst, if dstlen < srclen then dstlen else srclen);
    }
  }

  function Max0(x: int): int
  {
    if x < 0 then 0 else x
  }

  /** No byte of data[from..to] equals c (as Java compares a byte with a
      char). */
  predicate NoHit(data: seq<byte>, c: JChar, from: int, to: int)
  {
    forall i :: from <= i < to ==> Miss(data, c, i)
  }

  /** Byte i of data, if there is one, differs from c. */
  predicate Miss(data: seq<byte>, c: JChar, i: int)
  {
    0 <= i < |data| ==> Signed(data[i]) != c as int
  }

  /** The first n bytes of a and b agree. */
  ghost predicate Agree(a: seq<byte>, b: seq<byte>, n: int)
  {
    0 <= n <= |a| && n <= |b| && forall k :: 0 <= k < n ==> a[k] == b[k]
  }

  /** dst starts with the n bytes of data from offset `from`. */
  ghost predicate Copied(dst: array<byte>, data: seq<byte>, from: int, n: int)
    reads dst
  {
    0 <= n <= dst.Length && 0 <= from && from + n <= |data| && forall k :: 0 <= k < n ==> dst[k] == data[from + k]
  }

  lemma CopiedSlice(dst: array<byte>, data: seq<byte>, from: int, n: int)
    requires Copied(dst, data, from, n)
    ensures dst[..n] == data[from..from + n]
  {
  }

  /** What Memcmp promises about the bytes a and b left at the two cursors:
      it compares n of them, n as a bounded copy of the shorter would copy;
      0 means those n agree, anything else is the signed difference of the
      first pair that does not. */
  ghost predicate Compared(a: seq<byte>, b: seq<byte>, length: int, r: int)
  {
    var n := CopyCount(length, Min(|a|, |b|));
    && (r == 0 <==> n <= 0 || a[..n] == b[..n])
    && (r != 0 ==> exists i :: 0 <= i < n && a[..i] == b[..i] && a[i] != b[i] && r == Signed(a[i]) - Signed(b[i]))
  }

  /** Memcmp's result when it stops after k equal pairs: the count ran out,
      or one side did. */
  lemma SameCompared(a: seq<byte>, b: seq<byte>, length: int, k: int)
    requires Agree(a, b, k)
    requires length >= 0 ==> k == length || k == |a| || k == |b|
    requires length >= 0 ==> k <= length
    ensures Compared(a, b, length, 0)
  {
  }

  /** Memcmp's result when the pair after i equal ones differs. */
  lemma DifferCompared(a: seq<byte>, b: seq<byte>, length: int, i: int, r: int)
    requires 0 <= i < |a| && i < |b| && i < length
    requires Agree(a, b, i) && a[i] != b[i] && r == Signed(a[i]) - Signed(b[i])
    ensures Compared(a, b, length, r)
  {
    SignedInjective(a[i], b[i]);
    var n := CopyCount(length, Min(|a|, |b|));
    assert a[..n][i] != b[..n][i];
  }
}
