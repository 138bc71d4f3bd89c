/** Java value semantics that the diff engine depends on: bytes read from a
    file, the sign-extending `(char)` cast, 32-bit `int` wrap-around and the
    CHARHASH token hash. */
module JavaTypes {

  /** A Java reference that may be `null`. */
  datatype Option<T> = None | Some(value: T)

  /** One byte of file content, as an unsigned value. */
  newtype byte = b: int | 0 <= b < 0x100

  /** A Java `char` (one UTF-16 code unit). */
  type JChar = c: int | 0 <= c < 0x1_0000

  const LF: JChar := 10
  const CR: JChar := 13
  const SPACE: JChar := 32
  const TAB: JChar := 9

  const LF_BYTE: byte := 10
  const CR_BYTE: byte := 13

  /** `(char) buf[pos]`: Java sign-extends the byte to an int before
      narrowing it to 16 bits, so 0x80..0xFF become 0xFF80..0xFFFF. */
  function ToChar(b: byte): (c: JChar)
    ensures (c < 0x80) == (b < 0x80)
    ensures c % 0x100 == b as int
  {
    if b < 0x80 then b as int else 0xFF00 + b as int
  }

  /** The signed value of a Java `byte`, as used by `buf[i] - other.buf[j]`. */
  function Signed(b: byte): (v: int)
    ensures -0x80 <= v < 0x80
    ensures (v + 0x100) % 0x100 == b as int
  {
    if b < 0x80 then b as int else b as int - 0x100
  }

  /** The text character that `PrintWriter.write(int)` emits for a byte. */
  function ByteChar(b: byte): char
  {
    ToChar(b) as char
  }

  lemma {:induction false} ToCharInjective(a: byte, b: byte)
    ensures ToChar(a) == ToChar(b) <==> a == b
  {
    if ToChar(a) == ToChar(b) {
      assert ToChar(a) % 0x100 == a as int;
      assert ToChar(b) % 0x100 == b as int;
    }
  }

  lemma {:induction false} SignedInjective(a: byte, b: byte)
    ensures Signed(a) - Signed(b) == 0 <==> a == b
  {
    if Signed(a) == Signed(b) {
      assert (Signed(a) + 0x100) % 0x100 == a as int;
    }
  }

  /** Java `int` arithmetic: the two's-complement 32-bit value of `x`. */
  function Wrap32(x: int): (r: int)
    ensures -0x8000_0000 <= r < 0x8000_0000
    ensures (r - x) % 0x1_0000_0000 == 0
  {
    (x + 0x8000_0000) % 0x1_0000_0000 - 0x8000_0000
  }

  /** An int that is already in range is its own 32-bit value, and two ints
      with the same 32-bit value differ by a multiple of 2^32. */
  lemma Wrap32Unique(x: int, r: int)
    requires -0x8000_0000 <= r < 0x8000_0000
    requires (r - x) % 0x1_0000_0000 == 0
    ensures Wrap32(x) == r
  {
    var w := Wrap32(x);
    assert ((w - x) - (r - x)) % 0x1_0000_0000 == 0;
  }

  /** CHARHASH(h, c) = 293 * h + c in Java `int` arithmetic, which wraps
      modulo 2^32; bv32 arithmetic is that wrap-around. */
  function CharHash(h: bv32, c: JChar): bv32
  {
    293 * h + (c as bv32)
  }

  /** The hash that folding CHARHASH over `cs` from 0, left to right,
      leaves: the hash of a token whose hashed characters are `cs`. */
  function HashOf(cs: seq<JChar>): bv32
    decreases |cs|
  {
    if cs == [] then 0 else CharHash(HashOf(cs[..|cs| - 1]), cs[|cs| - 1])
  }

  /** Hashing one more character continues the hash. */
  lemma HashSnoc(xs: seq<JChar>, c: JChar)
    ensures HashOf(xs + [c]) == CharHash(HashOf(xs), c)
  {
    assert (xs + [c])[..|xs|] == xs;
  }

  lemma HashPair(xs: seq<JChar>, c: JChar, d: JChar)
    ensures HashOf(xs + [c, d]) == CharHash(CharHash(HashOf(xs), c), d)
  {
    assert xs + [c, d] == xs + [c] + [d];
    HashSnoc(xs, c);
    HashSnoc(xs + [c], d);
  }

  /** The characters of a run of bytes, each sign-extended. */
  function Chars(bs: seq<byte>): (cs: seq<JChar>)
    ensures |cs| == |bs|
    ensures forall i :: 0 <= i < |bs| ==> cs[i] == ToChar(bs[i])
  {
    seq(|bs|, i requires 0 <= i < |bs| => ToChar(bs[i]))
  }

  /** The characters of a slice are that slice of the characters. */
  lemma CharsSlice(bs: seq<byte>, a: int, b: int)
    requires 0 <= a <= b <= |bs|
    ensures Chars(bs[a..b]) == Chars(bs)[a..b]
  {
  }

  lemma {:induction false} CharsAppend(a: seq<byte>, b: seq<byte>)
    ensures Chars(a + b) == Chars(a) + Chars(b)
  {
    assert |Chars(a + b)| == |Chars(a) + Chars(b)|;
    forall i | 0 <= i < |a + b|
      ensures Chars(a + b)[i] == (Chars(a) + Chars(b))[i]
    {
      if i < |a| {
        assert (a + b)[i] == a[i];
      } else {
        assert (a + b)[i] == b[i - |a|];
      }
    }
  }

  /** A Java `int` rendered with `%d`. */
  function IntToString(n: int): (s: string)
    ensures |s| > 0
  {
    if n < 0 then "-" + NatToString(-n) else NatToString(n)
  }

  function NatToString(n: nat): (s: string)
    ensures |s| > 0
    decreases n
  {
    if n < 10 then [DigitChar(n)] else NatToString(n / 10) + [DigitChar(n % 10)]
  }

  function DigitChar(d: nat): (c: char)
    requires d < 10
    ensures '0' <= c <= '9'
  {
    ['0', '1', '2', '3', '4', '5', '6', '7', '8', '9'][d]
  }

  /** The decimal digits of `s` read back as a number. */
  function DecimalValue(s: string): int
  {
    if s == [] then 0 else DecimalValue(s[..|s| - 1]) * 10 + (s[|s| - 1] as int - '0' as int)
  }

  /** `%d` is faithful: its digits read back as the number printed. */
  lemma {:induction false} NatToStringRoundTrip(n: nat)
    ensures DecimalValue(NatToString(n)) == n
    decreases n
  {
    var s := NatToString(n);
    if n < 10 {
      assert DigitChar(n) as int - '0' as int == n;
      assert s[..|s| - 1] == [];
    } else {
      NatToStringRoundTrip(n / 10);
      assert s[..|s| - 1] == NatToString(n / 10);
      assert DigitChar(n % 10) as int - '0' as int == n % 10;
    }
  }
}
