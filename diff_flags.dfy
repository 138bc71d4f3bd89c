/** The diff option string: one character per option, read left to right,
    choosing the output format, the token sequencer, the grid and the
    context count. */
module Flags {
  import opened JavaTypes

  datatype OutputType = Normal | Context | Unified | Rcs | HTML | Summary
  datatype SequenceKind = Line | Word | DashL | DashB | DashW | WClass
  datatype Grid = Optimal | Guarded | TwoWay | Diff3 | GuardedDiff3

  predicate IsDigit(c: char)
  {
    '0' <= c <= '9'
  }

  /** The output type a flag character selects, if any. */
  function TypeEffect(c: char): Option<OutputType>
  {
    match c
    case 'c' | 'C' => Some(Context)
    case 'h' | 'H' | 'v' => Some(HTML)
    case 'n' => Some(Rcs)
    case 's' => Some(Summary)
    case 'u' | 'U' => Some(Unified)
    case _ => None
  }

  /** The sequencer a flag character selects, if any. */
  function SequenceEffect(c: char): Option<SequenceKind>
  {
    match c
    case 'l' => Some(DashL)
    case 'b' => Some(DashB)
    case 'w' => Some(DashW)
    case 'h' | 'H' => Some(Word)
    case 'v' => Some(WClass)
    case _ => None
  }

  predicate IsGridChar(c: char)
  {
    c in "gGxXtT"
  }

  /** The grid after one flag character: `g` and `x` combine with an
      immediately preceding `x` or `g` into GuardedDiff3. */
  function GridStep(g: Grid, c: char): Grid
  {
    match c
    case 'g' | 'G' => if g == Diff3 then GuardedDiff3 else Guarded
    case 'x' | 'X' => if g == Guarded then GuardedDiff3 else Diff3
    case 't' | 'T' => TwoWay
    case _ => g
  }

  /** The setting left by the last character of `s` that has an effect, or
      `dflt` when none has. */
  function LastEffect<T>(effect: char -> Option<T>, dflt: T, s: string): T
  {
    if s == [] then dflt
    else match effect(s[|s| - 1])
      case Some(t) => t
      case None => LastEffect(effect, dflt, s[..|s| - 1])
  }

  function TypeOf(s: string): OutputType
  {
    LastEffect(TypeEffect, Normal, s)
  }

  function SequenceOf(s: string): SequenceKind
  {
    LastEffect(SequenceEffect, Line, s)
  }

  function GridOf(s: string): Grid
  {
    if s == [] then Optimal else GridStep(GridOf(s[..|s| - 1]), s[|s| - 1])
  }

  /** The decimal digits of `s`, in order. */
  function Digits(s: string): (ds: string)
    ensures forall i :: 0 <= i < |ds| ==> IsDigit(ds[i])
    ensures |ds| <= |s|
  {
    if s == [] then []
    else if IsDigit(s[|s| - 1]) then Digits(s[..|s| - 1]) + [s[|s| - 1]]
    else Digits(s[..|s| - 1])
  }

  function Pow10(k: nat): (p: nat)
    ensures p >= 1
  {
    if k == 0 then 1 else 10 * Pow10(k - 1)
  }

  /** One step of the context count as the constructor computes it: digits
      accumulate in 32-bit arithmetic, and the count is forced to -1 after
      every character while no digit has been seen. */
  function CountStep(count: int, someDigit: bool, c: char): (int, bool)
  {
    var (count', someDigit') :=
      if IsDigit(c) then (Wrap32(count * 10 + (c as int - '0' as int)), true)
      else (count, someDigit);
    (if someDigit' then count' else -1, someDigit')
  }

  function CountState(s: string): (int, bool)
  {
    if s == [] then (0, false)
    else var (count, someDigit) := CountState(s[..|s| - 1]); CountStep(count, someDigit, s[|s| - 1])
  }

  function CountAsWritten(s: string): int
  {
    CountState(s).0
  }

  /** Parsed option settings. A `None` flag string stands for Java's `null`. */
  class DiffFlags {
    var outputType: OutputType
    var sequence: SequenceKind
    var grid: Grid
    var contextCount: int

    constructor (flags: Option<string>)
      ensures flags.None? ==>
        outputType == Normal && sequence == Line && grid == Optimal && contextCount == 0
      ensures flags.Some? ==>
        outputType == TypeOf(flags.value) && sequence == SequenceOf(flags.value) &&
        grid == GridOf(flags.value) && contextCount == CountAsWritten(flags.value)
    {
      outputType := Normal;
      sequence := Line;
      grid := Optimal;
      contextCount := 0;
      new;
      if flags.Some? {
        var s := flags.value;
        var someDigit := false;
        for i := 0 to |s|
          invariant outputType == TypeOf(s[..i])
          invariant sequence == SequenceOf(s[..i])
          invariant grid == GridOf(s[..i])
          invariant (contextCount, someDigit) == CountState(s[..i])
        {
          PrefixStep(s, i);
          someDigit := Apply(s[i], someDigit);
        }
        assert s[..|s|] == s;
      }
    }

    /** One character of the flag string, as the option switch handles it,
        followed by the "no digit yet" test. */
    method Apply(c: char, someDigit: bool) returns (someDigit': bool)
      modifies this
      ensures outputType == match TypeEffect(c) case Some(t) => t case None => old(outputType)
      ensures sequence == match SequenceEffect(c) case Some(k) => k case None => old(sequence)
      ensures grid == GridStep(old(grid), c)
      ensures (contextCount, someDigit') == CountStep(old(contextCount), someDigit, c)
    {
      someDigit' := someDigit;
      match c {
        case 'a' =>
        case 'l' => sequence := DashL;
        case 'b' => sequence := DashB;
        case 'w' => sequence := DashW;
        case 'c' | 'C' => outputType := Context;
        case 'h' | 'H' =>
          outputType := HTML;
          sequence := Word;
        case 'v' =>
          outputType := HTML;
          sequence := WClass;
        case 'n' => outputType := Rcs;
        case 's' => outputType := Summary;
        case 'u' | 'U' => outputType := Unified;
        case 'g' | 'G' =>
          if grid == Diff3 { grid := GuardedDiff3; } else { grid := Guarded; }
        case 'x' | 'X' =>
          if grid == Guarded { grid := GuardedDiff3; } else { grid := Diff3; }
        case 't' | 'T' => grid := TwoWay;
        case '0' | '1' | '2' | '3' | '4' | '5' | '6' | '7' | '8' | '9' =>
          contextCount := Wrap32(contextCount * 10 + (c as int - '0' as int));
          someDigit' := true;
        case _ =>
      }
      if !someDigit' {
        contextCount := -1;
      }
    }
  }

  /** How each setting of `s[..i + 1]` follows from those of `s[..i]`. */
  lemma PrefixStep(s: string, i: nat)
    requires i < |s|
    ensures TypeOf(s[..i + 1]) == match TypeEffect(s[i]) case Some(t) => t case None => TypeOf(s[..i])
    ensures SequenceOf(s[..i + 1]) == match SequenceEffect(s[i]) case Some(k) => k case None => SequenceOf(s[..i])
    ensures GridOf(s[..i + 1]) == GridStep(GridOf(s[..i]), s[i])
    ensures CountState(s[..i + 1]) == CountStep(CountState(s[..i]).0, CountState(s[..i]).1, s[i])
  {
    assert s[..i + 1][..i] == s[..i];
  }

  /** The last character with an effect decides, and with no such character
      the default stands, in both directions. */
  lemma {:induction false} LastEffectWins<T>(effect: char -> Option<T>, dflt: T, s: string, t: T)
    ensures LastEffect(effect, dflt, s) == t <==>
      (exists i :: 0 <= i < |s| && effect(s[i]) == Some(t) &&
         forall j :: i < j < |s| ==> effect(s[j]).None?) ||
      (t == dflt && forall j :: 0 <= j < |s| ==> effect(s[j]).None?)
  {
    if s != [] {
      var p := s[..|s| - 1];
      LastEffectWins(effect, dflt, p, t);
      if effect(s[|s| - 1]).None? {
        NoEffectStep(effect, s, p, t);
      }
    }
  }

  /** A last character without effect changes neither which earlier
      character is the last with an effect nor whether there is one. */
  lemma NoEffectStep<T>(effect: char -> Option<T>, s: string, p: string, t: T)
    requires s != [] && p == s[..|s| - 1] && effect(s[|s| - 1]).None?
    ensures (exists i :: 0 <= i < |s| && effect(s[i]) == Some(t) &&
               forall j :: i < j < |s| ==> effect(s[j]).None?) <==>
            (exists i :: 0 <= i < |p| && effect(p[i]) == Some(t) &&
               forall j :: i < j < |p| ==> effect(p[j]).None?)
    ensures (forall j :: 0 <= j < |s| ==> effect(s[j]).None?) <==>
            (forall j :: 0 <= j < |p| ==> effect(p[j]).None?)
  {
    if exists i :: 0 <= i < |p| && effect(p[i]) == Some(t) &&
         forall j :: i < j < |p| ==> effect(p[j]).None? {
      var i :| 0 <= i < |p| && effect(p[i]) == Some(t) &&
        forall j :: i < j < |p| ==> effect(p[j]).None?;
      assert effect(s[i]) == Some(t);
      assert forall j :: i < j < |s| ==> effect(s[j]).None? by {
        forall j | i < j < |s|
          ensures effect(s[j]).None?
        {
          if j < |p| {
            assert s[j] == p[j];
          }
        }
      }
    }
    if exists i :: 0 <= i < |s| && effect(s[i]) == Some(t) &&
         forall j :: i < j < |s| ==> effect(s[j]).None? {
      var i :| 0 <= i < |s| && effect(s[i]) == Some(t) &&
        forall j :: i < j < |s| ==> effect(s[j]).None?;
      assert i < |p|;
      assert effect(p[i]) == Some(t);
      assert forall j :: i < j < |p| ==> effect(p[j]).None? by {
        forall j | i < j < |p|
          ensures effect(p[j]).None?
        {
          assert s[j] == p[j];
        }
      }
    }
  }

  /** The output type is the one named by the last type-selecting flag; with
      none, it is Normal. */
  lemma TypeLastWins(s: string, t: OutputType)
    ensures TypeOf(s) == t <==>
      (exists i :: 0 <= i < |s| && TypeEffect(s[i]) == Some(t) &&
         forall j :: i < j < |s| ==> TypeEffect(s[j]).None?) ||
      (t == Normal && forall j :: 0 <= j < |s| ==> TypeEffect(s[j]).None?)
  {
    LastEffectWins(TypeEffect, Normal, s, t);
  }

  /** The sequencer is the one named by the last sequencer-selecting flag
      (`h` and `v` select one too); with none, it is Line. */
  lemma SequenceLastWins(s: string, k: SequenceKind)
    ensures SequenceOf(s) == k <==>
      (exists i :: 0 <= i < |s| && SequenceEffect(s[i]) == Some(k) &&
         forall j :: i < j < |s| ==> SequenceEffect(s[j]).None?) ||
      (k == Line && forall j :: 0 <= j < |s| ==> SequenceEffect(s[j]).None?)
  {
    LastEffectWins(SequenceEffect, Line, s, k);
  }

  /** `g` right after an `x` gives GuardedDiff3, unless the `x` itself had
      turned a preceding `g` into GuardedDiff3. */
  lemma GridXThenG(s: string)
    ensures GridOf(s + "xg") == if GridOf(s) == Guarded then Guarded else GuardedDiff3
  {
    assert (s + "xg")[..|s + "xg"| - 1] == s + "x";
    assert (s + "x")[..|s + "x"| - 1] == s;
  }

  /** `x` right after a `g` gives GuardedDiff3, unless the `g` itself had
      turned a preceding `x` into GuardedDiff3. */
  lemma GridGThenX(s: string)
    ensures GridOf(s + "gx") == if GridOf(s) == Diff3 then Diff3 else GuardedDiff3
  {
    assert (s + "gx")[..|s + "gx"| - 1] == s + "g";
    assert (s + "g")[..|s + "g"| - 1] == s;
  }

  /** The grid stays Optimal exactly when no grid flag occurs. */
  lemma {:induction false} GridOptimalIff(s: string)
    ensures GridOf(s) == Optimal <==> forall i :: 0 <= i < |s| ==> !IsGridChar(s[i])
  {
    if s != [] {
      var p := s[..|s| - 1];
      GridOptimalIff(p);
      assert forall i :: 0 <= i < |p| ==> p[i] == s[i];
    }
  }

  /** GuardedDiff3 needs both a `g` and an `x` among the flags. */
  lemma {:induction false} GuardedDiff3NeedsBoth(s: string)
    ensures GridOf(s) == GuardedDiff3 ==>
      (exists i :: 0 <= i < |s| && s[i] in "gG") && (exists i :: 0 <= i < |s| && s[i] in "xX")
    ensures GridOf(s) == Guarded ==> exists i :: 0 <= i < |s| && s[i] in "gG"
    ensures GridOf(s) == Diff3 ==> exists i :: 0 <= i < |s| && s[i] in "xX"
  {
    if s != [] {
      var p := s[..|s| - 1];
      GuardedDiff3NeedsBoth(p);
      assert forall i :: 0 <= i < |p| ==> p[i] == s[i];
      assert s[|s| - 1] == s[|s| - 1];
    }
  }

  /** Each step of 32-bit accumulation agrees with wrapping the exact value. */
  lemma Wrap32Accumulate(x: int, d: int)
    ensures Wrap32(Wrap32(x) * 10 + d) == Wrap32(x * 10 + d)
  {
    var w := Wrap32(x);
    assert (w - x) % 0x1_0000_0000 == 0;
    var q := (w - x) / 0x1_0000_0000;
    assert w - x == q * 0x1_0000_0000;
    assert (w * 10 + d) - (x * 10 + d) == (q * 10) * 0x1_0000_0000;
    Wrap32Unique(x * 10 + d, Wrap32(w * 10 + d));
  }

  lemma DigitsAppend(s: string, c: char)
    ensures Digits(s + [c]) == if IsDigit(c) then Digits(s) + [c] else Digits(s)
  {
    assert (s + [c])[..|s + [c]| - 1] == s;
  }

  /** The digits of a prefix grown by one character. */
  lemma DigitsPrefix(s: string, i: int)
    requires 0 <= i < |s|
    ensures Digits(s[..i + 1]) == if IsDigit(s[i]) then Digits(s[..i]) + [s[i]] else Digits(s[..i])
  {
    assert s[..i + 1] == s[..i] + [s[i]];
    DigitsAppend(s[..i], s[i]);
  }

  /** -1 when the flags start with a non-digit, which the count carries
      into every digit that follows. */
  function Lead(s: string): int
  {
    if |s| > 0 && !IsDigit(s[0]) then -1 else 0
  }

  /** The context count as the constructor computes it, in closed form: the
      decimal value of the digits, minus 10^(number of digits) when the
      string starts with a non-digit, in 32-bit arithmetic. The second
      component records whether any digit was seen. */
  lemma {:induction false} CountClosedForm(s: string)
    ensures CountState(s).1 <==> Digits(s) != []
    ensures CountAsWritten(s) ==
      Wrap32(Lead(s) * Pow10(|Digits(s)|) + DecimalValue(Digits(s)))
  {
    if s == [] {
      Wrap32Unique(0, 0);
    } else {
      var p := s[..|s| - 1];
      var c := s[|s| - 1];
      assert s == p + [c];
      CountClosedForm(p);
      if IsDigit(c) {
        ClosedFormOnDigit(p, c);
      } else {
        ClosedFormOnOther(p, c);
      }
    }
  }

  lemma ClosedFormOnDigit(p: string, c: char)
    requires IsDigit(c)
    requires CountState(p).1 <==> Digits(p) != []
    requires CountAsWritten(p) == Wrap32(Lead(p) * Pow10(|Digits(p)|) + DecimalValue(Digits(p)))
    ensures CountState(p + [c]).1 <==> Digits(p + [c]) != []
    ensures CountAsWritten(p + [c]) ==
      Wrap32(Lead(p + [c]) * Pow10(|Digits(p + [c])|) + DecimalValue(Digits(p + [c])))
  {
    var s := p + [c];
    var d := c as int - '0' as int;
    assert s[..|s| - 1] == p;
    DigitsAppend(p, c);
    var ds := Digits(p) + [c];
    assert ds[..|ds| - 1] == Digits(p);
    var lead, k, v := Lead(p), |Digits(p)|, DecimalValue(Digits(p));
    assert Lead(s) == lead by {
      assert |p| > 0 ==> s[0] == p[0];
    }
    assert |Digits(s)| == k + 1 && DecimalValue(Digits(s)) == v * 10 + d;
    assert CountAsWritten(s) == Wrap32(CountAsWritten(p) * 10 + d);
    ClosedFormDigitStep(CountAsWritten(p), lead, k, v, d);
  }

  lemma ClosedFormOnOther(p: string, c: char)
    requires !IsDigit(c)
    requires CountState(p).1 <==> Digits(p) != []
    requires CountAsWritten(p) == Wrap32(Lead(p) * Pow10(|Digits(p)|) + DecimalValue(Digits(p)))
    ensures CountState(p + [c]).1 <==> Digits(p + [c]) != []
    ensures CountAsWritten(p + [c]) ==
      Wrap32(Lead(p + [c]) * Pow10(|Digits(p + [c])|) + DecimalValue(Digits(p + [c])))
  {
    var s := p + [c];
    assert s[..|s| - 1] == p;
    DigitsAppend(p, c);
    assert |p| > 0 ==> s[0] == p[0];
    if !CountState(p).1 {
      if |p| > 0 {
        NoDigitsMeansNone(p);
      }
      assert Lead(s) == -1;
      Wrap32Unique(-1, -1);
    }
  }

  lemma ClosedFormDigitStep(count: int, lead: int, k: nat, v: int, d: int)
    requires count == Wrap32(lead * Pow10(k) + v)
    ensures Wrap32(count * 10 + d) == Wrap32(lead * Pow10(k + 1) + (v * 10 + d))
  {
    Wrap32Accumulate(lead * Pow10(k) + v, d);
    assert (lead * Pow10(k) + v) * 10 == lead * (10 * Pow10(k)) + v * 10;
  }

  lemma {:induction false} NoDigitsMeansNone(s: string)
    requires Digits(s) == []
    ensures forall i :: 0 <= i < |s| ==> !IsDigit(s[i])
  {
    if s != [] {
      var p := s[..|s| - 1];
      DigitsAppend(p, s[|s| - 1]);
      assert s == p + [s[|s| - 1]];
      NoDigitsMeansNone(p);
      assert forall i :: 0 <= i < |p| ==> p[i] == s[i];
    }
  }

  lemma {:induction false} AllDigitsAreDigits(s: string)
    requires forall i :: 0 <= i < |s| ==> IsDigit(s[i])
    ensures Digits(s) == s
  {
    if s != [] {
      var p := s[..|s| - 1];
      AllDigitsAreDigits(p);
      assert s == p + [s[|s| - 1]];
    }
  }

  /** A flag string made only of digits gives its decimal value (in 32-bit
      arithmetic), and a non-empty one without digits gives -1. */
  lemma CountOfPlainStrings(s: string)
    ensures (forall i :: 0 <= i < |s| ==> IsDigit(s[i])) ==> CountAsWritten(s) == Wrap32(DecimalValue(s))
    ensures |s| > 0 && (forall i :: 0 <= i < |s| ==> !IsDigit(s[i])) ==> CountAsWritten(s) == -1
  {
    CountClosedForm(s);
    if forall i :: 0 <= i < |s| ==> IsDigit(s[i]) {
      AllDigitsAreDigits(s);
      assert Lead(s) == 0;
      assert Lead(s) * Pow10(|Digits(s)|) == 0;
    }
    if |s| > 0 && forall i :: 0 <= i < |s| ==> !IsDigit(s[i]) {
      if Digits(s) != [] {
        DigitIsInString(s);
      }
      assert Lead(s) == -1 && Pow10(|Digits(s)|) == 1 && DecimalValue(Digits(s)) == 0;
      Wrap32Unique(-1, -1);
    }
  }

  lemma {:induction false} DigitIsInString(s: string)
    requires Digits(s) != []
    ensures exists i :: 0 <= i < |s| && IsDigit(s[i])
  {
    var p := s[..|s| - 1];
    if !IsDigit(s[|s| - 1]) {
      DigitIsInString(p);
      var i :| 0 <= i < |p| && IsDigit(p[i]);
      assert s[i] == p[i];
    }
  }

  /** A count written after the type flag, as in `c5`, does not come out as
      that count: the -1 forced by `c` is carried into the digits. */
  lemma CountAfterLetter()
    ensures CountAsWritten("c5") == -5
  {
    assert "c5"[..1] == "c";
    assert "c"[..0] == "";
  }

  /** The intended context count: the decimal value of the digits among the
      flags, or -1 (the default) when there are none. */
  function IntendedCount(s: string): int
  {
    if Digits(s) == [] then -1 else Wrap32(DecimalValue(Digits(s)))
  }

  /** The context count with the "no digit seen" test made once, after the
      whole string has been read. */
  method ParseContextCount(s: string) returns (count: int)
    ensures count == IntendedCount(s)
  {
    count := 0;
    var someDigit := false;
    for i := 0 to |s|
      invariant someDigit <==> Digits(s[..i]) != []
      invariant count == Wrap32(DecimalValue(Digits(s[..i])))
    {
      var c := s[i];
      DigitsPrefix(s, i);
      if IsDigit(c) {
        DecimalStep(Digits(s[..i]), c);
        count := Wrap32(count * 10 + (c as int - '0' as int));
        someDigit := true;
      }
    }
    assert s[..|s|] == s;
    if !someDigit {
      count := -1;
    }
  }

  /** Accumulating one more digit in 32-bit arithmetic keeps the count equal
      to the wrapped decimal value. */
  lemma DecimalStep(ds: string, c: char)
    requires forall i :: 0 <= i < |ds| ==> IsDigit(ds[i])
    requires IsDigit(c)
    ensures Wrap32(Wrap32(DecimalValue(ds)) * 10 + (c as int - '0' as int)) == Wrap32(DecimalValue(ds + [c]))
  {
    var ds' := ds + [c];
    assert ds'[..|ds'| - 1] == ds;
    Wrap32Accumulate(DecimalValue(ds), c as int - '0' as int);
  }

  /** With the corrected parse, `c5` asks for five lines of context. */
  lemma IntendedCountAfterLetter()
    ensures IntendedCount("c5") == 5
  {
    assert "c5"[..1] == "c";
    assert "c"[..0] == "";
    assert Digits("c5") == "5";
    assert "5"[..0] == "";
    Wrap32Unique(5, 5);
  }

  /** With the corrected parse, the count does not depend on which other
      flags surround the digits. */
  lemma IntendedCountIgnoresLetters(p: string, ds: string, q: string)
    requires forall i :: 0 <= i < |p| ==> !IsDigit(p[i])
    requires forall i :: 0 <= i < |q| ==> !IsDigit(q[i])
    requires forall i :: 0 <= i < |ds| ==> IsDigit(ds[i])
    ensures IntendedCount(p + ds + q) == IntendedCount(ds)
  {
    DigitsOfConcat(p + ds, q);
    DigitsOfConcat(p, ds);
    NoDigitsEmpty(p);
    NoDigitsEmpty(q);
    AllDigitsAreDigits(ds);
    assert Digits(p + ds + q) == ds;
  }

  lemma {:induction false} NoDigitsEmpty(s: string)
    requires forall i :: 0 <= i < |s| ==> !IsDigit(s[i])
    ensures Digits(s) == []
  {
    if s != [] {
      NoDigitsEmpty(s[..|s| - 1]);
    }
  }

  lemma {:induction false} DigitsOfConcat(a: string, b: string)
    ensures Digits(a + b) == Digits(a) + Digits(b)
    decreases |b|
  {
    if b == [] {
      assert a + b == a;
    } else {
      var b' := b[..|b| - 1];
      assert a + b == (a + b') + [b[|b| - 1]];
      DigitsAppend(a + b', b[|b| - 1]);
      DigitsAppend(b', b[|b| - 1]);
      assert b == b' + [b[|b| - 1]];
      DigitsOfConcat(a, b');
    }
  }
}
