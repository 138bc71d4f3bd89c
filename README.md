# p4java diff engine — a Dafny model

This project models the diff engine of p4java, the Java client of the
Perforce server (package `com.perforce.p4java.diff`). The engine compares
two files in four steps:

1. **Tokenizing** (`Sequence.java`). Each file is read through a buffered
   reader (`ReadFile`) and cut into tokens under one of six policies:
   lines, words, word classes, and lines that ignore line-end style (`-dl`),
   runs of blanks (`-db`) or all blanks (`-dw`). A *token table* of
   `VarInfo(hash, offset)` entries results, closed by a sentinel entry at
   the file's end. Two tokens are *probably equal* when their hashes agree.
   They are *equal* when the policy's content walk also accepts them.
2. **Analysis** (`DiffAnalyze.java`). Myers' O(ND) middle-snake search
   (`FindSnake`) splits the edit graph recursively (`LCS`). Runs that are
   probably equal but not equal are split out. The snake list is
   bracketed by empty start and end snakes (`BracketSnake`). Snakes are then
   pushed forward over equal pairs (`ApplyForwardBias`).
3. **Printing** (`Diff.java`). The gaps between consecutive snakes are
   written as normal, context, unified, RCS, HTML or summary output.
4. **Flags** (`DiffFlags.java`). The flag string picks the output type,
   the tokenizing policy, the grid (merge) mode and the context count.

## Modules

| module | file | contents |
|---|---|---|
| `JavaTypes` | `java_types.dfy` | Java's sign-extending `(char) byte`; 32-bit wrap-around; `CHARHASH` (`h * 293 + c`, on `bv32`); decimal printing |
| `Flags` | `diff_flags.dfy` | class `DiffFlags` with the flag parser, and its closed-form specifications |
| `Buffered` | `read_file.dfy` | class `ReadFile`: a read window over the file's bytes (`data`), with `Seek`, `Memcmp`, `Memcpy`, `Memccpy`, `Textcpy` |
| `Tokens` | `tokens.dfy` | the token-table specification of each policy (`Table`), cut points, per-policy hashes |
| `LoadSteps` | `load_steps.dfy` | one lemma per reader iteration: each `Load` loop keeps its reading invariant |
| `Sequences` | `sequence.dfy` | class `Sequence`: the six `Load` loops, the table queries, `Equal` and its byte walks, `CopyLines`, `Dump` |
| `Compare` | `compare.dfy` | what each policy's `Equal` walk decides, as a function of the two tokens' characters |
| `Frontier` | `frontier.dfy` | Myers' geometry: diagonal ranges, the frontier invariant of the forward and reverse vectors |
| `Analyze` | `analyze.dfy` | classes `SymmetricVector` and `DiffAnalyze`: `FindSnake`, `LCS`, `BracketSnake`, `ApplyForwardBias` |
| `ReverseChoice` | `reverse_choice.dfy` | `FindSnake` as a function with both reverse-step choices, and the counterexample of the first finding |
| `Diffs` | `diff.dfy` | class `Diff`: every output format, with specification functions for what each prints |

How things are represented:

- A file is an in-memory `seq<byte>`. The reader's buffer is an `array<byte>`
  that `Read` refills from it.
- Characters are Java `char`s. `JChar` holds UTF-16 code units, so a
  byte ≥ 0x80 sign-extends to 0xFF80–0xFFFF, as `(char) buf[pos]` does.
- The `PrintWriter` is the field `out: seq<JChar>`. Each printing method
  appends to it and states exactly what it appended.
- The linked snake list is the field `snakes: seq<Snake>` of `DiffAnalyze`.
- The `AtomicInteger` cursors are values, returned where the source writes
  through them. This includes `Dump` writing its end line back into a
  snake's field, which is why `DiffRcs` and `DiffHTML` change the snakes.
- `Character.isAlphabetic` is a parameter `alphabetic: JChar -> bool` of
  the word-class policy.

## Model

| member | source | states |
|---|---|---|
| `Flags.DiffFlags.constructor` | src/main/java/com/perforce/p4java/diff/DiffFlags.java:16-111 | with no flags, Normal/Line/Optimal and count 0; otherwise type, policy, grid and count are the closed-form functions of the flag string |
| `Flags.DiffFlags.Apply` | src/main/java/com/perforce/p4java/diff/DiffFlags.java:27-107 | one flag character: its effect on type, policy, grid and the running count, and nothing else |
| `Flags.PrefixStep` | src/main/java/com/perforce/p4java/diff/DiffFlags.java:27-107 | parsing one more character of the flags moves each closed-form result by exactly that character's effect |
| `Flags.LastEffectWins` | src/main/java/com/perforce/p4java/diff/DiffFlags.java:27-71 | a flag setting has value t iff the last character with an effect on it sets t, or none has an effect and t is the default |
| `Flags.TypeLastWins` | src/main/java/com/perforce/p4java/diff/DiffFlags.java:37-71 | the output type is the one named by the last type letter (l/b/w/c/C/h/H/v/n/s/u/U, by their cases), Normal if none |
| `Flags.SequenceLastWins` | src/main/java/com/perforce/p4java/diff/DiffFlags.java:37-71 | the tokenizing policy is the one named by the last policy letter, Line if none |
| `Flags.GridXThenG` | src/main/java/com/perforce/p4java/diff/DiffFlags.java:75-85 | `x` then `g` gives GuardedDiff3, unless the grid was already Guarded |
| `Flags.GridGThenX` | src/main/java/com/perforce/p4java/diff/DiffFlags.java:75-85 | `g` then `x` gives GuardedDiff3, unless the grid was already Diff3 |
| `Flags.GridOptimalIff` | src/main/java/com/perforce/p4java/diff/DiffFlags.java:75-90 | the grid stays Optimal iff no g/G/x/X/t/T character occurs |
| `Flags.GuardedDiff3NeedsBoth` | src/main/java/com/perforce/p4java/diff/DiffFlags.java:75-90 | GuardedDiff3 needs both a g and an x; Guarded needs a g; Diff3 needs an x |
| `Flags.Wrap32Accumulate` | src/main/java/com/perforce/p4java/diff/DiffFlags.java:94-106 | wrapping the count to 32 bits at every step gives the same result as wrapping once at the end |
| `Flags.CountClosedForm` | src/main/java/com/perforce/p4java/diff/DiffFlags.java:92-109 | the count is `Wrap32(lead · 10^k + digits)`: the digits in order, led by −1 when a non-digit came first; `someDigit` is set iff a digit occurred |
| `Flags.CountOfPlainStrings` | src/main/java/com/perforce/p4java/diff/DiffFlags.java:92-109 | an all-digit string gives its decimal value (32-bit); a non-empty string without digits gives −1 |
| `Flags.NoDigitsMeansNone` | src/main/java/com/perforce/p4java/diff/DiffFlags.java:94-106 | no digits collected means no character was a digit |
| `Flags.AllDigitsAreDigits` | src/main/java/com/perforce/p4java/diff/DiffFlags.java:94-106 | an all-digit string is collected whole |
| `Flags.DigitsOfConcat` | src/main/java/com/perforce/p4java/diff/DiffFlags.java:94-106 | the digits of a concatenation are the concatenation of the digits |
| `Flags.CountAfterLetter` | src/main/java/com/perforce/p4java/diff/DiffFlags.java:104-109 | as written, the flags "c5" give the count −5 |
| `Flags.ParseContextCount` | src/main/java/com/perforce/p4java/diff/DiffFlags.java:92-109 | the corrected count loop: the decimal value of the digits alone (32-bit), or −1 when there are none |
| `Flags.IntendedCountAfterLetter` | src/main/java/com/perforce/p4java/diff/DiffFlags.java:104-109 | corrected, the flags "c5" give the count 5 |
| `Flags.IntendedCountIgnoresLetters` | src/main/java/com/perforce/p4java/diff/DiffFlags.java:92-109 | corrected, letters before and after a run of digits do not change the count |
| `JavaTypes.ToChar` | src/main/java/com/perforce/p4java/diff/Sequence.java:38-40 | `(char) b` sign-extends: below 0x80 iff the byte is, and the low eight bits are the byte |
| `JavaTypes.Signed` | src/main/java/com/perforce/p4java/diff/Sequence.java:104-105 | a byte as Java's signed value, in −128..127, congruent to the byte |
| `JavaTypes.ToCharInjective` | src/main/java/com/perforce/p4java/diff/Sequence.java:38-40 | two bytes give the same char iff they are the same byte |
| `JavaTypes.SignedInjective` | src/main/java/com/perforce/p4java/diff/Sequence.java:104-105 | the difference of two signed bytes is 0 iff the bytes are equal |
| `JavaTypes.Wrap32` | src/main/java/com/perforce/p4java/diff/DiffFlags.java:98-106 | Java `int` wrap-around: the result is in the 32-bit range and congruent modulo 2^32 |
| `JavaTypes.Wrap32Unique` | src/main/java/com/perforce/p4java/diff/DiffFlags.java:98-106 | the wrapped value is the only congruent value in the 32-bit range |
| `JavaTypes.HashSnoc` | src/main/java/com/perforce/p4java/diff/Sequence.java:687-689 | the hash of a token with one more character is `CHARHASH` of the shorter token's hash |
| `JavaTypes.HashPair` | src/main/java/com/perforce/p4java/diff/Sequence.java:687-689 | the same for two more characters |
| `JavaTypes.Chars` | src/main/java/com/perforce/p4java/diff/Sequence.java:38-40 | a byte string read as chars, element by element |
| `JavaTypes.CharsSlice` | src/main/java/com/perforce/p4java/diff/Sequence.java:38-40 | reading a slice as chars is the slice of the chars |
| `JavaTypes.CharsAppend` | src/main/java/com/perforce/p4java/diff/Sequence.java:38-40 | reading a concatenation is concatenating the readings |
| `JavaTypes.NatToStringRoundTrip` | src/main/java/com/perforce/p4java/diff/Diff.java:208-211 | `%d` printing: the decimal value of a number's printed digits is the number |
| `Buffered.CopyCount` | src/main/java/com/perforce/p4java/diff/Sequence.java:114-130 | for a non-negative `length`, the smaller of `length` and the `left` bytes remaining; a negative `length` copies nothing |
| `Buffered.ReadFile.constructor` | src/main/java/com/perforce/p4java/diff/Sequence.java:23-28 | an opened file: position 0 over the given data, with a fresh buffer |
| `Buffered.ReadFile.Char` | src/main/java/com/perforce/p4java/diff/Sequence.java:38-40 | the character at the read position is the sign-extended byte at `Tell()` |
| `Buffered.ReadFile.Next` | src/main/java/com/perforce/p4java/diff/Sequence.java:50-52 | one position further |
| `Buffered.ReadFile.Read` | src/main/java/com/perforce/p4java/diff/Sequence.java:231-250 | a refill: with data left, a fresh non-empty window starting at the old end; at the end, returns 0 and changes nothing |
| `Buffered.ReadFile.InMem` | src/main/java/com/perforce/p4java/diff/Sequence.java:252-254 | the bytes left in the window, refilling when empty; 0 iff at the end of the file |
| `Buffered.ReadFile.Eof` | src/main/java/com/perforce/p4java/diff/Sequence.java:62-64 | true iff the position is the file's end; the position is unchanged |
| `Buffered.ReadFile.Get` | src/main/java/com/perforce/p4java/diff/Sequence.java:42-44 | the next character and one step on, or `'\0'` and no move at the end |
| `Buffered.ReadFile.Seek` | src/main/java/com/perforce/p4java/diff/Sequence.java:66-91 | afterwards the position is the requested offset whenever it lies within the data, whether inside the window, ahead of it, or behind it |
| `Buffered.ReadFile.Memcmp` | src/main/java/com/perforce/p4java/diff/Sequence.java:93-112 | 0 iff the compared prefixes agree; otherwise the signed difference at the first differing byte |
| `Buffered.ReadFile.Memcpy` | src/main/java/com/perforce/p4java/diff/Sequence.java:114-130 | copies the next `CopyCount` bytes to the start of `dst`, returns that count and moves past them |
| `Buffered.ReadFile.Memccpy` | src/main/java/com/perforce/p4java/diff/Sequence.java:132-151 | copies up to and including the first byte equal to `c`, within the count; stopping early means that byte was hit |
| `Buffered.ReadFile.Textcpy` | src/main/java/com/perforce/p4java/diff/Sequence.java:176-184 | raw line type: copies `min(dstlen, srclen)` bytes as `Memcpy` does |
| `Buffered.SameCompared` | src/main/java/com/perforce/p4java/diff/Sequence.java:93-112 | when the compare stops after agreeing pairs (count or a side ran out), it returns 0 |
| `Buffered.DifferCompared` | src/main/java/com/perforce/p4java/diff/Sequence.java:104-107 | the first differing pair makes the compare return their signed difference |
| `Buffered.ReadFile.Step` | src/main/java/com/perforce/p4java/diff/Sequence.java:42-44 | `Get` where data is left: the sign-extended byte at the position, one step on, and whether the file has ended |
| `Buffered.ReadFile.Advance` | src/main/java/com/perforce/p4java/diff/Sequence.java:123-124 | moves the position m bytes on within the window |
| `Buffered.ReadFile.Refill` | src/main/java/com/perforce/p4java/diff/Sequence.java:96-100 | a round of the `Memcmp` loop: 0 when either file has ended, else the run length, the least of the count left and both windows |
| `Buffered.ReadFile.CompareRun` | src/main/java/com/perforce/p4java/diff/Sequence.java:102-104 | the inner compare loop: 0 after a run of agreeing pairs, else the signed difference at the first pair that differs |
| `Buffered.ReadFile.CompareChunk` | src/main/java/com/perforce/p4java/diff/Sequence.java:96-109 | one round of `Memcmp`: either both prefixes still agree and the count falls by the run, or the result is the compare's answer |
| `Buffered.ReadFile.CopyRun` | src/main/java/com/perforce/p4java/diff/Sequence.java:123-124 | copies a run of the window to the destination, which keeps holding the file's bytes from the start |
| `Buffered.ReadFile.CopyUntil` | src/main/java/com/perforce/p4java/diff/Sequence.java:142-145 | copies within a run up to and including the first byte equal to `c`; no earlier byte was `c`, and a miss copies the whole run |
| `Buffered.CopiedSlice` | src/main/java/com/perforce/p4java/diff/Sequence.java:123-124 | a destination holding copied bytes has the file's bytes as its prefix |
| `Tokens.CharClass` | src/main/java/com/perforce/p4java/diff/Sequence.java:365-377 | the word-class reader's classes are 1..5; class 1 iff CR and class 5 iff LF |
| `Tokens.Stored` | src/main/java/com/perforce/p4java/diff/Sequence.java:835-841 | `StoreLine`: the open entry gets the hash and a new open entry starts at the position; earlier entries are unchanged |
| `Tokens.StartPartial` | src/main/java/com/perforce/p4java/diff/Sequence.java:758-768 | the table holding only the sentinel `VarInfo(0, 0)` is a correct start of every policy's table |
| `Tokens.StorePartial` | src/main/java/com/perforce/p4java/diff/Sequence.java:835-841 | storing a token's hash at a cut point keeps the table a correct prefix |
| `Tokens.StoreOffsets` | src/main/java/com/perforce/p4java/diff/Sequence.java:835-841 | storing keeps the offsets strictly rising within the file |
| `Tokens.StoreAtCuts` | src/main/java/com/perforce/p4java/diff/Sequence.java:835-841 | storing at a cut point keeps every token starting at a cut point |
| `Tokens.StoreHashes` | src/main/java/com/perforce/p4java/diff/Sequence.java:835-841 | storing the policy hash of the last token keeps every entry's hash right |
| `Tokens.LineCharsSnoc` | src/main/java/com/perforce/p4java/diff/Sequence.java:457-462 | `-dl` hashes every line end (CR, LF, CR LF) as one LF |
| `Tokens.SqueezedSnoc` | src/main/java/com/perforce/p4java/diff/Sequence.java:545-591 | `-db` hashes a run of blanks before text as one space, and trailing blanks and the line end not at all |
| `Tokens.StrippedSnoc` | src/main/java/com/perforce/p4java/diff/Sequence.java:653-684 | `-dw` hashes no blanks and no line end |
| `Tokens.RawHashIs` | src/main/java/com/perforce/p4java/diff/Sequence.java:300-343 | the hash accumulated by the line and word readers is the `CHARHASH` of the token's characters |
| `Tokens.LineHashIs` | src/main/java/com/perforce/p4java/diff/Sequence.java:449-476 | the `-dl` hash is the hash of the line with its line end made LF |
| `Tokens.SqueezeHashIs` | src/main/java/com/perforce/p4java/diff/Sequence.java:545-591 | the `-db` hash is the hash of the line with its blank runs squeezed |
| `Tokens.StripHashIs` | src/main/java/com/perforce/p4java/diff/Sequence.java:653-684 | the `-dw` hash is the hash of the line with all blanks stripped |
| `Tokens.ClosedHashIs` | src/main/java/com/perforce/p4java/diff/Sequence.java:300-684 | the closed-form hash of every policy is the hash of the token's hashed characters |
| `Tokens.StoreClosed` | src/main/java/com/perforce/p4java/diff/Sequence.java:835-841 | storing the closed-form hash at a cut keeps the table a correct prefix |
| `LoadSteps.RawStep` | src/main/java/com/perforce/p4java/diff/Sequence.java:305-318 | one iteration of the line or word reader keeps its invariant; the last one completes the table |
| `LoadSteps.RawStore` | src/main/java/com/perforce/p4java/diff/Sequence.java:311-317 | storing at LF (lines), at a space (words) or at the end is storing at a cut |
| `LoadSteps.ClassBreakIsCut` | src/main/java/com/perforce/p4java/diff/Sequence.java:379-390 | the word-class reader stores exactly at cut points: a class change, with CR LF kept together |
| `LoadSteps.ClassStep` | src/main/java/com/perforce/p4java/diff/Sequence.java:362-396 | one iteration of the word-class loop keeps its invariant |
| `LoadSteps.ClassStore` | src/main/java/com/perforce/p4java/diff/Sequence.java:385-392 | a store at a class change keeps the invariant, and the new token starts with this character |
| `LoadSteps.ClassFinish` | src/main/java/com/perforce/p4java/diff/Sequence.java:396-398 | the final store completes the word-class table |
| `LoadSteps.DashLStep` | src/main/java/com/perforce/p4java/diff/Sequence.java:453-475 | one iteration of the `-dl` reader keeps its invariant |
| `LoadSteps.DashLPair` | src/main/java/com/perforce/p4java/diff/Sequence.java:457-474 | CR LF is one line end, hashed as LF |
| `LoadSteps.DashLLast` | src/main/java/com/perforce/p4java/diff/Sequence.java:466-474 | a last line without a line end is hashed with an LF added |
| `LoadSteps.DashLBreak` | src/main/java/com/perforce/p4java/diff/Sequence.java:457-474 | a lone CR or LF ends the line, hashed as LF |
| `LoadSteps.DashBStep` | src/main/java/com/perforce/p4java/diff/Sequence.java:549-590 | one iteration of the `-db` reader keeps its invariant |
| `LoadSteps.DashBPlain` | src/main/java/com/perforce/p4java/diff/Sequence.java:549-590 | a non-blank character keeps the `-db` invariant |
| `LoadSteps.DashBBlank` | src/main/java/com/perforce/p4java/diff/Sequence.java:549-590 | a blank run keeps the `-db` invariant |
| `LoadSteps.BlankTailHash` | src/main/java/com/perforce/p4java/diff/Sequence.java:549-590 | after a blank run, the next character's hash step is the squeezed hash of the longer line |
| `LoadSteps.DashWStep` | src/main/java/com/perforce/p4java/diff/Sequence.java:657-683 | one iteration of the `-dw` reader keeps its invariant |
| `LoadSteps.TailStep` | src/main/java/com/perforce/p4java/diff/Sequence.java:549-590 | the line-end handling shared by `-db` and `-dw` keeps their invariant |
| `LoadSteps.TailPair` | src/main/java/com/perforce/p4java/diff/Sequence.java:549-590 | CR LF ends one `-db`/`-dw` line |
| `LoadSteps.BlankExtend` | src/main/java/com/perforce/p4java/diff/Sequence.java:549-590 | skipping blanks never passes a cut point |
| `LoadSteps.SqueezeHashBlank` | src/main/java/com/perforce/p4java/diff/Sequence.java:549-590 | skipped blanks do not change the `-db` hash |
| `LoadSteps.StripHashBlank` | src/main/java/com/perforce/p4java/diff/Sequence.java:657-683 | skipped blanks do not change the `-dw` hash |
| `Sequences.Sequence.constructor` | src/main/java/com/perforce/p4java/diff/Sequence.java:724-769 | picks the reader for the policy, opens the file, starts the table with the sentinel and loads it: the table is the file's token table |
| `Sequences.Sequence.StoreLine` | src/main/java/com/perforce/p4java/diff/Sequence.java:835-841 | the table becomes `Stored(old table, h, Tell())` |
| `Sequences.Sequence.Load` | src/main/java/com/perforce/p4java/diff/Sequence.java:768 | after loading, the table is exactly the token table of the file under the policy |
| `Sequences.Sequence.LoadRaw` | src/main/java/com/perforce/p4java/diff/Sequence.java:300-343 | the line and word readers build the token table |
| `Sequences.Sequence.LoadWClass` | src/main/java/com/perforce/p4java/diff/Sequence.java:352-399 | the word-class reader builds the token table |
| `Sequences.Sequence.LoadDashL` | src/main/java/com/perforce/p4java/diff/Sequence.java:449-476 | the `-dl` reader builds the token table |
| `Sequences.Sequence.LoadDashB` | src/main/java/com/perforce/p4java/diff/Sequence.java:545-591 | the `-db` reader builds the token table |
| `Sequences.Sequence.LoadDashW` | src/main/java/com/perforce/p4java/diff/Sequence.java:653-684 | the `-dw` reader builds the token table |
| `Sequences.Sequence.RawIteration` | src/main/java/com/perforce/p4java/diff/Sequence.java:305-318 | one pass of the line and word loop: reads a character and stores the token when it ends |
| `Sequences.Sequence.ClassRound` | src/main/java/com/perforce/p4java/diff/Sequence.java:362-396 | one pass of the word-class loop keeps the reader's state right one character further |
| `Sequences.Sequence.ClassIteration` | src/main/java/com/perforce/p4java/diff/Sequence.java:362-396 | one pass of the word-class loop, as the step `ClassNext` of the token table |
| `Sequences.Sequence.DashLIteration` | src/main/java/com/perforce/p4java/diff/Sequence.java:453-475 | one pass of the `-dl` loop, with CR LF read as one line end |
| `Sequences.Sequence.DashBBlanks` | src/main/java/com/perforce/p4java/diff/Sequence.java:555-573 | a blank run in `-db`: skipped, hashed as one space unless a line end or the end of the file follows |
| `Sequences.Sequence.SkipBlanks` | src/main/java/com/perforce/p4java/diff/Sequence.java:558-559 | moves past the blanks after the position |
| `Sequences.Sequence.DashWIteration` | src/main/java/com/perforce/p4java/diff/Sequence.java:657-683 | one pass of the `-dw` loop: blanks skipped, the rest hashed, the line stored at its end |
| `Sequences.Sequence.LineEnd` | src/main/java/com/perforce/p4java/diff/Sequence.java:575-589 | the tail of a `-db`/`-dw` pass: pairs CR with LF, hashes a non-line-end and stores the line at its end or at the end of the file |
| `Sequences.Sequence.SkipPairedLF` | src/main/java/com/perforce/p4java/diff/Sequence.java:578-579 | moves one step on iff the character was CR and LF follows |
| `Sequences.Sequence.StoreAtEnd` | src/main/java/com/perforce/p4java/diff/Sequence.java:586-589 | stores the line iff it ended or the file did, restarting the hash |
| `Sequences.Sequence.Off` | src/main/java/com/perforce/p4java/diff/Sequence.java:848-850 | a token's offset: 0 for the first, the file's length for the sentinel, rising in between |
| `Sequences.Sequence.TableBounds` | src/main/java/com/perforce/p4java/diff/Sequence.java:771-773 | `Lines()` is the table size less one; offsets run from 0 to the file's length, strictly rising |
| `Sequences.Sequence.TokensTile` | src/main/java/com/perforce/p4java/diff/Sequence.java:771-773 | the first m tokens concatenate to the file's first `Off(m)` characters |
| `Sequences.Sequence.Span` | src/main/java/com/perforce/p4java/diff/Sequence.java:818-820 | the characters between two offsets are the tokens between them |
| `Sequences.Sequence.Length` | src/main/java/com/perforce/p4java/diff/Sequence.java:814-816 | a token's length, which is positive |
| `Sequences.Sequence.LengthBetween` | src/main/java/com/perforce/p4java/diff/Sequence.java:818-820 | the length of the tokens l..m, at least m − l |
| `Sequences.Sequence.OffsetsRise` | src/main/java/com/perforce/p4java/diff/Sequence.java:818-820 | `Off(m) − Off(l)` is the total length of tokens l..m |
| `Sequences.Sequence.LengthLeft` | src/main/java/com/perforce/p4java/diff/Sequence.java:822-824 | what is left of token l past the read position |
| `Sequences.Sequence.SeekLine` | src/main/java/com/perforce/p4java/diff/Sequence.java:775-777 | the read position becomes the token's offset |
| `Sequences.Sequence.SameCharsProbablyEqual` | src/main/java/com/perforce/p4java/diff/Sequence.java:831-833 | tokens with the same hashed characters are probably equal |
| `Sequences.Sequence.Equal` | src/main/java/com/perforce/p4java/diff/Sequence.java:826-829 | equal iff probably equal and the policy's walk accepts the two tokens |
| `Sequences.Sequence.EqualIffSameChars` | src/main/java/com/perforce/p4java/diff/Sequence.java:826-833 | for every policy but `-dl`, Equal holds iff the tokens' hashed characters agree |
| `Sequences.Sequence.EqualAcceptsSameLines` | src/main/java/com/perforce/p4java/diff/Sequence.java:404-447 | `-dl`: lines differing at most in their line-end style are Equal |
| `Sequences.Sequence.DashLLengthsApart` | src/main/java/com/perforce/p4java/diff/Sequence.java:415-416 | `-dl`: lines whose lengths differ by more than one are never Equal |
| `Sequences.Sequence.BytesEqual` | src/main/java/com/perforce/p4java/diff/Sequence.java:285-298 | the line, word and word-class readers' Equal: the two tokens' bytes are identical |
| `Sequences.Sequence.DashLEqual` | src/main/java/com/perforce/p4java/diff/Sequence.java:404-447 | the `-dl` reader's Equal computes the `-dl` walk on the two tokens |
| `Sequences.Sequence.BlankEqual` | src/main/java/com/perforce/p4java/diff/Sequence.java:489-543 | the `-db` reader's Equal computes the `-db` walk on the two tokens |
| `Sequences.Sequence.WhiteEqual` | src/main/java/com/perforce/p4java/diff/Sequence.java:602-651 | the `-dw` reader's Equal computes the `-dw` walk on the two tokens |
| `Sequences.Sequence.CopyLines` | src/main/java/com/perforce/p4java/diff/Sequence.java:779-796 | copies at most `length` bytes, stopping at the start of token m (m clamped to `Lines()`); returns `CopyCount` of that, the bytes copied are the file's next bytes, and the line cursor becomes m once the position reaches its start |
| `Sequences.Sequence.Dump` | src/main/java/com/perforce/p4java/diff/Sequence.java:798-812 | writes the characters from the position to the start of token m; returns true iff nothing was written or the last was LF |
| `Sequences.Sequence.DumpPiece` | src/main/java/com/perforce/p4java/diff/Sequence.java:803-807 | one 1024-byte round of Dump: writes the next piece; an empty round means the end was reached |
| `Sequences.Sequence.DumpsToken` | src/main/java/com/perforce/p4java/diff/Sequence.java:798-812 | dumping from `Off(l)` to l+1 writes exactly token l |
| `Sequences.CommonWalk` | src/main/java/com/perforce/p4java/diff/Sequence.java:423-438 | the `-dl` loop stops at the first difference, with the last characters read |
| `Sequences.LineWalk` | src/main/java/com/perforce/p4java/diff/Sequence.java:420-446 | the `-dl` walk over two readers returns the `-dl` decision |
| `Sequences.BlankWalker` | src/main/java/com/perforce/p4java/diff/Sequence.java:489-543 | the `-db` walk over two readers returns the `-db` decision |
| `Sequences.BlankRound` | src/main/java/com/perforce/p4java/diff/Sequence.java:498-535 | one round of the `-db` loop is one step of its decision |
| `Sequences.WhiteWalker` | src/main/java/com/perforce/p4java/diff/Sequence.java:602-651 | the `-dw` walk over two readers returns the `-dw` decision |
| `Sequences.WhiteRound` | src/main/java/com/perforce/p4java/diff/Sequence.java:611-643 | one round of the `-dw` loop is one step of its decision |
| `Sequences.BlankWalkRounds` | src/main/java/com/perforce/p4java/diff/Sequence.java:498-543 | the `-db` decision unrolls round by round |
| `Sequences.WhiteWalkRounds` | src/main/java/com/perforce/p4java/diff/Sequence.java:611-651 | the `-dw` decision unrolls round by round |
| `Sequences.ComparedZero` | src/main/java/com/perforce/p4java/diff/Sequence.java:297 | a full-length `Memcmp` returns 0 iff the byte runs are equal |
| `Sequences.SameChars` | src/main/java/com/perforce/p4java/diff/Sequence.java:297 | equal byte runs iff equal character runs |
| `Sequences.CommonFromIs` | src/main/java/com/perforce/p4java/diff/Sequence.java:425-438 | the `-dl` loop's stopping point is the end of the common prefix |
| `Sequences.ReadAt` | src/main/java/com/perforce/p4java/diff/Sequence.java:501 | reads the token's next character |
| `Sequences.StartWalk` | src/main/java/com/perforce/p4java/diff/Sequence.java:498-501 | the walk starts at the token's first character, with its length left |
| `Sequences.StepWalk` | src/main/java/com/perforce/p4java/diff/Sequence.java:528-531 | one step along a token: one character further, one fewer left |
| `Sequences.SkipWhite` | src/main/java/com/perforce/p4java/diff/Sequence.java:513-516 | skips a token's blanks, stopping at the next non-blank or its end |
| `Sequences.SkipTrailing` | src/main/java/com/perforce/p4java/diff/Sequence.java:536-540 | nothing is left iff the rest of the token is blanks and line ends |
| `Sequences.SkipBoth` | src/main/java/com/perforce/p4java/diff/Sequence.java:511-519 | skips the blanks of both tokens |
| `Sequences.StepBoth` | src/main/java/com/perforce/p4java/diff/Sequence.java:528-531 | steps both tokens one character on |
| `Compare.CommonFrom` | src/main/java/com/perforce/p4java/diff/Sequence.java:425-438 | the first position where two tokens differ or one ends |
| `Compare.DashLWalk` | src/main/java/com/perforce/p4java/diff/Sequence.java:404-447 | acceptance implies the lengths differ by at most one |
| `Compare.BodyEnd` | src/main/java/com/perforce/p4java/diff/Sequence.java:480-483 | where a line's body ends: at its first CR or LF |
| `Compare.TokenShaped` | src/main/java/com/perforce/p4java/diff/Sequence.java:449-684 | each `-dl`/`-db`/`-dw` token is one line: its only line end is its last character, or CR LF |
| `Compare.SqueezedConcat` | src/main/java/com/perforce/p4java/diff/Sequence.java:545-591 | squeezing a concatenation: the parts squeezed, joined by the space a boundary blank run makes |
| `Compare.BlankWalkIff` | src/main/java/com/perforce/p4java/diff/Sequence.java:489-543 | the `-db` walk accepts two lines iff their squeezed forms are equal |
| `Compare.StrippedConcat` | src/main/java/com/perforce/p4java/diff/Sequence.java:653-684 | stripping a concatenation is concatenating the stripped parts |
| `Compare.WhiteWalkIff` | src/main/java/com/perforce/p4java/diff/Sequence.java:602-651 | the `-dw` walk accepts two lines iff their stripped forms are equal |
| `Compare.DashLHashed` | src/main/java/com/perforce/p4java/diff/Sequence.java:449-476 | the `-dl` hashed form of a line is its body followed by LF |
| `Compare.LineEndsEqualIff` | src/main/java/com/perforce/p4java/diff/Sequence.java:412-416 | lines equal up to line-end style iff their lengths differ by at most one and their bodies agree |
| `Compare.LineEndsEqualHashed` | src/main/java/com/perforce/p4java/diff/Sequence.java:449-476 | lines equal up to line-end style have the same `-dl` hashed form |
| `Compare.DashLWalkAcceptsIntended` | src/main/java/com/perforce/p4java/diff/Sequence.java:404-447 | the `-dl` walk accepts every pair of lines that differ only in line-end style |
| `Compare.SameTokenIff` | src/main/java/com/perforce/p4java/diff/Sequence.java:285-298 | for every policy but `-dl`, the walk accepts iff the hashed forms are equal |
| `Compare.DashLWalkAcceptsNul` | src/main/java/com/perforce/p4java/diff/Sequence.java:423-446 | as written, the `-dl` walk accepts the line LF against NUL LF, which hash alike but differ in their bodies |
| `Frontier.MapXToY` | src/main/java/com/perforce/p4java/diff/DiffAnalyze.java:464-470 | the y of x on a diagonal: `(x − ox) − (y − oy)` is the diagonal |
| `Frontier.InFBounds` | src/main/java/com/perforce/p4java/diff/DiffAnalyze.java:333-334 | a forward diagonal of step d lies within −d..d |
| `Frontier.InRMirror` | src/main/java/com/perforce/p4java/diff/DiffAnalyze.java:333-336 | the reverse range is the forward range mirrored |
| `Frontier.Neighbours` | src/main/java/com/perforce/p4java/diff/DiffAnalyze.java:345-350 | the neighbour diagonals the forward step reads are in the previous step's range |
| `Frontier.ForwardTestRange` | src/main/java/com/perforce/p4java/diff/DiffAnalyze.java:366-374 | the odd-delta overlap test is exactly "the diagonal is in the reverse range of step d−1" |
| `Frontier.ReverseTestRange` | src/main/java/com/perforce/p4java/diff/DiffAnalyze.java:417 | the even-delta overlap test is exactly "the diagonal is in the forward range of step d" |
| `Frontier.ForwardRead` | src/main/java/com/perforce/p4java/diff/DiffAnalyze.java:347-350 | the forward step's start is the furthest reaching of "down" and "right" |
| `Frontier.ReverseRead` | src/main/java/com/perforce/p4java/diff/DiffAnalyze.java:403-406 | the corrected reverse step's start is the furthest reaching of "up" and "left" |
| `Frontier.CloseStep` | src/main/java/com/perforce/p4java/diff/DiffAnalyze.java:345-392 | a step that stored every diagonal of its range re-establishes the frontier invariant |
| `Frontier.PartialDone` | src/main/java/com/perforce/p4java/diff/DiffAnalyze.java:345-392 | finishing the k loop establishes the invariant for step d |
| `Frontier.ReturnInside` | src/main/java/com/perforce/p4java/diff/DiffAnalyze.java:361-388 | where the two searches overlap, the start lies in the rectangle and on neither corner |
| `Frontier.HitInside` | src/main/java/com/perforce/p4java/diff/DiffAnalyze.java:378-386 | a snake returned on an overlap lies in the rectangle, off both corners |
| `Frontier.InitInv` | src/main/java/com/perforce/p4java/diff/DiffAnalyze.java:295-297 | the D = 0 vectors satisfy the invariant |
| `Frontier.StartAsWritten` | src/main/java/com/perforce/p4java/diff/DiffAnalyze.java:403-406 | the as-written reverse choice agrees with the corrected one on the range's ends and diagonal 0, and when `rV[1]` and `rV[k+1]` compare alike against `rV[k−1]` |
| `Frontier.AsWrittenFallsBehind` | src/main/java/com/perforce/p4java/diff/DiffAnalyze.java:403 | on a valid frontier of a 5 × 11 rectangle, the as-written choice starts at column 3 where the furthest reach is 5 |
| `Analyze.SymmetricVector.constructor` | src/main/java/com/perforce/p4java/diff/DiffAnalyze.java:17-20 | half size 0 and no cells |
| `Analyze.SymmetricVector.Set` | src/main/java/com/perforce/p4java/diff/DiffAnalyze.java:26-28 | cell `halfSize + k` gets v; the rest is unchanged |
| `Analyze.SymmetricVector.Resize` | src/main/java/com/perforce/p4java/diff/DiffAnalyze.java:30-33 | a fresh vector of `2·h + 1` zeros |
| `Analyze.InitialMaxD` | src/main/java/com/perforce/p4java/diff/DiffAnalyze.java:91-107 | `min(sLimit / max(avg, 1), avg)`, raised to at least 42, with sLimit chosen by size and fast mode |
| `Analyze.SmallFilesSearchFully` | src/main/java/com/perforce/p4java/diff/DiffAnalyze.java:91-107 | below the threshold and without fast mode, maxD covers half the total line count |
| `Analyze.DiffAnalyze.constructor` | src/main/java/com/perforce/p4java/diff/DiffAnalyze.java:52-58 | over the two hash tables and the policy's Equal, with the depth limit of `InitialMaxD`: leaves a sorted snake list from (0, 0) to (|a|, |b|) in which no snake but the last can be extended |
| `Analyze.DiffAnalyze.Init` | src/main/java/com/perforce/p4java/diff/DiffAnalyze.java:60-148 | sets maxD, and leaves a bracketed, ordered, matched snake list in which no snake but the last can still be extended |
| `Analyze.DiffAnalyze.SameDiagonal` | src/main/java/com/perforce/p4java/diff/DiffAnalyze.java:258-274 | hash matches along a diagonal hold from any point on it |
| `Analyze.DiffAnalyze.FollowDiagonal` | src/main/java/com/perforce/p4java/diff/DiffAnalyze.java:258-265 | advances along the diagonal over probably-equal pairs, stops inside the bounds, at the first mismatch |
| `Analyze.DiffAnalyze.FollowReverseDiagonal` | src/main/java/com/perforce/p4java/diff/DiffAnalyze.java:267-274 | retreats along the diagonal over probably-equal pairs, stops inside the bounds, at the first mismatch |
| `Analyze.DiffAnalyze.LCS` | src/main/java/com/perforce/p4java/diff/DiffAnalyze.java:472-552 | appends to the list a chain of matched snakes that runs forward through the rectangle, keeping what was there |
| `Analyze.DiffAnalyze.SplitSnake` | src/main/java/com/perforce/p4java/diff/DiffAnalyze.java:498-531 | splits a snake into ordered runs on its diagonal that cover exactly its Equal pairs |
| `Analyze.DiffAnalyze.RunsChain` | src/main/java/com/perforce/p4java/diff/DiffAnalyze.java:498-531 | the split runs form a chain within the snake |
| `Analyze.DiffAnalyze.ChainJoin` | src/main/java/com/perforce/p4java/diff/DiffAnalyze.java:476-551 | the chains before, on and after the middle snake join into one chain |
| `Analyze.DiffAnalyze.BracketSnake` | src/main/java/com/perforce/p4java/diff/DiffAnalyze.java:173-218 | from a chain of snakes through the whole comparison, a sorted list from (0, 0) to (|a|, |b|) that keeps the old snakes and adds at most two empty ones |
| `Analyze.DiffAnalyze.ApplyForwardBias` | src/main/java/com/perforce/p4java/diff/DiffAnalyze.java:220-256 | every snake descends from an old one (grown at its end, or trimmed at its front and dropped when used up); none but the last can still be extended; matched length never shrinks |
| `Analyze.DiffAnalyze.ExtendSnake` | src/main/java/com/perforce/p4java/diff/DiffAnalyze.java:231-254 | the inner loop: snake i is extended as far as it goes, and its successor trimmed or unlinked in step |
| `Analyze.DiffAnalyze.ExtendStepKeeps` | src/main/java/com/perforce/p4java/diff/DiffAnalyze.java:234-252 | one extension step keeps the list ordered and matched |
| `Analyze.DiffAnalyze.ExtendStepDescends` | src/main/java/com/perforce/p4java/diff/DiffAnalyze.java:234-252 | one extension step keeps each snake a descendant of its original |
| `Analyze.DiffAnalyze.GrowDescends` | src/main/java/com/perforce/p4java/diff/DiffAnalyze.java:234-235 | growing a snake keeps it a descendant |
| `Analyze.DiffAnalyze.ShrinkDescends` | src/main/java/com/perforce/p4java/diff/DiffAnalyze.java:239-242 | trimming the next snake's front keeps it a descendant |
| `Analyze.DiffAnalyze.UnlinkDescends` | src/main/java/com/perforce/p4java/diff/DiffAnalyze.java:246-251 | unlinking a used-up snake drops exactly that original |
| `Analyze.DiffAnalyze.FindSnake` | src/main/java/com/perforce/p4java/diff/DiffAnalyze.java:276-462 | the snake lies in the rectangle and neither starts at its end corner nor ends at its start corner, so LCS always shrinks |
| `Analyze.DiffAnalyze.Search` | src/main/java/com/perforce/p4java/diff/DiffAnalyze.java:331-439 | the d loop: a snake found on an overlap lies in the rectangle, off the corners |
| `Analyze.DiffAnalyze.MiddleSnake` | src/main/java/com/perforce/p4java/diff/DiffAnalyze.java:447-457 | past maxD: the snake through the rectangle's midpoint, extended both ways |
| `Analyze.DiffAnalyze.ForwardPass` | src/main/java/com/perforce/p4java/diff/DiffAnalyze.java:345-392 | the forward k loop: a hit (odd delta only) lies in the rectangle; otherwise the forward frontier invariant holds for step d |
| `Analyze.DiffAnalyze.ForwardDiagonal` | src/main/java/com/perforce/p4java/diff/DiffAnalyze.java:347-391 | one forward diagonal: a hit lies in the rectangle; otherwise the partial invariant extends past k |
| `Analyze.DiffAnalyze.ForwardStart` | src/main/java/com/perforce/p4java/diff/DiffAnalyze.java:347-350 | the forward start is the furthest reaching neighbour |
| `Analyze.DiffAnalyze.ForwardStore` | src/main/java/com/perforce/p4java/diff/DiffAnalyze.java:391 | storing the snake's end extends the partial invariant |
| `Analyze.DiffAnalyze.ForwardOverlap` | src/main/java/com/perforce/p4java/diff/DiffAnalyze.java:361-388 | the odd-delta overlap test: a hit is on a diagonal of the reverse range; a miss leaves the point before the reverse frontier |
| `Analyze.DiffAnalyze.ForwardHit` | src/main/java/com/perforce/p4java/diff/DiffAnalyze.java:378-386 | the snake returned by the forward search lies in the rectangle, off the corners |
| `Analyze.DiffAnalyze.ReversePass` | src/main/java/com/perforce/p4java/diff/DiffAnalyze.java:401-433 | the reverse k loop: a hit (even delta only) lies in the rectangle; otherwise the reverse invariant holds for step d |
| `Analyze.DiffAnalyze.ReverseDiagonal` | src/main/java/com/perforce/p4java/diff/DiffAnalyze.java:403-432 | one reverse diagonal: a hit lies in the rectangle; otherwise the partial invariant extends |
| `Analyze.DiffAnalyze.ReverseStart` | src/main/java/com/perforce/p4java/diff/DiffAnalyze.java:403-406 | corrected: the reverse start is the furthest reaching neighbour (testing `rV[k−1]`) |
| `Analyze.DiffAnalyze.ReverseFollow` | src/main/java/com/perforce/p4java/diff/DiffAnalyze.java:403-410 | the reverse start followed back along its diagonal over probably-equal pairs |
| `Analyze.DiffAnalyze.ReverseStore` | src/main/java/com/perforce/p4java/diff/DiffAnalyze.java:432 | storing the snake's start extends the partial invariant |
| `Analyze.DiffAnalyze.ReverseOverlap` | src/main/java/com/perforce/p4java/diff/DiffAnalyze.java:415-430 | the even-delta overlap test: a hit is on a forward diagonal; a miss leaves the point past the forward frontier |
| `Analyze.DiffAnalyze.ReverseHit` | src/main/java/com/perforce/p4java/diff/DiffAnalyze.java:421-428 | the snake returned by the reverse search lies in the rectangle, off the corners |
| `Analyze.DiffAnalyze.SnakeInside` | src/main/java/com/perforce/p4java/diff/DiffAnalyze.java:301-329 | the initial prefix and suffix snakes lie in the rectangle, off the corners |
| `Analyze.ForwardStored` | src/main/java/com/perforce/p4java/diff/DiffAnalyze.java:391 | `fV.Set(k, u)` at the slot the invariant expects |
| `Analyze.ReverseStored` | src/main/java/com/perforce/p4java/diff/DiffAnalyze.java:432 | `rV.Set(k, x)` at the slot the invariant expects |
| `Analyze.RemoveDescends` | src/main/java/com/perforce/p4java/diff/DiffAnalyze.java:250-251 | removing a used-up snake keeps the others descendants |
| `ReverseChoice.Follow` | src/main/java/com/perforce/p4java/diff/DiffAnalyze.java:258-265 | FollowDiagonal as a function; a hash lookup outside the file is an error |
| `ReverseChoice.FollowBack` | src/main/java/com/perforce/p4java/diff/DiffAnalyze.java:267-274 | FollowReverseDiagonal as a function, with the same error |
| `ReverseChoice.AsWrittenLeavesRectangle` | src/main/java/com/perforce/p4java/diff/DiffAnalyze.java:403 | on token files `a a b b b` / `b b b b b a a b b a a`, the as-written search returns the snake at (−1, 4), the corrected one at (0, 4), and the next search from (−1, 4) fails |
| `Diffs.Hunks` | src/main/java/com/perforce/p4java/diff/Diff.java:190-194 | the gaps between consecutive snakes, one per pair |
| `Diffs.OrderedFit` | src/main/java/com/perforce/p4java/diff/Diff.java:190-221 | the gaps of an ordered snake list lie within both files |
| `Diffs.Rebuilds` | src/main/java/com/perforce/p4java/diff/Diff.java:186-222 | from any snake on, applying the gaps to file 1 gives the rest of file 2 |
| `Diffs.RebuildsAll` | src/main/java/com/perforce/p4java/diff/Diff.java:224-240 | the gaps, and the RCS script made from them, turn file 1 into file 2 |
| `Diffs.HeaderIs` | src/main/java/com/perforce/p4java/diff/Diff.java:208-212 | the normal header: `n` or `n,end`, the op letter, then `m` or `m,end` |
| `Diffs.NormPrintsChanges` | src/main/java/com/perforce/p4java/diff/Diff.java:196-220 | an empty gap prints nothing; otherwise the op is c iff both sides changed, d iff only file 1, a iff only file 2 |
| `Diffs.RcsPatches` | src/main/java/com/perforce/p4java/diff/Diff.java:224-240 | applying the RCS commands of the gaps rebuilds the patched file |
| `Diffs.TallyBuckets` | src/main/java/com/perforce/p4java/diff/Diff.java:282-296 | each non-empty gap falls in exactly one bucket; line counts add up to both sides' widths; the RCS script has one command per deleted or added chunk and two per changed chunk |
| `Diffs.HtmlShowsOld` | src/main/java/com/perforce/p4java/diff/Diff.java:242-267 | with the markers and file 2's parts left out, the HTML output is file 1 from the first snake's x to the last snake's x, verbatim |
| `Diffs.HtmlShowsNew` | src/main/java/com/perforce/p4java/diff/Diff.java:242-267 | with the markers and file 1's parts left out, the HTML output is file 2 from the first snake's y to the last snake's y, verbatim, provided the snakes pair identical tokens |
| `Diffs.HtmlKeepsOrder` | src/main/java/com/perforce/p4java/diff/Diff.java:249-261 | the snakes Dump moves for HTML stay ordered |
| `Diffs.RcsKeepsOrder` | src/main/java/com/perforce/p4java/diff/Diff.java:236-237 | the snakes Dump moves for RCS stay ordered |
| `Diffs.RcsEmptiesGaps` | src/main/java/com/perforce/p4java/diff/Diff.java:236-237 | after RCS, each gap's file 2 side starts where it ends |
| `Diffs.HtmlMoved` | src/main/java/com/perforce/p4java/diff/Diff.java:249-261 | the snakes after the HTML loop: as many as before |
| `Diffs.HtmlKeepsLast` | src/main/java/com/perforce/p4java/diff/Diff.java:246-266 | the HTML loop leaves the last snake as it was |
| `Diffs.RcsMoved` | src/main/java/com/perforce/p4java/diff/Diff.java:236-237 | the snakes after the RCS loop: as many as before |
| `Diffs.RcsKeepsLast` | src/main/java/com/perforce/p4java/diff/Diff.java:228-239 | the RCS loop leaves the last snake as it was |
| `Diffs.RcsMovedAt` | src/main/java/com/perforce/p4java/diff/Diff.java:236-237 | the RCS loop moves each snake's file 2 end to the next snake's start, and nothing else |
| `Diffs.SummaryIs` | src/main/java/com/perforce/p4java/diff/Diff.java:298-304 | the three summary lines are the summary text of the tally |
| `Diffs.ContextCount` | src/main/java/com/perforce/p4java/diff/Diff.java:68 | a negative count becomes 3; the count is never negative |
| `Diffs.BlockEnd` | src/main/java/com/perforce/p4java/diff/Diff.java:75-76 | the block runs to the first snake longer than 2c, or to the last |
| `Diffs.ShortMeansLength` | src/main/java/com/perforce/p4java/diff/Diff.java:75 | a snake is absorbed into a block iff its length is at most 2c |
| `Diffs.Clamped` | src/main/java/com/perforce/p4java/diff/Diff.java:80-83 | the block's first line is c before the snake's end, clamped at 0; its last is c after, clamped at the file's length |
| `Diffs.UnifiedRoundIs` | src/main/java/com/perforce/p4java/diff/Diff.java:165-177 | one unified round: context up to the gap, `-` lines of file 1, then `+` lines of file 2 |
| `Diffs.UnifiedShowsOld` | src/main/java/com/perforce/p4java/diff/Diff.java:165-178 | without marks, the context and `-` lines of a block are file 1's lines verbatim |
| `Diffs.UnifiedShowsNew` | src/main/java/com/perforce/p4java/diff/Diff.java:165-178 | without marks, the `+` lines and the matched lines give file 2's lines verbatim |
| `Diffs.SideTextShows` | src/main/java/com/perforce/p4java/diff/Diff.java:97-129 | without marks, each half of a context block is its file's lines verbatim, or empty when the block has no change on that side |
| `Diffs.SideShows` | src/main/java/com/perforce/p4java/diff/Diff.java:97-106 | without marks, the rounds of one half print that file's lines from the start, verbatim |
| `Diffs.WalkLines` | src/main/java/com/perforce/p4java/diff/Diff.java:327-330 | each token from sx to ex, printed after the mark, and whether the last one ended in LF |
| `Diffs.WalkOne` | src/main/java/com/perforce/p4java/diff/Diff.java:327-330 | one pass of the Walker loop: the mark and token i, and whether it ended in LF |
| `Diffs.DumpRun` | src/main/java/com/perforce/p4java/diff/Diff.java:236-237 | seeks to a token and writes the tokens lo..hi |
| `Diffs.DumpFrom` | src/main/java/com/perforce/p4java/diff/Diff.java:251-261 | from the start of token lo, writes the tokens lo..hi |
| `Diffs.HtmlSides` | src/main/java/com/perforce/p4java/diff/Diff.java:249-265 | one HTML round's text, and the snake moved as Dump moves it |
| `Diffs.CountOne` | src/main/java/com/perforce/p4java/diff/Diff.java:285-295 | adds one gap to the counters |
| `Diffs.CountChanges` | src/main/java/com/perforce/p4java/diff/Diff.java:282-296 | the summary counters are the tally of the gaps |
| `Diffs.FindBlockEnd` | src/main/java/com/perforce/p4java/diff/Diff.java:75-76 | the inner loop finds the block's end snake |
| `Diffs.Diff.constructor` | src/main/java/com/perforce/p4java/diff/Diff.java:14-22 | both files loaded under the flags' policy, with the analysis linked to them (its Equal is the policy's Equal); DiffFast's depth limit when asked |
| `Diffs.Diff.SnakeListOrdered` | src/main/java/com/perforce/p4java/diff/Diff.java:187-190 | the analysis's snake list is ordered within both files |
| `Diffs.Diff.SnakesPairEqual` | src/main/java/com/perforce/p4java/diff/Diff.java:14-22 | under the line, word and word-class policies, every snake pairs identical tokens |
| `Diffs.Diff.Rebuilt` | src/main/java/com/perforce/p4java/diff/Diff.java:224-240 | under those policies, the RCS script the analysis yields turns file 1 into file 2 |
| `Diffs.Diff.IdenticalMeansEqual` | src/main/java/com/perforce/p4java/diff/Diff.java:315-319 | a single snake means the files have as many tokens, pairwise the same under the policy |
| `Diffs.Diff.Walker` | src/main/java/com/perforce/p4java/diff/Diff.java:321-334 | prints the marked tokens, then the unified "No newline" note iff the last one lacks LF |
| `Diffs.Diff.NormPrint` | src/main/java/com/perforce/p4java/diff/Diff.java:193-220 | one gap of the normal diff: header, `<` lines, `---` for a change, `>` lines |
| `Diffs.Diff.NormHeaderPrint` | src/main/java/com/perforce/p4java/diff/Diff.java:208-212 | prints the normal header |
| `Diffs.Diff.NormLines` | src/main/java/com/perforce/p4java/diff/Diff.java:216-220 | prints a gap's `<` lines, `---` only for a change, then its `>` lines |
| `Diffs.Diff.DiffNorm` | src/main/java/com/perforce/p4java/diff/Diff.java:186-222 | prints the normal diff of every gap in order |
| `Diffs.Diff.RcsDelete` | src/main/java/com/perforce/p4java/diff/Diff.java:229-232 | prints `d<s.u+1> <count>` and counts one chunk |
| `Diffs.Diff.RcsAppend` | src/main/java/com/perforce/p4java/diff/Diff.java:233-238 | prints `a<t.x> <count>` and file 2's lines, counts one chunk, and moves the snake's end to the gap's end |
| `Diffs.Diff.RcsAddLines` | src/main/java/com/perforce/p4java/diff/Diff.java:233-238 | prints the `a` command with file 2's lines, counts one chunk, and moves the snake's file 2 end |
| `Diffs.Diff.RcsPrint` | src/main/java/com/perforce/p4java/diff/Diff.java:229-238 | one gap's RCS commands |
| `Diffs.Diff.RcsStep` | src/main/java/com/perforce/p4java/diff/Diff.java:228-239 | one pass of the RCS loop keeps the text printed so far plus the rest of the script equal to the whole |
| `Diffs.Diff.DiffRcs` | src/main/java/com/perforce/p4java/diff/Diff.java:224-240 | prints the RCS script of the gaps; the chunk count grows by its length; the snakes are moved as Dump moves them |
| `Diffs.Diff.HtmlPrint` | src/main/java/com/perforce/p4java/diff/Diff.java:249-265 | one round: common text, then file 1's gap in red and file 2's in blue |
| `Diffs.Diff.HtmlStep` | src/main/java/com/perforce/p4java/diff/Diff.java:246-266 | one pass of the HTML loop keeps the text printed so far plus the rest equal to the whole |
| `Diffs.Diff.DiffHTML` | src/main/java/com/perforce/p4java/diff/Diff.java:242-267 | prints the HTML text of every round; the snakes are moved as Dump moves them |
| `Diffs.Diff.DiffSummary` | src/main/java/com/perforce/p4java/diff/Diff.java:269-305 | prints the added, deleted and changed chunk and line counts of the gaps |
| `Diffs.Diff.GetChunkCnt` | src/main/java/com/perforce/p4java/diff/Diff.java:311-313 | the RCS chunk count |
| `Diffs.Diff.IsIdentical` | src/main/java/com/perforce/p4java/diff/Diff.java:315-319 | true iff the list is a single snake; then there are no gaps and the tally is empty |
| `Diffs.Diff.SidePrint` | src/main/java/com/perforce/p4java/diff/Diff.java:95-129 | one file's half of a context block |
| `Diffs.Diff.SideRoundPrint` | src/main/java/com/perforce/p4java/diff/Diff.java:97-106 | one pass of a half's loop: context and marked lines of a gap on that side, and the new start |
| `Diffs.Diff.SideRounds` | src/main/java/com/perforce/p4java/diff/Diff.java:97-106 | the rounds of one half, and where the last one stopped |
| `Diffs.Diff.SideLoop` | src/main/java/com/perforce/p4java/diff/Diff.java:117-126 | the loop over the block's snakes prints the rounds of that half |
| `Diffs.Diff.SideStep` | src/main/java/com/perforce/p4java/diff/Diff.java:97-126 | one pass keeps the text printed so far plus the remaining rounds equal to the whole |
| `Diffs.Diff.ContextPrint` | src/main/java/com/perforce/p4java/diff/Diff.java:78-129 | one context block: stars, the `*** sx,ex ****` half, then the `--- sy,ey ----` half |
| `Diffs.Diff.DiffContext` | src/main/java/com/perforce/p4java/diff/Diff.java:60-131 | prints the context text of every block, with the count made non-negative |
| `Diffs.Diff.UnifiedRoundPrint` | src/main/java/com/perforce/p4java/diff/Diff.java:165-177 | one unified round, and the next start |
| `Diffs.Diff.UnifiedRounds` | src/main/java/com/perforce/p4java/diff/Diff.java:165-178 | the do-loop prints the unified rounds of the block |
| `Diffs.Diff.UnifiedPrint` | src/main/java/com/perforce/p4java/diff/Diff.java:153-182 | one unified block: the `@@ -sx+1,len +sy+1,len @@` header, the rounds, the tail context |
| `Diffs.Diff.DiffUnified` | src/main/java/com/perforce/p4java/diff/Diff.java:133-184 | prints the unified text of every block, with the count made non-negative |
| `Diffs.Diff.DiffWithFlags` | src/main/java/com/perforce/p4java/diff/Diff.java:34-58 | dispatches on the flags' type to the matching format; only RCS changes the chunk count |

## Left out

- Opening and closing files, charsets and `RpcInputStream` (`Sequence.java:23-36`): a file is its bytes, given to the constructor. `Read` refills the window from them and never fails.
- `ReadFile.Prev`, `ReadFile.Memchr` and `ReadFile.Size` (`Sequence.java:46-48, 54-56, 153-174`): nothing in the diff engine calls them.
- `Textcpy`'s CR and CR-LF line types (`Sequence.java:186-227`): `Diff` always uses the raw line type (`Diff.java:342`).
- Buffered.ReadFile.Memcpy: requires `length <= dst.Length`, so the overflow exception a short destination raises in Java is not modelled. Every caller passes a 1024-byte buffer and a count of at most 1024.
- Buffered.ReadFile.Memccpy: the return value is bounded (at least the bytes copied, at most the count), not given exactly. The source subtracts the whole window chunk in which the hit fell.
- Buffered.ReadFile.Seek: for an offset past the end of the data, only the reader's validity is stated.
- `Character.isAlphabetic` is the parameter `alphabetic`. No Unicode table is modelled.
- The copy constructor, `Reuse`, `close` and `deleteFile` of `Sequence` (`Sequence.java:691-722, 856-874`): they only manage file handles.
- `PrintWriter`, `System.lineSeparator`, `SetOutput` and `CloseOutput` (`Diff.java:24-32`): the output is the field `out`, and the line separator is the constructor parameter `newLines`.
- DEBUG tracing and `SymmetricVector.Dump` (`DiffAnalyze.java:35-45` and the `DEBUG_LEVEL` blocks): they only print.
- The linked `Snake` list (`next` pointers, `firstSnake`/`lastSnake`, the in-place unlink at `DiffAnalyze.java:250`) is a `seq<Snake>` field. Node identity and aliasing are not captured.
- `AtomicInteger` cursors are plain values. `Dump`'s write-back through them is modelled where the source uses it (RCS and HTML).
- `DigestTree`, `ReconcileHandle`, `StrStr` and `DigestResult` are not part of this model.
- ReverseChoice.FindSnake: the source throws `IndexOutOfBoundsException` on a hash lookup outside the file. The function model returns `None` there.
- Analyze.DiffAnalyze.FindSnake: states that the snake lies in the rectangle and off its corners, not that it is the middle snake of a shortest edit script.
- Analyze.DiffAnalyze.LCS: states that the appended snakes form a matched chain through the rectangle, not that they are a longest common subsequence. With the maxD cut-off the source does not promise one either.
- Analyze.DiffAnalyze.Init: the analysis is specified over the two files' hash tables and their `Equal`, not over the `ISequence` objects themselves.
- Compare.SameToken: the `-dl` case keeps the walk as written (`DashLWalk`), which also accepts some lines whose bodies differ (see Findings). `LineEndsEqual`, the intended comparison, is defined and proved beside it (`LineEndsEqualIff`, `LineEndsEqualHashed`, `DashLWalkAcceptsIntended`).
- Diffs.Diff.Rebuilt: stated for the line, word and word-class policies only. Under `-dl`, `-db` and `-dw`, equal tokens may differ in their bytes, so the gaps do not rebuild file 2 byte for byte.
- Diffs.Diff.DiffSummary: counts are unbounded integers; Java's `int` counters would wrap only past 2^31 lines.
- `DiffWithFlags`' comment (`Diff.java:35-36`) says a broken count defaults to 0, "then treated as 3". The code turns only negative counts into 3 (`Diff.java:68`, `141`), and the model follows the code.

## Findings

| source | as written | input that shows it | evidently intended | confidence | as-written member | corrected member |
|---|---|---|---|---|---|---|
| src/main/java/com/perforce/p4java/diff/DiffAnalyze.java:403 | the reverse step compares `rV.Get(-1) < rV.Get(k + 1)` | token files `a a b b b` and `b b b b b a a b b a a`: the first FindSnake returns the snake at (−1, 4), outside the rectangle, and the next LCS call looks up hash −1 | `rV.Get(k - 1) < rV.Get(k + 1)`, the mirror of the forward step at line 347 | not executed | `ReverseChoice.AsWrittenLeavesRectangle` | `Analyze.DiffAnalyze.FindSnake` |
| src/main/java/com/perforce/p4java/diff/DiffFlags.java:104-109 | a non-digit seen before any digit leaves the count −1, and digits then accumulate onto it | flags `c5`: count −1·10 + 5 = −5, which `DiffContext` turns into 3 lines of context instead of 5 | the count is the decimal value of the digits | not executed | `Flags.CountAfterLetter` | `Flags.ParseContextCount` |
| src/main/java/com/perforce/p4java/diff/Sequence.java:425-446 | the walk accepts when the character it stopped on is a line end on either side, whatever the other side holds | the line `LF` against the line `NUL LF`: the walk stops at once, the last characters read are `LF` and `NUL`, and it accepts; both lines hash to the same `-dl` hash | lines are equal when they differ only in line-end style | not executed | `Compare.DashLWalkAcceptsNul` | `Compare.LineEndsEqualIff` |
