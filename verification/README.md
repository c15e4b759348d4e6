# Verified models of the text code in the Arduino core and tinyprintf

This project models the four pieces of the firmware's library code that do real text work, and
proves what they promise:

- **`String`** (`libs/arduino/arduino/WString.cpp`): text in a heap buffer, edited in place. `WString.dfy`
  is the class, `CString.dfy` the C library calls it makes and the heap it asks for memory, `Patterns.dfy` what
  an occurrence and a leftmost, non-overlapping replacement are, `Counting.dfy` how many occurrences fit and which
  are taken, and `RightToLeft.dfy` the theory of the growing branch of `replace`, which runs from right to left over
  the text it has already edited.
- **`Stream`** (`libs/arduino/arduino/Stream.cpp`): timed reads over a wrapping clock, the streaming
  search for several strings at once (`findMulti`), and `parseInt`. `Borders.dfy` holds the theory of
  the search, `Stream.dfy` the class, `IntegerText.dfy` the language that `parseInt` reads, and `RoundTrip.dfy`
  printing and parsing put together.
- **Number printers** (`itoa.c`, `Print.cpp`): `Numerals.dfy` defines the one canonical numeral of a
  number in a base, and `Itoa.dfy` and `Print.dfy` the printers that are proved to produce it.
- **tinyprintf** (`libs/tinyprintf/printf.c`): `Format.dfy` is the format language with its decoder and
  printer, `Rendering.dfy` what every directive writes, `RenderingLaws.dfy`, `Denotation.dfy` and `HashFlag.dfy`
  what those texts mean, `Composition.dfy` how the output of a format is made of the outputs of its parts,
  `Standard.dfy`, `StandardHash.dfy` and `StandardOutput.dfy` what the C standard asks for, defined from the directive
  as written and its arguments, and exactly when the code writes it, `Deviations.dfy` an input for each way in which
  it does not, and `Printf.dfy` and `Interpreter.dfy` the code itself, writing through a cursor into a buffer that may be too short.

`WMath.dfy` adds the rescaling function `map`.

The main results, one sentence each:

1. The growing branch of `String::replace` is *not* leftmost replacement in general ("ab" to "bxx" in
   "aab"). For every pattern, replacement and text it is so exactly when each replaced occurrence could not be
   taken later without losing one and does not, once replaced, complete a new match with the text before it
   (`RewriteExact`). For all texts at once that means: the pattern has no border and none of its proper suffixes
   starts the replacement (`GrowingReplaceExact`). The result has the size computed for the buffer, for all texts,
   exactly when no proper suffix starts the replacement (`GrowingLengthExact`), and for each text exactly when the loop
   has as many matches as leftmost replacement (`LoopLength`). The other two branches are
   leftmost replacement for all arguments. A faithful text always ends as its leftmost replacement where that fits
   in the buffer, or is shorter than 2^31 - 1 and the heap grants the one request for it.
2. `findMulti` gives the answer of naive search for every set of targets, reads nothing past the match, and
   costs at most `n * len` comparisons per target; `findUntil` is true exactly when the target
   ends no later than the terminator. Every byte they consume had arrived within the timeout of its own read.
3. Whatever list of longs is written with `println`, `parseInt` reads back that list, each call stopping
   right after the last digit (in wrapping arithmetic: reading a magnitude overflows a signed long exactly from
   2147483600 on, and printing the least long negates it). On every other input too it returns the number of the digits
   it does not ignore, in each look-ahead mode (`ParsedIntExact`).
4. `snprintf_` returns the length of the untruncated output whatever the buffer size, and leaves in the
   buffer what fits of it, a NUL, and otherwise what was there. The output is the concatenation of
   the texts of the format's items, where decoding and printing of formats are each other's inverse; text without a
   percent sign is copied.
5. An integer directive of any format writes the text that section 7.21.6.1 of ISO/IEC 9899:2011 asks for exactly
   under the conditions of `StandardHash.DirectiveExact`. Without '#' they are: width and precision below 2^32; no
   signed byte above 127; a negative starred precision only for a number that is not 0 in a field that is not
   zero-filled; sign, zeros and all the digits within the 32-character conversion buffer (or the one character
   that does not fit is a space sign which the padding supplies anyway); and no precision hidden by left
   alignment. `Deviations.dfy` has a failing input of each kind. The text denotes the converted argument under
   the weaker conditions of `Standard.TextDenotes`. "%c" and "%s" have conditions of the same kind
   (`StandardOutput.CharExact`, `StringExact`), and a format whose items meet them has the standard's output
   (`FormatStandard`).
6. The four digit printers write the same numeral for every 32-bit value and every base they share, and it denotes the
   value; a negative long is signed in base 10 and its two's complement elsewhere.

## Assumptions

A `char` is an unsigned byte, and `int`, `long` and `size_t` are 32 bits wide, as on the Cortex-M
the code is built for. Conversions and unsigned arithmetic wrap modulo 2^32 explicitly
(`Bytes.U32`, `Bytes.I32`). `strstr`, `strrchr`, `strlen` and the copying calls have their sequence
meaning (sections 7.24.2 and 7.24.5 of ISO/IEC 9899:2011), and copies between overlapping areas are taken
as `memmove` copies. A heap meets or refuses each request as a fixed sequence of answers says, which the code
cannot see; requests of 2^31 bytes and more are refused. A `Stream` is a finite sequence of bytes with the tick
at which each arrives; a `Print` is a sink that accepts every byte. Variadic arguments are a list of 32-bit words, 64-bit words
and strings.

Classes, loops and in-place edits of the source are classes, loops and in-place edits here. Each is
proved against a function of the old state, and the lemmas are about that function. Ghost parameters
and results (`falls`, `work`, `times`, `seen`, `h`) exist for specification only.

## Model

| member | source | states |
|---|---|---|
| Patterns.ReplaceIsSplitJoin | libs/arduino/arduino/WString.cpp:645-667 | Leftmost replacement is cutting the text at the pattern and gluing with the replacement; gluing with the pattern itself restores the text |
| Patterns.PiecesHaveNone | libs/arduino/arduino/WString.cpp:645-667 | No piece between the replaced occurrences contains the pattern: nothing that could be replaced is left out |
| Patterns.ReplaceLength | libs/arduino/arduino/WString.cpp:657-673 | The length changes by (replace length − find length) for each replaced occurrence, for every pattern and replacement |
| Patterns.FirstIsLeast | libs/arduino/arduino/WString.cpp:652 | The search for the next occurrence overlooks none |
| Patterns.LastIsGreatest | libs/arduino/arduino/WString.cpp:603-614 | The last occurrence up to an index is the greatest one |
| RightToLeft.RewriteFaithful | libs/arduino/arduino/WString.cpp:676-684 | For every pattern, if nothing crosses the cursor and the text before it is faithful, the right-to-left loop does leftmost replacement before the cursor and leaves the rest alone |
| RightToLeft.FaithfulSplit | libs/arduino/arduino/WString.cpp:676-684 | Faithfulness, which is defined from the left, seen from the right: the last occurrence is one that leftmost replacement takes, it revives nothing, and the text before it is faithful |
| RightToLeft.EqualIsFaithful | libs/arduino/arduino/WString.cpp:676-684 | If the loop ends with the leftmost replacement of a text, none of its matches was one it had itself made possible, and each was the next that leftmost replacement takes |
| RightToLeft.RewriteExact | libs/arduino/arduino/WString.cpp:668-685 | For every pattern, bordered or not, every longer replacement and every text: loop result = leftmost replacement if and only if the text is faithful (no replaced occurrence could be taken later without losing one, and none, once replaced, completes a new match with what stands before it) |
| RightToLeft.ApartIsFaithful | libs/arduino/arduino/WString.cpp:668-685 | Where the occurrences in the text do not overlap it is enough that no occurrence revives another |
| RightToLeft.RewriteLength | libs/arduino/arduino/WString.cpp:669-684 | For every pattern the loop's result is never shorter than the precomputed size |
| RightToLeft.RewriteAllLength | libs/arduino/arduino/WString.cpp:669-684 | For every pattern it has the precomputed size when no occurrence revives another; for an unbordered pattern only then |
| RightToLeft.GrowingLengthExact | libs/arduino/arduino/WString.cpp:669-684 | For all texts at once and every pattern: the loop's result has the precomputed size if and only if no proper suffix of the pattern starts the replacement |
| RightToLeft.LoopLength | libs/arduino/arduino/WString.cpp:669-684 | For every pattern and text, counted on the original text: how long the loop's result is, and that it has the precomputed size if and only if the loop has as many matches as leftmost replacement |
| Counting.CountCut | libs/arduino/arduino/WString.cpp:676-684 | The last occurrence of a text adds exactly one to the number that leftmost replacement takes, whatever it overlaps |
| Counting.ReachSplit | libs/arduino/arduino/WString.cpp:670-673 | The occurrences that leftmost replacement takes up to a place, and those it takes from there on, are all it takes |
| RightToLeft.RewriteAllExact | libs/arduino/arduino/WString.cpp:668-685 | Text by text, for an unbordered pattern: loop result = leftmost replacement if and only if no replaced occurrence is revived by inserted text, if and only if the final length is the precomputed size |
| RightToLeft.GrowingReplaceExact | libs/arduino/arduino/WString.cpp:668-685 | For all texts at once: the loop is leftmost replacement if and only if the pattern has no border and none of its proper suffixes starts the replacement |
| RightToLeft.GraftBreaks | libs/arduino/arduino/WString.cpp:676-684 | For every pattern with a suffix that starts the replacement, a text on which the loop's result is longer than the precomputed size |
| RightToLeft.BorderBreaks | libs/arduino/arduino/WString.cpp:676-684 | For every other pattern with a border, a text on which the loop is wrong |
| RightToLeft.GrowingReplaceFails | libs/arduino/arduino/WString.cpp:668-685 | The concrete failure: "ab" to "bxx" in "aab" re-matches its own output |
| WString.String.Init | libs/arduino/arduino/WString.cpp:133-138 | A new string is valid and has no buffer |
| CString.Heap.Realloc | libs/arduino/arduino/WString.cpp:159 | Fresh memory that starts with the old contents, if and only if the next request is granted and below 2^31; otherwise nothing |
| WString.String.Invalidate | libs/arduino/arduino/WString.cpp:140-145 | The string is valid again and has no buffer and no text |
| WString.String.ChangeBuffer | libs/arduino/arduino/WString.cpp:157-166 | One request; it succeeds if and only if the heap grants it and the size is below 2^31; on success the requested capacity and the old text, on failure nothing changes |
| WString.String.Reserve | libs/arduino/arduino/WString.cpp:147-155 | The text never changes; success if and only if there is a buffer of at least the size already, for which nothing is requested, or the one request for it is granted |
| WString.String.Copy | libs/arduino/arduino/WString.cpp:172-181 | The copied C string, if and only if there is room already or the one request is granted; otherwise no buffer |
| WString.String.Assign | libs/arduino/arduino/WString.cpp:216-224 | The text of the other string, which is unchanged; invalid if and only if the other one is, or there is no room and the request is refused |
| WString.String.Concat | libs/arduino/arduino/WString.cpp:260-274 | The two texts one after the other, if and only if the other string has a buffer and there is nothing to add, room, or a granted request; otherwise failure and the old text |
| WString.String.LastIndexOf | libs/arduino/arduino/WString.cpp:603-614 | The greatest occurrence at or before the index, clamped to the text, or -1, found by searching forward only |
| WString.String.LastIndexOfChar | libs/arduino/arduino/WString.cpp:587-596 | The last such character at or before the index, the answer for the NUL character included; the buffer is as before |
| WString.String.Substring | libs/arduino/arduino/WString.cpp:616-631 | A fresh string with the clamped slice, bounds in either order; invalid exactly when the requests it needs are refused (two, because the new string starts without a buffer and takes an empty text first); this buffer is as before |
| WString.String.ReplaceSame | libs/arduino/arduino/WString.cpp:651-655 | Overwriting each match in place is leftmost replacement of the whole text, for every pattern |
| WString.String.ReplaceShrink | libs/arduino/arduino/WString.cpp:656-667 | Compaction with a read and a write cursor is leftmost replacement of the whole text, for every pattern |
| WString.EditStep | libs/arduino/arduino/WString.cpp:652-666 | One step of either loop keeps: the write cursor is not past the read cursor, unread cells are untouched, and the written part followed by the replacement of the unread part is the final answer |
| WString.EditEnd | libs/arduino/arduino/WString.cpp:651-667 | When no match is left, written part and unread part are the replaced text, terminated and without an earlier NUL |
| WString.SearchIs | libs/arduino/arduino/WString.cpp:652-658 | Searching the half-edited buffer finds what searching the original text would |
| WString.String.GrownSize | libs/arduino/arduino/WString.cpp:669-673 | The first pass computes the length of the leftmost replacement in 32-bit arithmetic, wrapping included |
| WString.String.ReplaceAt | libs/arduino/arduino/WString.cpp:678-682 | One step of the growing loop replaces exactly the occurrence at the index, within the capacity |
| WString.String.RewriteBuffer | libs/arduino/arduino/WString.cpp:676-684 | The in-place loop with its last-occurrence searches in the edited buffer computes the right-to-left rewriting, every write inside the buffer |
| WString.String.ReplaceGrow | libs/arduino/arduino/WString.cpp:668-685 | The right-to-left rewriting, unless the wrapped size is the old length or the buffer is full and the one request for a larger one is refused: then, and only then, the unchanged text |
| WString.String.Replace | libs/arduino/arduino/WString.cpp:645-686 | All three branches: empty cases unchanged; leftmost replacement when not growing; when growing the rewriting or, exactly where the wrapped size is the old length or the needed request is refused, the unchanged text. A faithful text ends as its leftmost replacement whenever it fits or the request is granted |
| WString.RoomyExactly | libs/arduino/arduino/WString.cpp:669-684 | For every pattern, text and capacity: the condition of `Replace`, counted on the text before the call, holds if and only if the result of the pass fits where it is going to be (or the wrapped size makes the branch give up); no suffix that starts the replacement, no occurrence that revives another, and a faithful text each suffice |
| WString.RoomyMeans | libs/arduino/arduino/WString.cpp:674-675 | Past the two size checks the buffer holds whatever the right-to-left pass makes of the text, or the branch has given up with the text unchanged |
| WString.String.Remove | libs/arduino/arduino/WString.cpp:694-702 | The text without the characters from the index on, as many as asked for or as there are |
| WString.RemoveClampExact | libs/arduino/arduino/WString.cpp:697 | The clamp computes the number of characters to remove exactly when index plus count does not wrap |
| WString.String.Trim | libs/arduino/arduino/WString.cpp:720-730 | The text without the white space (characters 9 to 13 and 32) at its ends, all-space text included |
| WString.TrimUnique | libs/arduino/arduino/WString.cpp:720-730 | There is only one such text |
| Borders.Mismatch | libs/arduino/arduino/Stream.cpp:271-285 | After a mismatch no prefix longer than the old index ends the input |
| Borders.Match | libs/arduino/arduino/Stream.cpp:271-276 | After a match the longest prefix is one longer |
| Borders.Candidate | libs/arduino/arduino/Stream.cpp:286-312 | A shorter prefix ends the new input exactly when the pattern agrees with itself at that shift and its next character is the one read |
| Borders.NaiveSearchMeans | libs/arduino/arduino/Stream.cpp:256-319 | The reference search gives (k, r) if and only if nothing ends before k and r is the lowest-numbered target that ends at k, or -1 with the whole input read and nothing ending anywhere |
| Borders.UntilMeaning | libs/arduino/arduino/Stream.cpp:114-123 | Target against terminator: the target wins exactly when it ends no later, ties included, and reading stops at whichever ends first |
| Borders.FindMeaning | libs/arduino/arduino/Stream.cpp:116-118 | A single target is found exactly when it ends somewhere, at its first end |
| Streams.FallBack | libs/arduino/arduino/Stream.cpp:285-314 | The fallback loop ends with the longest prefix of the target that ends the input, and each round is paid for by a character of the earlier match |
| Streams.Advance | libs/arduino/arduino/Stream.cpp:269-315 | One character for one target: the index is again the longest such prefix, the target is reported exactly when it is complete, other targets are untouched |
| Streams.Feed | libs/arduino/arduino/Stream.cpp:269-315 | One character for all targets: the lowest-numbered target that now ends the input, else every index again the longest prefix and below its length |
| Streams.FrugalStep | libs/arduino/arduino/Stream.cpp:285-314 | The amortised account: fallback rounds plus index never exceed the characters read |
| Streams.FrugalBound | libs/arduino/arduino/Stream.cpp:264-315 | After n characters at most n fallback rounds and n times len comparisons for a target |
| Streams.SearchEnds | libs/arduino/arduino/Stream.cpp:265-267 | A search that times out is the reference search of the input it consumed |
| Streams.SearchFound | libs/arduino/arduino/Stream.cpp:271-273 | A search that hits is the reference search of all the input, and the hit is its first |
| Streams.Stream.FindMulti | libs/arduino/arduino/Stream.cpp:256-319 | Result and number of characters consumed are those of the reference search; -1 only on a true timeout, with every index the longest prefix; every byte consumed had arrived by the poll that found it, the first of its read or one within the timeout; cost at most n fallbacks and n times len comparisons per target; zero-length targets at once |
| Streams.Stream.FindUntil | libs/arduino/arduino/Stream.cpp:114-123 | True exactly when the target ends and ends no later than the terminator, and nothing past the earlier of the two is consumed; every byte consumed had arrived in time, as for findMulti |
| Streams.LateIsNotRead | libs/arduino/arduino/Stream.cpp:31-40 | In a search, a byte that comes a full timeout or more after the start of its read is not consumed |
| Streams.Stream.Millis | libs/arduino/arduino/wiring.c:26-31 | The true tick count modulo 2^32, with arbitrary time passing between calls |
| Streams.ElapsedIs | libs/arduino/arduino/Stream.cpp:38 | Unsigned subtraction of two clock readings is the true elapsed time if and only if less than 2^32 ms have passed, whether or not the clock wrapped |
| Streams.Stream.TimedRead | libs/arduino/arduino/Stream.cpp:31-40 | The next byte, consumed, which had arrived by the last poll, the first one or one made within the timeout; or -1, only after the true elapsed time reached the timeout, at the first check that saw it, with the last poll empty |
| Streams.Stream.TimedPeek | libs/arduino/arduino/Stream.cpp:43-52 | The same without consuming |
| Streams.Stream.SetTimeout | libs/arduino/arduino/Stream.cpp:87-90 | The new timeout, and nothing else changes |
| Streams.Stream.PeekNextDigit | libs/arduino/arduino/Stream.cpp:56-82 | Stops at the first digit, sign or (if asked for) point, or at the first character that may not be discarded, and consumes exactly what is before it, all of it arrived |
| Streams.Stream.ReadRun | libs/arduino/arduino/Stream.cpp:141-151 | Consumes the sign and the run of digits and ignored characters, all of it arrived, and holds its wrapped value and sign |
| Streams.Stream.ParseInt | libs/arduino/arduino/Stream.cpp:130-156 | Value and stopping place are those of the integer grammar on the input that arrived, for all look-ahead modes and ignored characters; what is consumed had arrived |
| IntegerText.DecimalReadsBack | libs/arduino/arduino/Print.cpp:79-93 | Reading the decimal text of any long gives the long, the least one included |
| IntegerText.ParsesOne | libs/arduino/arduino/Stream.cpp:130-156 | Line ends before a printed number are skipped, the number comes back, and the call stops right behind its last digit |
| IntegerText.LeadExact | libs/arduino/arduino/Stream.cpp:56-82 | What each look-ahead mode skips, in characters: the lead ends at p if and only if no number starts before p and all of it may be skipped (anything under SKIP_ALL; space, tab, CR and LF under SKIP_WHITESPACE; nothing under SKIP_NONE), and at p a number starts, something may not be skipped, or the input ends |
| IntegerText.ParsedIntExact | libs/arduino/arduino/Stream.cpp:130-156 | Every input, mode and ignored character: the number of the digits that are not ignored in the run behind the lead, wrapped, negative after a minus sign that is not ignored; 0 where the lead does not end at a number |
| IntegerText.ParsesBehind | libs/arduino/arduino/Stream.cpp:56-82 | A printed long behind any text without digits and minus signs comes back under SKIP_ALL, behind white space alone under SKIP_WHITESPACE; otherwise 0, and the call stops at the first character that may not be skipped |
| IntegerText.ParsesGrouped | libs/arduino/arduino/Stream.cpp:141-151 | Ignored characters between the digits of a number do not change its value |
| IntegerText.ListRoundTrip | libs/arduino/arduino/Print.cpp:165-170 | For every list of longs and whatever precedes it: println of each, then as many calls of parseInt, give exactly the list, every call stopping right behind its last digit, with SKIP_ALL and SKIP_WHITESPACE |
| RoundTrip.PrintAll | libs/arduino/arduino/Print.cpp:165-170 | println of each number appends exactly the lines of the list |
| RoundTrip.ParseAll | libs/arduino/arduino/Stream.cpp:130-156 | On input that has arrived, successive calls of parseInt return what the grammar says, and the next one starts where the last stopped |
| RoundTrip.PrintThenParse | libs/arduino/arduino/Stream.cpp:130-156 | Printing a list with the one class and parsing it with the other returns the list |
| IntegerText.ReadingStaysLong | libs/arduino/arduino/Stream.cpp:147-154 | Reading back a printed long keeps the product, the sum with the character code, the difference and the final negation within a long if and only if its magnitude is below 2^31 - 48 |
| IntegerText.ReadingOverflows | libs/arduino/arduino/Stream.cpp:147 | The least magnitude that overflows, 2147483600, and the next smaller one that does not; in wrapping arithmetic the value still comes back |
| IntegerText.StepWraps | libs/arduino/arduino/Stream.cpp:147 | The three operations of one step, each wrapping, are one wrapping step |
| IntegerText.ReadAll | libs/arduino/arduino/Stream.cpp:141-155 | What the reading loop has accumulated when it stops is what the grammar says about the input up to there |
| Numerals.NumeralIsCanonical | libs/arduino/arduino/itoa.c:147-155 | Repeated division gives digits of the base without a leading zero |
| Numerals.ValueOfNumeral | libs/arduino/arduino/itoa.c:147-155 | The digits denote the number |
| Numerals.NumeralOfValue | libs/arduino/arduino/itoa.c:147-155 | No other canonical digits do |
| Numerals.NumeralLength | libs/tinyprintf/printf.c:293-297 | At most k digits if and only if the number is below the k-th power of the base |
| Numerals.DigitsOfBytes | libs/arduino/arduino/Print.cpp:195-212 | A number of k bytes has at most 8k digits in every base |
| Numerals.DecimalDigitsOfBytes | libs/arduino/arduino/itoa.c:74-122 | And at most 3k in base 10 |
| Numerals.ValueOfTail | libs/tinyprintf/printf.c:306-326 | The last k digits denote the number modulo the k-th power of the base |
| Itoa.Divide | libs/arduino/arduino/itoa.c:147-155 | The temporary buffer ends up with the canonical numeral, last digit first, within its 33 cells |
| Itoa.CopyBack | libs/arduino/arduino/itoa.c:157-162 | The characters come out in reading order with a NUL behind them; no other cell changes |
| Itoa.Ultoa | libs/arduino/arduino/itoa.c:129-165 | The canonical numeral and a NUL at the start of the array, or a null result and an untouched array for a bad radix |
| Itoa.Ltoa | libs/arduino/arduino/itoa.c:74-122 | The signed numeral in base 10, the two's complement numeral otherwise, for every long; other cells and the error cases as for ultoa |
| Denotation.LtoaDenotes | libs/arduino/arduino/itoa.c:74-122 | Every long in every radix from 2 to 36: what is written is, in base 10, a minus sign for a negative number and digits that denote the magnitude; otherwise digits that denote the number or, for a negative one, 2^32 more; lower-case letters, no leading zero |
| Denotation.NumeralDenotes | libs/arduino/arduino/itoa.c:129-165 | The same for unsigned numbers and either letter case |
| Itoa.NegateIs | libs/arduino/arduino/itoa.c:93-97 | Negation gives the magnitude of every negative long, even where it overflows |
| Itoa.NumberBuffersSuffice | libs/arduino/arduino/WString.cpp:70-108 | Every number buffer of the String constructors, and those of concat, hold numeral, sign and NUL in every accepted radix |
| Printing.Print.WriteCString | libs/arduino/arduino/Print.cpp:34-42 | Appends the C string and returns its length |
| Printing.FillFromEnd | libs/arduino/arduino/Print.cpp:195-209 | The buffer holds the canonical numeral and a NUL from the returned place on, for every value and base, without underrun |
| Printing.NumberTextIsNumeral | libs/arduino/arduino/Print.cpp:195-212 | In every base up to 201 the whole numeral is what a C-string write shows (beyond, a digit's character can be NUL) |
| Printing.DecimalIsNumberText | libs/arduino/arduino/Print.cpp:84-89 | The decimal text of a long is a sign and the unsigned numeral of its wrapped negation, the least long included |
| Printing.Print.PrintNumber | libs/arduino/arduino/Print.cpp:195-212 | Appends the numeral text in the effective base and returns its length |
| Denotation.NumberTextDenotes | libs/arduino/arduino/Print.cpp:195-212 | In every base up to 36 the text denotes the number, with upper-case letters and no leading zero, and in base 10 for a base below 2 |
| Printing.Print.PrintUnsigned | libs/arduino/arduino/Print.cpp:95-99 | One raw byte for base 0, otherwise the numeral text; returns what was written |
| Printing.Print.PrintLong | libs/arduino/arduino/Print.cpp:79-93 | Appends the signed decimal text, a raw byte for base 0, or the two's complement numeral; returns what was written |
| Printing.Print.PrintlnLong | libs/arduino/arduino/Print.cpp:165-170 | The same followed by CR LF; returns what was written |
| Printing.Print.PrintLLNumber | libs/arduino/arduino/Print.cpp:290-309 | Appends the canonical numeral of a 64-bit number, within the 64-cell buffer |
| Printing.Print.PrintLongLong | libs/arduino/arduino/Print.cpp:267-288 | Appends sign and numeral of a signed 64-bit number, with bases below 2 taken as 2 |
| RenderingLaws.PrintersAgree | libs/tinyprintf/printf.c:281-301 | ultoa, printNumber and _ntoa_long write, up to letter case, the same canonical numeral for every 32-bit value and every base from 2 to 36, and ltoa does for the non-negative ones |
| RenderingLaws.LongDigits | libs/tinyprintf/printf.c:306-326 | The 32-slot buffer holds digits that denote the value modulo the base to the 32, and the full numeral exactly when the value is below that |
| RenderingLaws.DigitsDenote | libs/tinyprintf/printf.c:281-326 | In the bases of the directives no digit is lost (32 bits in base 2, 64 bits otherwise), and the digits denote the argument |
| RenderingLaws.FormatExact | libs/tinyprintf/printf.c:227-277 | Without '#', the text is the field of the C standard (sign, zeros to precision or zero-filled width, digits, spaces outside) if and only if it fits in the conversion buffer, or all that does not fit is a space that padding restores, and left alignment hides no precision |
| RenderingLaws.IntegerTextExact | libs/tinyprintf/printf.c:683-756 | The layout alone, for value, digits and field as the code reads them: as the standard asks if and only if the buffer has room and left alignment hides no precision |
| Standard.ValueExact | libs/tinyprintf/printf.c:704-755 | The value rendered is the argument converted to the type asked for if and only if it is not a byte above 127 under "%hhd" or "%hhi" |
| Standard.FieldExact | libs/tinyprintf/printf.c:601-644 | How the code's reading of flags, width and precision differs from the standard's: a negative starred precision is taken for 0 instead of omitted, and numbers are taken modulo 2^32 |
| Standard.IntegerStandard | libs/tinyprintf/printf.c:683-756 | Every integer directive without a prefix and every argument: the code writes the standard's text (converted value, all digits, the standard's field) if and only if width and precision are below 2^32, it is no signed byte above 127, a negative precision meets a non-zero number without zero fill, no octal zero is due, and sign, zeros and digits fit in the buffer with no precision hidden |
| StandardHash.PrefixedStandard | libs/tinyprintf/printf.c:242-262 | Hexadecimal and octal directives with '#' and every argument but 0: the same with the exact conditions for prefix and octal zero |
| StandardHash.DirectiveExact | libs/tinyprintf/printf.c:601-756 | Both together, for a directive with its list of arguments, stars included |
| StandardHash.FormatDirectiveExact | libs/tinyprintf/printf.c:587-756 | The same for the directive at any place of any format |
| Standard.SameDecimal | libs/tinyprintf/printf.c:683-756 | "%d" and "%i" write the same text for every length, field and argument |
| StandardOutput.CharExact | libs/tinyprintf/printf.c:776-794 | "%c" in every field: the standard's text (the argument as an unsigned char, and spaces up to the width) if and only if the width is below 2^32 |
| StandardOutput.StringExact | libs/tinyprintf/printf.c:796-820 | "%s" in every field and for every string: the standard's text (as many characters as the precision lets through, and spaces up to the width) if and only if the width is below 2^32 and a precision that is negative, or 2^32 or more, drops nothing but spaces which the padding puts back |
| StandardOutput.PaddedBeginnings | libs/tinyprintf/printf.c:796-820 | Two beginnings of a string, padded to the same width, look the same if and only if the longer one fits in the width and the difference cannot be told from padding |
| StandardOutput.ItemExact | libs/tinyprintf/printf.c:587-850 | Every item of a format, literals and "%%" included: the standard's text if and only if the conditions of its kind hold |
| StandardOutput.FormatStandard | libs/tinyprintf/printf.c:587-850 | A format whose items all meet their conditions has the output that the standard asks for, with the arguments taken in order |
| Deviations.NegativePrecisionZero | libs/tinyprintf/printf.c:631-644 | Failing input: "%.*d" of -1 and 0 writes nothing |
| Deviations.NegativePrecisionFill | libs/tinyprintf/printf.c:631-644 | Failing input: "%05.*d" of -1 and 42 writes "   42" |
| Deviations.WidthWraps | libs/tinyprintf/printf.c:188-195 | Failing input: "%4294967301d" of 7 writes 5 characters |
| Deviations.PrecisionHidden | libs/tinyprintf/printf.c:230 | Failing input: "%-5.3d" of 7 writes "7    " |
| Deviations.ByteUnsigned | libs/tinyprintf/printf.c:735 | Failing input: "%hhd" of 200 writes "200" |
| Deviations.DigitsCutOff | libs/tinyprintf/printf.c:306-326 | Failing input: "%llb" of 2^32 writes 32 zeros |
| Deviations.SignLost | libs/tinyprintf/printf.c:264-274 | Failing input: "%.32d" of -1 writes no sign |
| Deviations.OctalZeroMissing | libs/tinyprintf/printf.c:312-323 | Failing input: "%#.0o" of 0 writes nothing |
| Deviations.HexDigitsLost | libs/tinyprintf/printf.c:242-262 | Failing input: "%#2x" of 0x12 writes "0x" |
| Deviations.OctalZeroAdded | libs/tinyprintf/printf.c:242-262 | Failing input: "%#.3o" of 8 writes "0010" |
| Deviations.StringDropped | libs/tinyprintf/printf.c:796-820 | Failing input: "%.*s" of -1 and "ab" writes nothing |
| RenderingLaws.PrecisionIsLost | libs/tinyprintf/printf.c:230 | A left-aligned field with a precision above its digits never is the standard's field |
| RenderingLaws.IntegerOfExact | libs/tinyprintf/printf.c:704-755 | The integer rendered is the argument converted to the type that specifier and length ask for, if and only if it is not a byte above 127 under "%hhd" or "%hhi" |
| RenderingLaws.ConvertedUnique | libs/tinyprintf/printf.c:704-755 | There is only one such integer |
| RenderingLaws.IdealLength | libs/tinyprintf/printf.c:199-241 | The standard's field is as long as its width or its natural length with sign and precision, whichever is more, in all padding modes |
| Denotation.AtoiReadsDigits | libs/tinyprintf/printf.c:188-195 | The format's number reader gives the value of any decimal digits modulo 2^32, leading zeros or not |
| Denotation.AtoiRoundTrip | libs/tinyprintf/printf.c:188-195 | Reading the zero-filled decimal numeral of any 32-bit number gives the number back |
| Denotation.UnspacedNtoa | libs/tinyprintf/printf.c:199-277 | Without its spaces the text is the sign, as long as the buffer has room for it, zeros and digits |
| Denotation.ValueDenoted | libs/tinyprintf/printf.c:683-756 | The text without its spaces denotes the value the code renders, if and only if a due minus sign has room and a number in base 2 is below 2^32 |
| Standard.TextDenotes | libs/tinyprintf/printf.c:683-756 | The rendering law: for every integer directive, length, field without '#' and argument, the text without its spaces is an optional sign and digits that denote the converted argument in the directive's base, if and only if it is no signed byte above 127, a due minus sign has room (left-aligned, or precision and zero-filled width do not take all 32 places) and a number in base 2 is below 2^32 |
| Denotation.UnsignedReadsBack | libs/tinyprintf/printf.c:683-756 | "%u" in every field and length: _atoi of the text without its spaces is the argument modulo 2^32 |
| HashFlag.HashedWhole | libs/tinyprintf/printf.c:242-262 | '#' for all texts, bases, fields and widths: prefix and text are written whole if and only if no cut is taken and both fit in the buffer |
| HashFlag.HashedKeepsText | libs/tinyprintf/printf.c:242-262 | The text survives whole if and only if no cut is taken, or the base is neither 2 nor 16 and the prefix puts a leading zero back |
| HashFlag.HashedKeepsDigits | libs/tinyprintf/printf.c:242-262 | The digits behind filled-in zeros survive if and only if only such zeros are dropped, or a leading zero is put back |
| HashFlag.HashExact | libs/tinyprintf/printf.c:683-756 | '#' in every directive, length and field, for every argument but 0: all the digits of the number survive if and only if in base 2 it is below 2^32, and there is a precision, or the width is neither their number nor, for zero-filled hexadecimal digits, one more; and when the whole prefix is written |
| HashFlag.HashLosesDigits | libs/tinyprintf/printf.c:242-262 | The loss on an input: the output of "%#2x" for 0x12 is "0x" |
| RenderingLaws.FormatMeans | libs/tinyprintf/printf.c:587-850 | A format printed from any list of literals and plain directives decodes to that list, and its output is the concatenation of the list's texts with arguments taken in order |
| Composition.LiteralText | libs/tinyprintf/printf.c:589-594 | For every text without a percent sign, every format behind it and all arguments: the output is the text followed by the output of the format; no argument is taken |
| Composition.PercentText | libs/tinyprintf/printf.c:840-843 | "%%" before a format writes one percent sign and takes no argument |
| Composition.DirectiveText | libs/tinyprintf/printf.c:601-850 | A plain directive before a format takes as many arguments as it has stars, and one more unless it is "%%" or the like; its text comes first and the output of the format for the other arguments behind it |
| Composition.NoDirectives | libs/tinyprintf/printf.c:589-594 | A format without a percent sign is its own output, for any arguments |
| Composition.DecodeShift | libs/tinyprintf/printf.c:587-850 | What is decoded from a place of a format depends only on the format from there on |
| Format.ShowDecoded | libs/tinyprintf/printf.c:587-680 | Printing the decoded items gives the format back, for every format that does not end inside a directive |
| Format.DirectiveReadBack | libs/tinyprintf/printf.c:601-680 | A printed directive is decoded to itself, and decoding stops right behind it |
| Format.DecodeShown | libs/tinyprintf/printf.c:587-850 | Any printed list of literals and plain directives is decoded to itself |
| Format.DecodedIsPlain | libs/tinyprintf/printf.c:601-680 | Every directive with a proper specifier that decoding finds in a format is a plain one |
| Rendering.ArgumentsSplit | libs/tinyprintf/printf.c:614-644 | Arguments that fit a directive are its starred width, its starred precision and its value, in this order, and nothing else is taken |
| Printf.Out | libs/tinyprintf/printf.c:133-145 | One cell changes if the index is below the limit and there is a buffer; nothing otherwise |
| Printf.EmitTwice | libs/tinyprintf/printf.c:133-138 | Two writes one behind the other are one write of both texts, truncation included |
| Printf.ConvertDigits | libs/tinyprintf/printf.c:291-298 | The conversion buffer holds the last 32 digits of the numeral, last digit first |
| Printf.PadZeros | libs/tinyprintf/printf.c:229-240 | Zeros up to precision and zero-filled width as far as the buffer goes, none when left-aligned; the width that remains |
| Printf.AddHash | libs/tinyprintf/printf.c:242-262 | The digits with the prefix of their base, dropped digits included, as analysed by the laws of `HashFlag` |
| Printf.AddSign | libs/tinyprintf/printf.c:264-274 | The sign before the digits if the buffer has room |
| Printf.OutRev | libs/tinyprintf/printf.c:199-223 | Emits the buffer backwards with the padding outside; the cursor advances by the length of the text whether or not it was truncated |
| Printf.FormatNumber | libs/tinyprintf/printf.c:227-277 | Emits the formatted number and advances the cursor by its length |
| Printf.NtoaLong | libs/tinyprintf/printf.c:281-326 | Emits the number's text in its base, nothing but padding for a zero with a precision |
| Printf.StrNLen | libs/tinyprintf/printf.c:171-176 | The lesser of the string's length and the limit |
| Printf.OutChar | libs/tinyprintf/printf.c:776-794 | Emits the character and its padding |
| Printf.OutString | libs/tinyprintf/printf.c:796-820 | Emits the string cut to its precision, and its padding |
| Interpreter.ReadFlags | libs/tinyprintf/printf.c:601-612 | Stops behind the last flag and has the set of flags seen, in any order and number |
| Interpreter.ReadNumber | libs/tinyprintf/printf.c:188-195 | Stops behind the last digit with the digits' value modulo 2^32 |
| Interpreter.ReadWidth | libs/tinyprintf/printf.c:614-629 | Width from digits or an argument; a negative argument means left alignment and its magnitude |
| Interpreter.ReadPrecision | libs/tinyprintf/printf.c:631-644 | Precision from digits or an argument; a negative argument means zero |
| Interpreter.ReadLength | libs/tinyprintf/printf.c:646-680 | Stops behind the length modifier |
| Interpreter.Convert | libs/tinyprintf/printf.c:682-849 | Emits the text of the value at the head of the arguments and takes exactly the arguments of the specifier |
| Interpreter.Fetch | libs/tinyprintf/printf.c:704-755 | The argument converted to the type of specifier and length, with "%hhd" as an unsigned byte |
| Interpreter.ConvertInteger | libs/tinyprintf/printf.c:683-756 | Emits the integer's text in the base, width and with the flags of its specifier |
| Interpreter.Interpret | libs/tinyprintf/printf.c:587-850 | One pass of the main loop writes the text of the next item, takes its arguments, and goes on right behind it |
| Interpreter.Run | libs/tinyprintf/printf.c:587-850 | The whole loop is a fold: it emits the concatenated texts of the decoded items, truncated at the limit |
| Interpreter.Vsnprintf | libs/tinyprintf/printf.c:577-857 | Returns the length of the untruncated output, independent of the size; the buffer holds the truncated output and its NUL, and nothing else changes; a format without a percent sign is copied, truncated and terminated |
| Interpreter.TruncationMeans | libs/tinyprintf/printf.c:852-890 | For a positive size: the first min(n, size - 1) characters, a NUL, and the old cells behind; for size 0 the buffer is untouched |
| WMath.MapExact | libs/arduino/arduino/WMath.cpp:55-58 | On the stated domain no operation wraps, and the result is the truncated quotient plus the lower bound |
| WMath.MapRounds | libs/arduino/arduino/WMath.cpp:55-58 | By multiplication: distance times output range leaves, after the result times input range, a remainder smaller than the input range, not negative above the lower bound and not positive below it |
| WMath.TruncatesToZero | libs/arduino/arduino/WMath.cpp:57 | For all signs of both operands the quotient leaves a remainder smaller than the divisor, with the sign of the dividend |
| WMath.MapMonotone | libs/arduino/arduino/WMath.cpp:55-58 | Order is kept, also for arguments below the input range |
| WMath.MapEndpoints | libs/arduino/arduino/WMath.cpp:55-58 | Both ends of the range are hit exactly |
| WMath.MapInRange | libs/arduino/arduino/WMath.cpp:55-58 | Arguments in the input range stay in the output range |
| WMath.MapThereAndBack | libs/arduino/arduino/WMath.cpp:55-58 | To a range at least as wide and back gives x if the first division had no remainder and x - 1 otherwise, nothing else |

## Left out

Stated weaker than one might wish, or only under a condition:

- WString.String.Replace: the growing branch is specified only where it stays within its buffer (`Roomy`); elsewhere the C code writes behind it. `RoomyExactly` shows that the condition excludes nothing else, and gives simpler ones that suffice.
- WString.String.ReplaceGrow: under the same condition, for the same reason.
- WString.String.RewriteBuffer: requires that its result fits, which `ReplaceGrow` establishes before the call.
- WString.String.ChangeBuffer: excludes the size 2^32 - 1, for which the size passed to `realloc` wraps to 0; what `realloc` then does to the old buffer is left to the implementation (section 7.22.3 of ISO/IEC 9899:2011).
- WString.String.Reserve: excludes the same size, for the same reason.
- WString.String.Remove: requires that index plus count does not wrap; `RemoveClampExact` shows that the clamp is wrong in every other case.
- WString.String.Substring: a string without a buffer is accepted only if both bounds are positive, since otherwise the C code writes through a null pointer.
- WString.String.Concat: self-concatenation is not modelled, because the C code then copies from a buffer it may just have released, or without end onto its own source. Two strings that share a buffer are excluded in every `String` method with a string argument.
- WString.String.LastIndexOfChar: for the NUL character it returns the index behind `fromIndex`, as the code does.
- Streams.Stream.FindMulti: the input is finite, and the targets start with index 0, as both callers in the source set them up.
- Streams.Stream.Millis: polls are closer together than 2^32 minus the timeout in milliseconds, and there is a bound on the polls within one tick, so that waiting ends.
- Streams.Stream.ParseInt: overflow, which C leaves undefined, wraps as on the hardware; `IntegerText.ReadingStaysLong` says exactly for which printed longs one happens.
- IntegerText.ListRoundTrip: the ignored character is not a digit, a minus sign or CR, and the mode is not SKIP_NONE, under which a call stops at the line end before the next number.
- Interpreter.Vsnprintf: the cursor and the result are unbounded, so outputs of 2^31 characters and more are not modelled as C represents them; arguments match their directives.
- Interpreter.ConvertInteger: the magnitude of the least integer is its true magnitude; the signed negation that C leaves undefined there is not modelled.
- Printing.Print.PrintLongLong: the magnitude of the least 64-bit integer is its true magnitude; the negation that C leaves undefined there is not modelled.
- Printing.Print.PrintLong: negating the least long, which C leaves undefined, wraps as on the hardware; the same holds for `Itoa.Ltoa` and `Itoa.NegateIs`.
- Interpreter.ReadWidth: negating a starred width of the least int, which C leaves undefined, wraps as on the hardware.
- StandardHash.DirectiveExact: '#' with the specifier b and an argument other than 0 is excluded, because the standard has no base 2; without '#' the text asked for in base 2 is the one for the other unsigned bases. What the standard leaves undefined, '#' with d, i and u, is taken to change nothing.
- StandardOutput.ItemExact: what the standard leaves undefined with "%c" and "%s" (other flags than '-', a precision with "%c") is taken to change nothing; specifiers that it does not define are excluded, the code copies them.
- Printf.OutString: a null string pointer is not modelled.

Followed from the code where it differs from the C standard or from the sibling routine: the precision is ignored
when an integer's field is left-aligned, a negative starred precision counts as 0, widths and precisions are taken modulo 2^32,
"%hhd" goes through `char`, which is unsigned here, and '#' drops or adds digits (all exactly described by
`StandardHash.DirectiveExact`, with inputs in `Deviations.dfy`); a base below 2
means 10 to `printNumber` and 2 to the 64-bit printer; a digit's character is taken modulo 256.

Not part of this model:

- Floating point: `printFloat`, `parseFloat`, `dtostrf`, `_ftoa`, `_etoa` and the directives f, e, g.
- Formats that end inside a directive, the p directive, and the `printf_`, `sprintf_`, `fctprintf` and `_putchar` back ends.
- `String` moves, flash-string overloads, `operator+` chains, comparison, forward `indexOf`, character `replace`, case conversion and one-argument `remove`.
- `readBytes`, `readString` and the other thin loops of `Stream` around `timedRead`.
- The 64-bit overloads of `println`, and `Printable`.
- `random`, `makeWord` and the character-class wrappers, which are single calls or expressions.
- `HardwareSerial`, pin, SPI and UART input and output, the wiring layer beyond `millis`, and the CMSIS headers.
- The MIDI scheduler and the packet loop of the application.
