# FileInspector: the counting core of `processFile`

FileInspector is a small Java utility. The user picks a text file. The
program echoes the file to the console and prints a summary:
- the file's name;
- the number of lines;
- the number of words;
- the number of characters.

This project models the part of `processFile` that computes the summary
(`src/FileInspector.java`, lines 59-94):
- the `while ((line = br.readLine()) != null)` loop and its three counters;
- the inner `for` loop over `line.split("\\s+")`, which counts the tokens
  whose `trim()` is not empty;
- the character-count adjustment after the loop (line 88);
- the two error dialogs of the `catch` blocks.

It also proves what the counters hold.

The model is written in Dafny in five modules:

- `Wrappers`: the `Option` datatype.
- `JavaLang`: the parts of the Java platform the loop relies on.
  - `int` and `long` addition with two's-complement wrap-around (`Int32`,
    `Int64`, `IntAdd`, `LongAdd`).
  - The regular-expression class `\s`, which is `[ \t\n\x0B\f\r]`.
  - `String.trim()`, which strips every character up to U+0020.
  - `String.split("\\s+")` with limit 0. The pieces between the maximal runs
    of `\s` are found, trailing empty pieces are dropped, and a string with
    no match (the empty string included) is returned as itself.
- `JavaIo`: `BufferedReader.readLine()` over the characters of the file.
  - The line breaks are `\n`, `\r` and `\r\n`.
  - A trailing break does not start another line.
  - When the device fails with an `IOException`, an unfinished last line is
    lost.
- `Words`: the word count of one line, in two forms:
  - as the `split`/`trim` pipeline computes it;
  - as an independent reference definition: the maximal runs of non-`\s`
    characters that hold a character above U+0020.

  The module proves that the two agree, plus the laws the count obeys.
- `FileInspector`:
  - `ProcessFile`, an imperative method with the source's `while` loop and
    inner `for` loop (`CountWords`), its Java counters and its adjustment;
  - the specification functions it is proved against, with the lemmas about
    them.

The file itself is given as a `FileAccess`. `Missing` is a file the
`FileReader` cannot open. `Readable(content, failure)` is a device that
delivers `content` and then either reaches end-of-file or throws an
`IOException` with the `failure` message.

`ProcessFile` does not print. It returns two things:
- the `Report` the summary lines 90-94 print;
- the error dialog (`Alert`) shown at line 81 or line 84, if any.

The counters are Java `int` (`lineCount`, `wordCount`) and `long`
(`charCount`), and all additions wrap around. `SummaryWraps` states what the
counters hold in general. `SummaryIsExact` states that they are the exact
counts while nothing overflows.

**Errors do not stop the summary.** Both `catch` blocks (lines 80-86) fall
through to the adjustment at line 88 and to the summary at lines 90-94. So
a summary is printed after an error as well:
- with zero counts when the file did not open;
- with the counts of the lines delivered before an `IOException`.

The model follows the code. `ProcessFile` returns a report on every path,
and `PartialRead` states what that report counts.

## Model

| member | source | states |
|---|---|---|
| FileInspector.ProcessFile | src/FileInspector.java:59-94 | The report is the summary of exactly the lines `readLine` delivered, counted in Java `int`/`long` arithmetic and adjusted once after the loop. An unopenable file gives the file-not-found dialog naming the file. A device failure gives the read-error dialog with the exception's message. End-of-file gives no dialog. |
| FileInspector.CountWords | src/FileInspector.java:74-78 | The inner loop adds one (as an `int`) for each token whose `trim()` is non-empty, in token order. |
| FileInspector.TotalsStep | src/FileInspector.java:68-79 | One line returned by `readLine` is one turn of each counter: `lineCount + 1`, its words added to `wordCount`, and its length added to `charCount`. |
| FileInspector.EmptyFile | src/FileInspector.java:60-88 | A file that cannot be opened, or an empty file, is reported as 0 lines, 0 words and 0 characters. |
| FileInspector.SummaryIsExact | src/FileInspector.java:68-88 | While no counter overflows (fewer than 2^31 lines and words, and a final character count below 2^63), the report holds the number of lines, the number of words, and the summed line lengths plus `max(lines - 1, 0)`. |
| FileInspector.SummaryWraps | src/FileInspector.java:60-88 | For any number of lines:<br>• `lineCount` is the number of lines wrapped to `int`;<br>• `wordCount` is the number of words wrapped to `int`;<br>• `charCount` is the summed length wrapped to `long`, then adjusted by the wrapped line count. |
| FileInspector.LinesCounted | src/FileInspector.java:60-71 | `lineCount`, started at 0, is the number of lines wrapped to `int`. |
| FileInspector.WordsCounted | src/FileInspector.java:61-78 | `wordCount`, started at 0, is the number of words wrapped to `int`. |
| FileInspector.CharsCounted | src/FileInspector.java:62-72 | `charCount`, started at 0, is the summed length wrapped to `long`. |
| FileInspector.LineCountWraps | src/FileInspector.java:71-88 | After 2^32 lines, `lineCount` is back at 0, and the adjustment then adds nothing. |
| FileInspector.LineTotalWraps | src/FileInspector.java:71 | Each `lineCount++` on a wrapped counter gives the wrapped exact count. |
| FileInspector.CharTotalWraps | src/FileInspector.java:72 | Each `charCount += line.length()` on a wrapped counter gives the wrapped exact sum. |
| FileInspector.WordTotalWraps | src/FileInspector.java:73-78 | The word loop over all lines, from a wrapped start, gives the wrapped exact number of words. |
| FileInspector.WordStepWraps | src/FileInspector.java:73-78 | One line's word loop adds that line's number of word runs to a wrapped `wordCount`. |
| FileInspector.LineAddWraps | src/FileInspector.java:73-78 | The inner loop over one split line adds the line's number of word runs, wrapped to `int`. |
| FileInspector.AddNonBlankWraps | src/FileInspector.java:74-78 | The inner loop's repeated `wordCount++` equals one wrapped addition of the number of non-blank tokens. |
| FileInspector.AddNonBlankNone | src/FileInspector.java:74-78 | Tokens that are all blank leave `wordCount` unchanged. |
| FileInspector.LineTotalConcat | src/FileInspector.java:68-71 | Before the adjustment, `lineCount` is a fold: reading `a` then `b` gives the same value as reading `a + b`. |
| FileInspector.WordTotalConcat | src/FileInspector.java:68-78 | The same, for `wordCount`. |
| FileInspector.CharTotalConcat | src/FileInspector.java:68-72 | The same, for `charCount`. |
| FileInspector.WordSumConcat | src/FileInspector.java:68-78 | The exact word count of `a + b` is the sum of the counts of `a` and `b`. |
| FileInspector.CharSumConcat | src/FileInspector.java:68-72 | The exact summed length of `a + b` is the sum of the lengths of `a` and `b`. |
| FileInspector.CountsMonotone | src/FileInspector.java:68-79 | The exact counts of the first `k` lines never exceed those of all lines. |
| FileInspector.BlankLineAddsNoWord | src/FileInspector.java:71-78 | A line with only characters up to U+0020 adds its length to the characters and no word. |
| FileInspector.BlankLineKeepsWordCount | src/FileInspector.java:73-78 | For such a line, a turn of the Java word loop leaves `wordCount` as it was. |
| FileInspector.PartialRead | src/FileInspector.java:66-86 | After an `IOException`, the delivered lines are a prefix of the file's lines that lacks at most the last one. Their word and character counts do not exceed those of a complete read. |
| FileInspector.WorkedExample | src/FileInspector.java:68-88 | `"hello world"`, `"foo"`, `""`, `"bar baz qux"` give 4 lines, 6 words and 28 characters. |
| FileInspector.WorkedFile | src/FileInspector.java:66-88 | The content `"hello world\nfoo\n\nbar baz qux"`, read through `readLine`, is reported as 4 lines, 6 words and 28 characters. |
| FileInspector.ExampleContent | src/FileInspector.java:68 | That content reads as the four example lines. |
| FileInspector.ExampleJoined | src/FileInspector.java:68 | The four example lines joined by line feeds are that content. |
| FileInspector.ExampleUnbroken | src/FileInspector.java:68 | None of the four example lines holds a line break. |
| FileInspector.HelloWorldIsTwoWords | src/FileInspector.java:73-78 | `"hello world"` holds two words. |
| FileInspector.BarBazQuxIsThreeWords | src/FileInspector.java:73-78 | `"bar baz qux"` holds three words. |
| FileInspector.FooIsOneWord | src/FileInspector.java:73-78 | `"foo"` holds one word. |
| FileInspector.PrintableRunIsOneWord | src/FileInspector.java:73-78 | A non-empty string of characters above U+0020 is one word. |
| FileInspector.TwoWords | src/FileInspector.java:73-78 | Two such strings joined by one space are two words. |
| FileInspector.ThreeWords | src/FileInspector.java:73-78 | Three such strings joined by single spaces are three words. |
| FileInspector.AdjustmentRestoresLength | src/FileInspector.java:88 | Lines joined by a one-character break, with a non-empty last line, read back as the same lines. The adjusted count then equals the file's length; with `\r\n` it is one short for each break. |
| FileInspector.AdjustmentOnTerminatedFile | src/FileInspector.java:88 | When every line ends in a break, the lines read back unchanged and the adjusted count is one short of the file's length (more with `\r\n`). |
| FileInspector.JoinLength | src/FileInspector.java:88 | The length of joined lines is their summed length plus one break per boundary. |
| FileInspector.TerminatedLength | src/FileInspector.java:88 | The length of terminated lines is their summed length plus one break per line. |
| Words.LineWordsAreRuns | src/FileInspector.java:73-78 | The number of non-blank tokens of `split("\\s+")` on a line equals the number of its maximal non-`\s` runs that hold a character above U+0020. |
| Words.WordRuns | src/FileInspector.java:73-78 | The reference word count, never more than the line's length. |
| Words.FieldsCount | src/FileInspector.java:73-78 | Counting the non-blank pieces between `\s` runs gives the reference word count. |
| Words.CountNonBlankDropTrailing | src/FileInspector.java:73-78 | Dropping trailing empty tokens does not change the count. |
| Words.CountNonBlankConcat | src/FileInspector.java:74-78 | The number of non-blank tokens is additive over concatenated token lists. |
| Words.PrependCount | src/FileInspector.java:74-78 | A token in front adds one exactly when it holds a character above U+0020. |
| Words.WordRunsSkip | src/FileInspector.java:73-78 | Skipping a leading `\s` run does not change the word count. |
| Words.WordRunsLeadingSpace | src/FileInspector.java:73-78 | Leading `\s` characters do not change the word count. |
| Words.WordRunsTrailingSpace | src/FileInspector.java:73-78 | Trailing `\s` characters do not change the word count. |
| Words.WordRunsSeparated | src/FileInspector.java:73-78 | Across a non-empty `\s` run, the word count is additive. |
| Words.WordRunsSeparatorInvariant | src/FileInspector.java:73-78 | The amount of `\s` between two pieces of a line does not change the word count. |
| Words.WordRunsZero | src/FileInspector.java:73-78 | A line has no words if and only if it holds no character above U+0020. |
| Words.BlankLineHasNoWords | src/FileInspector.java:73-78 | The `split`/`trim` pipeline finds no word in such a line. |
| Words.SingleWord | src/FileInspector.java:73-78 | A run of non-`\s` characters holding a character above U+0020 is one word. |
| Words.NonSpacePrefixStops | src/FileInspector.java:73 | The leading non-`\s` run stops at the first `\s` character. |
| Words.VisibleSplits | src/FileInspector.java:75 | A string holds a character that `trim()` keeps if and only if one of its two halves does. |
| Words.SpaceIsTrimmable | src/FileInspector.java:75 | Every `\s` character is removed by `trim()`. |
| JavaLang.Trim | src/FileInspector.java:75 | `trim()` gives the empty string if and only if every character is at most U+0020. |
| JavaLang.TrimKeepsEnds | src/FileInspector.java:75 | A non-empty trimmed string is no longer than the original, and starts and ends with a character above U+0020. |
| JavaLang.TrimStartRemovesPrefix | src/FileInspector.java:75 | The leading part removed is a prefix of characters up to U+0020, and the rest starts with a kept character. |
| JavaLang.TrimEndRemovesSuffix | src/FileInspector.java:75 | The trailing part removed is a suffix of characters up to U+0020, and the rest ends with a kept character. |
| JavaLang.SplitTokens | src/FileInspector.java:73 | No token of `split("\\s+")` holds a `\s` character, and every token but the first is non-empty. |
| JavaLang.SplitNoMatch | src/FileInspector.java:73 | Where `\s+` matches nowhere (the empty string included), `split` returns the string itself. |
| JavaLang.FieldsShape | src/FileInspector.java:73 | The pieces between `\s` runs:<br>• there is at least one piece;<br>• no piece holds `\s`;<br>• the first piece is empty if and only if the line is empty or starts with `\s`;<br>• only the first and the last piece can be empty. |
| JavaLang.DropTrailingEmptyShape | src/FileInspector.java:73 | Limit-0 `split` drops only a run of trailing empty strings, and keeps no empty string at the end. |
| JavaLang.NonSpacePrefixShape | src/FileInspector.java:73 | The leading run is a prefix without `\s`, followed by `\s` unless it is the whole string. |
| JavaLang.SkipSpacesShape | src/FileInspector.java:73 | What a leading match of `\s+` skips is all `\s`, and what remains does not start with `\s`. |
| JavaLang.IntAdd | src/FileInspector.java:71 | `int` addition: the result is in the `int` range, and equals the exact sum when that sum fits. |
| JavaLang.LongAdd | src/FileInspector.java:72 | `long` addition, with an `int` operand widened: the result is in range, and equals the exact sum when that sum fits. |
| JavaLang.Int32 | src/FileInspector.java:60-61 | The value stored into an `int` lies in [-2^31, 2^31). |
| JavaLang.Int64 | src/FileInspector.java:62 | The value stored into a `long` lies in [-2^63, 2^63). |
| JavaLang.Int32IsRemainder | src/FileInspector.java:60-61 | Storing into an `int` keeps the low 32 bits and reads them in two's complement. |
| JavaLang.Int64IsRemainder | src/FileInspector.java:62 | Storing into a `long` keeps the low 64 bits and reads them in two's complement. |
| JavaLang.Int32Offset | src/FileInspector.java:60-61 | The `int` wrap-around moves a value by a whole multiple of 2^32. |
| JavaLang.Int64Offset | src/FileInspector.java:62 | The `long` wrap-around moves a value by a whole multiple of 2^64. |
| JavaLang.Int32Periodic | src/FileInspector.java:60-61 | Storing into an `int` ignores multiples of 2^32. |
| JavaLang.Int64Periodic | src/FileInspector.java:62 | Storing into a `long` ignores multiples of 2^64. |
| JavaLang.IntAddWraps | src/FileInspector.java:71 | Adding to a wrapped `int` gives the wrapped exact sum. |
| JavaLang.LongAddWraps | src/FileInspector.java:72 | Adding to a wrapped `long` gives the wrapped exact sum. |
| JavaLang.Int32Exact | src/FileInspector.java:60-61 | A value in the `int` range is stored unchanged. |
| JavaLang.Int64Exact | src/FileInspector.java:62 | A value in the `long` range is stored unchanged. |
| JavaIo.NextLine | src/FileInspector.java:68 | A scan to the first line break splits the input into three parts, which concatenate back to the input:<br>• a break-free line;<br>• a break (`\n`, `\r` or `\r\n`), or nothing at end of input;<br>• the rest.<br>A `\r` is never followed by a `\n` that it leaves behind. |
| JavaIo.ReadLine | src/FileInspector.java:68 | One `readLine()` has three outcomes:<br>• a break-free line, which is the whole of the input up to its break or to the end of input and consumes it;<br>• `null`, exactly at end-of-file;<br>• an exception, exactly when the device fails before a line break. |
| JavaIo.Lines | src/FileInspector.java:68 | The lines the loop receives hold no line break, and there are no more of them than characters. |
| JavaIo.ReadLinesEmpty | src/FileInspector.java:68 | The content reads as no lines if and only if it is empty. |
| JavaIo.ReadTerminated | src/FileInspector.java:68 | Round trip: break-free lines, each followed by the same line break, read back as the same lines. |
| JavaIo.ReadJoined | src/FileInspector.java:68 | Round trip: break-free lines joined by one line break, with a non-empty last line, read back as the same lines. |
| JavaIo.ReadAfterLine | src/FileInspector.java:68 | A line ended by a break reads as that line, and reading resumes right after the break. |
| JavaIo.NextLineOf | src/FileInspector.java:68 | A break-free line followed by a break is scanned as exactly that line and that break. |
| JavaIo.NextLineOfLast | src/FileInspector.java:68 | Break-free input is scanned as one unterminated line. |
| JavaIo.TerminatedStart | src/FileInspector.java:68 | Terminated lines with the break `\r` do not start with `\n`. |
| JavaIo.JoinedStart | src/FileInspector.java:68 | Joined lines with a non-empty last line are non-empty, and do not start with `\n` when the break is `\r`. |
| JavaIo.FailureKeepsCompleteLines | src/FileInspector.java:66-85 | A device that fails right after a line break delivers the same lines as at end-of-file. |
| JavaIo.FailureLosesPartialLine | src/FileInspector.java:66-85 | A device that fails inside a line delivers every line except that unfinished last one. |

## Left out

- The Swing interface is not modelled because it holds no logic: the `JFrame`, the `JFileChooser` dialog and its cancel path, `main` and `chooseFile` (lines 12-53). `ProcessFile` takes the chosen file's name and a `FileAccess` as parameters.
- The error dialogs of lines 81 and 84 are shown by returning an `Alert`. The stack traces of lines 82 and 85 are not modelled.
- The console echo of lines 64 and 69 and the summary printing of lines 90-94 are not modelled. Printing does not affect the counts, and `ProcessFile` returns the report values instead.
- Opening the file, charset decoding and `BufferedReader`'s buffering are not modelled. The file arrives as its decoded characters, followed by end-of-file or an `IOException`. An `IOException` raised by `close()` at the end of the `try` block is not modelled either.
- A Java `char` is a UTF-16 code unit, and a Dafny `char` is a Unicode scalar value. So for a line holding characters outside the Basic Multilingual Plane, the model's `line.length()` is smaller than Java's. Word splitting is unaffected, because `\s` and `trim()` only look at characters up to U+0020.
- The regular-expression engine is not modelled in general. Only the pattern `\s+` and limit 0 of `split` are.
- CountsMonotone: states that the exact counts never decrease, not that the Java counters never do. The Java `int` counters wrap past 2^31 and then decrease (see LineCountWraps). The counters are non-negative and monotone only in the range SummaryIsExact covers.
