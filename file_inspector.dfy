/** `processFile` of FileInspector.java: the loop over the lines of the chosen
    file with its three counters, the adjustment of the character count after
    the loop, and the summary report. */
module FileInspector {
  import opened Wrappers
  import opened JavaLang
  import opened JavaIo
  import opened Words

  /** The summary report: the chosen file's name and the final values of
      `lineCount`, `wordCount` and `charCount`. */
  datatype Report = Report(fileName: string, lines: int, words: int, chars: int)

  /** The reason for an error dialog. */
  datatype Alert = FileNotFound(fileName: string) | ReadError(message: string)

  /** What opening the chosen file gives: either the FileReader cannot open it,
      or a device that delivers `content` and then end-of-file (no `failure`)
      or an IOException with the `failure` message. */
  datatype FileAccess = Missing | Readable(content: string, failure: Option<string>)

  /** The lines `readLine` returns before the loop ends. */
  function Delivered(file: FileAccess): seq<string> {
    match file
    case Missing => []
    case Readable(content, failure) => Lines(content, failure)
  }

  // ---------------------------------------------------------------------------
  // The counts as exact numbers
  // ---------------------------------------------------------------------------

  /** The summed lengths of the lines, line breaks excluded. */
  function CharSum(lines: seq<string>): nat {
    if lines == [] then 0 else |lines[0]| + CharSum(lines[1..])
  }

  /** The words in the lines: the runs of non-`\s` characters that hold a
      character `trim` keeps. */
  function WordSum(lines: seq<string>): nat {
    if lines == [] then 0 else WordRuns(lines[0]) + WordSum(lines[1..])
  }

  /** The character count of line 88 on exact numbers: the summed lengths plus
      one for each boundary between two lines. */
  function AdjustedChars(lines: seq<string>): nat {
    if lines == [] then 0 else CharSum(lines) + |lines| - 1
  }

  // ---------------------------------------------------------------------------
  // The counters as processFile computes them, in Java int and long arithmetic
  // ---------------------------------------------------------------------------

  /** `wordCount` after the inner `for` loop has gone over `tokens`, starting
      from `w`. */
  function AddNonBlank(w: int, tokens: seq<string>): int {
    if tokens == [] then w
    else
      var v := AddNonBlank(w, tokens[..|tokens| - 1]);
      if Trim(tokens[|tokens| - 1]) != [] then IntAdd(v, 1) else v
  }

  /** `lineCount` once the loop, starting from `n`, has read `lines`. The three
      counters never read one another, so each is followed on its own. */
  function LineTotal(n: int, lines: seq<string>): int
    decreases |lines|
  {
    if lines == [] then n else LineTotal(IntAdd(n, 1), lines[1..])
  }

  /** `wordCount` once the loop, starting from `w`, has read `lines`. */
  function WordTotal(w: int, lines: seq<string>): int
    decreases |lines|
  {
    if lines == [] then w else WordTotal(AddNonBlank(w, Split(lines[0])), lines[1..])
  }

  /** `charCount` once the loop, starting from `c`, has read `lines`. */
  function CharTotal(c: int, lines: seq<string>): int
    decreases |lines|
  {
    if lines == [] then c else CharTotal(LongAdd(c, |lines[0]|), lines[1..])
  }

  /** Line 88 in Java arithmetic: `lineCount - 1` cannot overflow once
      `lineCount > 0`, and the sum is a `long` addition. */
  function Adjust(charCount: int, lineCount: int): int {
    LongAdd(charCount, if lineCount > 0 then lineCount - 1 else 0)
  }

  /** The report once the loop has read `lines`, starting from zero. */
  function Summary(name: string, lines: seq<string>): Report {
    var n := LineTotal(0, lines);
    Report(name, n, WordTotal(0, lines), Adjust(CharTotal(0, lines), n))
  }

  // ---------------------------------------------------------------------------
  // processFile
  // ---------------------------------------------------------------------------

  /** The inner `for` loop: one more word for each token of the split line
      that is not blank once trimmed. */
  method CountWords(wordCount: int, words: seq<string>) returns (count: int)
    ensures count == AddNonBlank(wordCount, words)
  {
    count := wordCount;
    for j := 0 to |words|
      invariant count == AddNonBlank(wordCount, words[..j])
    {
      assert words[..j + 1][..j] == words[..j];
      if Trim(words[j]) != [] {
        count := IntAdd(count, 1);
      }
    }
    assert words[..|words|] == words;
  }

  /** A line returned by `readLine` is one turn of the loop for each counter. */
  lemma TotalsStep(n: int, w: int, c: int, unread: string, failure: Option<string>)
    requires ReadLine(unread, failure).Line?
    ensures var step := ReadLine(unread, failure);
      var rest := Lines(step.unread, failure);
      && LineTotal(n, Lines(unread, failure)) == LineTotal(IntAdd(n, 1), rest)
      && WordTotal(w, Lines(unread, failure)) == WordTotal(AddNonBlank(w, Split(step.text)), rest)
      && CharTotal(c, Lines(unread, failure)) == CharTotal(LongAdd(c, |step.text|), rest)
  {
    var step := ReadLine(unread, failure);
    assert Lines(unread, failure) == [step.text] + Lines(step.unread, failure);
    assert Lines(unread, failure)[1..] == Lines(step.unread, failure);
  }

  /** Reads the chosen file line by line and returns the summary report and
      the error dialog, if any. The adjustment and the report happen on every
      path out of the try block, so a failure still reports the counts of the
      lines read before it. (The echo of each line to the console does not
      affect the counters and is not modelled.) */
  method ProcessFile(name: string, file: FileAccess) returns (report: Report, alert: Option<Alert>)
    ensures report == Summary(name, Delivered(file))
    ensures file.Missing? ==> alert == Some(FileNotFound(name))
    ensures file.Readable? && file.failure.None? ==> alert == None
    ensures file.Readable? && file.failure.Some? ==> alert == Some(ReadError(file.failure.value))
  {
    var lineCount := 0;
    var wordCount := 0;
    var charCount := 0;
    alert := None;
    match file {
      case Missing =>
        alert := Some(FileNotFound(name));
      case Readable(content, failure) =>
        var unread := content;
        var step := ReadLine(unread, failure);
        while step.Line?
          invariant step == ReadLine(unread, failure)
          invariant LineTotal(lineCount, Lines(unread, failure)) == LineTotal(0, Lines(content, failure))
          invariant WordTotal(wordCount, Lines(unread, failure)) == WordTotal(0, Lines(content, failure))
          invariant CharTotal(charCount, Lines(unread, failure)) == CharTotal(0, Lines(content, failure))
          decreases |unread|
        {
          TotalsStep(lineCount, wordCount, charCount, unread, failure);
          var line := step.text;
          lineCount := IntAdd(lineCount, 1);
          charCount := LongAdd(charCount, |line|);
          wordCount := CountWords(wordCount, Split(line));
          unread := step.unread;
          step := ReadLine(unread, failure);
        }
        if step.Failed? {
          alert := Some(ReadError(step.message));
        }
    }
    charCount := LongAdd(charCount, if lineCount > 0 then lineCount - 1 else 0);
    report := Report(name, lineCount, wordCount, charCount);
  }

  // ---------------------------------------------------------------------------
  // What the Java counters hold
  // ---------------------------------------------------------------------------

  /** The inner loop wraps like a single `int` addition of the `n` non-blank
      tokens. */
  lemma {:induction false} AddNonBlankWraps(x: int, tokens: seq<string>, n: int)
    requires n == CountNonBlank(tokens)
    ensures AddNonBlank(Int32(x), tokens) == Int32(x + n)
    decreases |tokens|
  {
    if tokens != [] {
      var init := tokens[..|tokens| - 1];
      var m := CountNonBlank(init);
      AddNonBlankWraps(x, init, m);
      if Trim(tokens[|tokens| - 1]) != [] {
        IntAddWraps(x + m, 1);
      }
    }
  }

  /** The inner loop over one line adds the line's `n` words to a wrapped
      `wordCount`. */
  lemma LineAddWraps(b: int, line: string, n: int)
    requires n == WordRuns(line)
    ensures AddNonBlank(Int32(b), Split(line)) == Int32(b + n)
  {
    LineWordsAreRuns(line);
    AddNonBlankWraps(b, Split(line), n);
  }

  /** A line whose tokens are all blank leaves `wordCount` alone. */
  lemma {:induction false} AddNonBlankNone(w: int, tokens: seq<string>)
    requires CountNonBlank(tokens) == 0
    ensures AddNonBlank(w, tokens) == w
    decreases |tokens|
  {
    if tokens != [] {
      AddNonBlankNone(w, tokens[..|tokens| - 1]);
    }
  }

  /** `lineCount` keeps the number of lines read, wrapped to `int`. */
  lemma {:induction false} LineTotalWraps(a: int, lines: seq<string>)
    ensures LineTotal(Int32(a), lines) == Int32(a + |lines|)
    decreases |lines|
  {
    if lines != [] {
      IntAddWraps(a, 1);
      LineTotalWraps(a + 1, lines[1..]);
    }
  }

  /** Reading one line of `k` words adds `k` to a wrapped `wordCount`. */
  lemma WordStepWraps(b: int, lines: seq<string>, k: int)
    requires lines != [] && k == WordRuns(lines[0])
    ensures WordTotal(Int32(b), lines) == WordTotal(Int32(b + k), lines[1..])
  {
    LineAddWraps(b, lines[0], k);
  }

  /** `wordCount` keeps the number `n` of words read, wrapped to `int`. */
  lemma {:induction false} WordTotalWraps(b: int, lines: seq<string>, n: int)
    requires n == WordSum(lines)
    ensures WordTotal(Int32(b), lines) == Int32(b + n)
    decreases |lines|
  {
    if lines != [] {
      var k := WordRuns(lines[0]);
      WordStepWraps(b, lines, k);
      WordTotalWraps(b + k, lines[1..], n - k);
      assert b + k + (n - k) == b + n;
    }
  }

  /** `charCount` keeps the summed length `n` of the lines read, wrapped to
      `long`. */
  lemma {:induction false} CharTotalWraps(z: int, lines: seq<string>, n: int)
    requires n == CharSum(lines)
    ensures CharTotal(Int64(z), lines) == Int64(z + n)
    decreases |lines|
  {
    if lines != [] {
      var k := |lines[0]|;
      LongAddWraps(z, k);
      CharTotalWraps(z + k, lines[1..], n - k);
      assert z + k + (n - k) == z + n;
    }
  }

  /** Counted from zero, `lineCount` is the number of lines wrapped to `int`. */
  lemma LinesCounted(lines: seq<string>)
    ensures LineTotal(0, lines) == Int32(|lines|)
  {
    Int32Exact(0);
    LineTotalWraps(0, lines);
  }

  /** Counted from zero, `wordCount` is the number of words wrapped to `int`. */
  lemma WordsCounted(lines: seq<string>)
    ensures WordTotal(0, lines) == Int32(WordSum(lines))
  {
    Int32Exact(0);
    WordTotalWraps(0, lines, WordSum(lines));
  }

  /** Counted from zero, `charCount` is the summed length wrapped to `long`. */
  lemma CharsCounted(lines: seq<string>)
    ensures CharTotal(0, lines) == Int64(CharSum(lines))
  {
    Int64Exact(0);
    CharTotalWraps(0, lines, CharSum(lines));
  }

  /** The report holds the exact line and word totals wrapped to `int`, and
      the exact character total wrapped to `long` and then adjusted by the
      wrapped line count. */
  lemma SummaryWraps(name: string, lines: seq<string>)
    ensures Summary(name, lines).lines == Int32(|lines|)
    ensures Summary(name, lines).words == Int32(WordSum(lines))
    ensures Summary(name, lines).chars == Adjust(Int64(CharSum(lines)), Int32(|lines|))
  {
    LinesCounted(lines);
    WordsCounted(lines);
    CharsCounted(lines);
  }

  /** While no counter overflows, the report is exact: the number of lines,
      the number of words, and the summed lengths plus one for each line
      boundary (zero throughout for no lines at all). */
  lemma SummaryIsExact(name: string, lines: seq<string>)
    requires |lines| < 0x8000_0000 && WordSum(lines) < 0x8000_0000
    requires AdjustedChars(lines) < 0x8000_0000_0000_0000
    ensures Summary(name, lines) == Report(name, |lines|, WordSum(lines), AdjustedChars(lines))
  {
    SummaryWraps(name, lines);
    Int32Exact(|lines|);
    Int32Exact(WordSum(lines));
    Int64Exact(CharSum(lines));
  }

  /** With 2^32 lines the line counter is back at zero, so the report counts no
      lines and leaves the characters unadjusted. */
  lemma LineCountWraps(name: string, lines: seq<string>)
    requires |lines| == 0x1_0000_0000
    ensures Summary(name, lines).lines == 0
    ensures Summary(name, lines).chars == Int64(CharSum(lines))
  {
    SummaryWraps(name, lines);
    assert Int32(0x1_0000_0000) == 0;
    LongAddWraps(CharSum(lines), 0);
  }

  // ---------------------------------------------------------------------------
  // Properties of the exact counts
  // ---------------------------------------------------------------------------

  /** The word total is additive over concatenated sequences of lines. */
  lemma {:induction false} WordSumConcat(a: seq<string>, b: seq<string>)
    ensures WordSum(a + b) == WordSum(a) + WordSum(b)
    decreases |a|
  {
    if a == [] {
      assert a + b == b;
    } else {
      assert (a + b)[1..] == a[1..] + b;
      WordSumConcat(a[1..], b);
    }
  }

  /** So is the character total. */
  lemma {:induction false} CharSumConcat(a: seq<string>, b: seq<string>)
    ensures CharSum(a + b) == CharSum(a) + CharSum(b)
    decreases |a|
  {
    if a == [] {
      assert a + b == b;
    } else {
      assert (a + b)[1..] == a[1..] + b;
      CharSumConcat(a[1..], b);
    }
  }

  /** Reading `a` and then `b` leaves `lineCount` where reading `a + b` does:
      before the adjustment the counter is a fold over the lines. */
  lemma {:induction false} LineTotalConcat(n: int, a: seq<string>, b: seq<string>)
    ensures LineTotal(n, a + b) == LineTotal(LineTotal(n, a), b)
    decreases |a|
  {
    if a == [] {
      assert a + b == b;
    } else {
      assert (a + b)[1..] == a[1..] + b;
      LineTotalConcat(IntAdd(n, 1), a[1..], b);
    }
  }

  /** The same for `wordCount`. */
  lemma {:induction false} WordTotalConcat(w: int, a: seq<string>, b: seq<string>)
    ensures WordTotal(w, a + b) == WordTotal(WordTotal(w, a), b)
    decreases |a|
  {
    if a == [] {
      assert a + b == b;
    } else {
      assert (a + b)[1..] == a[1..] + b;
      assert (a + b)[0] == a[0];
      WordTotalConcat(AddNonBlank(w, Split(a[0])), a[1..], b);
    }
  }

  /** The same for `charCount`. */
  lemma {:induction false} CharTotalConcat(c: int, a: seq<string>, b: seq<string>)
    ensures CharTotal(c, a + b) == CharTotal(CharTotal(c, a), b)
    decreases |a|
  {
    if a == [] {
      assert a + b == b;
    } else {
      assert (a + b)[1..] == a[1..] + b;
      assert (a + b)[0] == a[0];
      CharTotalConcat(LongAdd(c, |a[0]|), a[1..], b);
    }
  }

  /** The counts never decrease while the loop runs: those of the first `k`
      lines are at most those of all lines. */
  lemma CountsMonotone(lines: seq<string>, k: int)
    requires 0 <= k <= |lines|
    ensures WordSum(lines[..k]) <= WordSum(lines)
    ensures CharSum(lines[..k]) <= CharSum(lines)
  {
    assert lines == lines[..k] + lines[k..];
    WordSumConcat(lines[..k], lines[k..]);
    CharSumConcat(lines[..k], lines[k..]);
  }

  /** A blank line (nothing but characters `trim` removes) adds its length to
      the characters but no word. */
  lemma BlankLineAddsNoWord(lines: seq<string>, line: string)
    requires !HasVisible(line)
    ensures WordSum(lines + [line]) == WordSum(lines)
    ensures CharSum(lines + [line]) == CharSum(lines) + |line|
  {
    WordSumConcat(lines, [line]);
    CharSumConcat(lines, [line]);
    WordRunsZero(line);
    assert [line][1..] == [];
  }

  /** The same for the Java counter: the turn on a blank line leaves
      `wordCount` as it was. */
  lemma BlankLineKeepsWordCount(w: int, line: string)
    requires !HasVisible(line)
    ensures AddNonBlank(w, Split(line)) == w
  {
    BlankLineHasNoWords(line);
    AddNonBlankNone(w, Split(line));
  }

  /** No file, or an empty one, gives zero lines, words and characters. */
  lemma EmptyFile(name: string, file: FileAccess)
    requires file.Missing? || file.content == []
    ensures Summary(name, Delivered(file)) == Report(name, 0, 0, 0)
  {
  }

  /** After an IOException the lines delivered are the file's lines, less the
      unterminated last one when there is one; so the partial counts never
      exceed those of a complete read. */
  lemma PartialRead(content: string, message: string)
    ensures var partial := Delivered(Readable(content, Some(message)));
      var full := ReadLines(content);
      && |full| - 1 <= |partial| <= |full| && partial == full[..|partial|]
      && WordSum(partial) <= WordSum(full) && CharSum(partial) <= CharSum(full)
  {
    var full := ReadLines(content);
    if content == [] || IsTerminator(content[|content| - 1]) {
      FailureKeepsCompleteLines(content, message);
      assert full[..|full|] == full;
    } else {
      FailureLosesPartialLine(content, message);
    }
    CountsMonotone(full, |Delivered(Readable(content, Some(message)))|);
  }

  /** A string of characters above U+0020 is a single word. */
  lemma PrintableRunIsOneWord(s: string)
    requires s != [] && forall i :: 0 <= i < |s| ==> s[i] > ' '
    ensures WordRuns(s) == 1
  {
    assert !IsTrimmable(s[0]);
    SingleWord(s);
  }

  /** Two printable runs separated by one space are two words. */
  lemma TwoWords(a: string, b: string)
    requires a != [] && forall i :: 0 <= i < |a| ==> a[i] > ' '
    requires b != [] && forall i :: 0 <= i < |b| ==> b[i] > ' '
    ensures WordRuns(a + " " + b) == 2
  {
    PrintableRunIsOneWord(a);
    PrintableRunIsOneWord(b);
    var sp := " ";
    assert AllSpace(sp);
    WordRunsSeparated(a, sp, b);
  }

  /** Three printable runs separated by single spaces are three words. */
  lemma ThreeWords(a: string, b: string, c: string)
    requires a != [] && forall i :: 0 <= i < |a| ==> a[i] > ' '
    requires b != [] && forall i :: 0 <= i < |b| ==> b[i] > ' '
    requires c != [] && forall i :: 0 <= i < |c| ==> c[i] > ' '
    ensures WordRuns(a + " " + b + " " + c) == 3
  {
    TwoWords(a, b);
    PrintableRunIsOneWord(c);
    var sp := " ";
    assert AllSpace(sp);
    WordRunsSeparated(a + sp + b, sp, c);
  }

  /** This lemma and the two after it take their example line as a parameter
      fixed by `requires` rather than written inline: with the literal in the
      lemma's own context the verifier unfolds the recursive word count on it
      far more eagerly. */
  lemma HelloWorldIsTwoWords(s: string)
    requires s == "hello world"
    ensures WordRuns(s) == 2
  {
    var hello, world := "hello", "world";
    assert s == hello + " " + world;
    assert hello[0] > ' ' && hello[1] > ' ' && hello[2] > ' ' && hello[3] > ' ' && hello[4] > ' ';
    assert world[0] > ' ' && world[1] > ' ' && world[2] > ' ' && world[3] > ' ' && world[4] > ' ';
    TwoWords(hello, world);
  }

  lemma BarBazQuxIsThreeWords(s: string)
    requires s == "bar baz qux"
    ensures WordRuns(s) == 3
  {
    var bar, baz, qux := "bar", "baz", "qux";
    assert s == bar + " " + baz + " " + qux;
    assert bar[0] > ' ' && bar[1] > ' ' && bar[2] > ' ';
    assert baz[0] > ' ' && baz[1] > ' ' && baz[2] > ' ';
    assert qux[0] > ' ' && qux[1] > ' ' && qux[2] > ' ';
    ThreeWords(bar, baz, qux);
  }

  lemma FooIsOneWord(s: string)
    requires s == "foo"
    ensures WordRuns(s) == 1
  {
    assert s[0] > ' ' && s[1] > ' ' && s[2] > ' ';
    PrintableRunIsOneWord(s);
  }

  /** The lines `"hello world"`, `"foo"`, `""` and `"bar baz qux"` are reported
      as four lines, six words and 25 + 3 = 28 characters. */
  lemma WorkedExample(name: string, lines: seq<string>)
    requires |lines| == 4 && lines[0] == "hello world" && lines[1] == "foo"
    requires lines[2] == "" && lines[3] == "bar baz qux"
    ensures Summary(name, lines) == Report(name, 4, 6, 28)
  {
    HelloWorldIsTwoWords(lines[0]);
    FooIsOneWord(lines[1]);
    BarBazQuxIsThreeWords(lines[3]);
    var tail1, tail2, tail3 := lines[1..], lines[2..], lines[3..];
    assert tail3[0] == lines[3] && tail3[1..] == [];
    assert WordSum(tail3) == 3 && CharSum(tail3) == 11;
    assert tail2[0] == lines[2] && tail2[1..] == tail3;
    assert WordSum(tail2) == 3 && CharSum(tail2) == 11;
    assert tail1[0] == lines[1] && tail1[1..] == tail2;
    assert WordSum(tail1) == 4 && CharSum(tail1) == 14;
    assert WordSum(lines) == 6 && CharSum(lines) == 25;
    SummaryIsExact(name, lines);
  }

  /** The example lines joined by line feeds are the example content. */
  lemma ExampleJoined(lines: seq<string>)
    requires |lines| == 4 && lines[0] == "hello world" && lines[1] == "foo"
    requires lines[2] == "" && lines[3] == "bar baz qux"
    ensures Join(lines, "\n") == "hello world\nfoo\n\nbar baz qux"
  {
    var t := "\n";
    var tail1, tail2, tail3 := lines[1..], lines[2..], lines[3..];
    assert tail3 == [lines[3]] && Join(tail3, t) == lines[3];
    assert tail2[1..] == tail3 && Join(tail2, t) == lines[2] + t + lines[3];
    assert tail1[1..] == tail2 && Join(tail1, t) == lines[1] + t + (lines[2] + t + lines[3]);
    assert Join(lines, t) == lines[0] + t + (lines[1] + t + (lines[2] + t + lines[3]));
  }

  /** The example lines hold no line break. */
  lemma ExampleUnbroken(lines: seq<string>)
    requires |lines| == 4 && lines[0] == "hello world" && lines[1] == "foo"
    requires lines[2] == "" && lines[3] == "bar baz qux"
    ensures forall k :: 0 <= k < |lines| ==> NoTerminator(lines[k])
  {
    assert NoTerminator(lines[0]) && NoTerminator(lines[1]);
    assert NoTerminator(lines[2]) && NoTerminator(lines[3]);
  }

  /** The example content reads as the example lines. */
  lemma ExampleContent(content: string) returns (lines: seq<string>)
    requires content == "hello world\nfoo\n\nbar baz qux"
    ensures |lines| == 4 && lines[0] == "hello world" && lines[1] == "foo"
    ensures lines[2] == "" && lines[3] == "bar baz qux"
    ensures ReadLines(content) == lines
  {
    lines := ["hello world", "foo", "", "bar baz qux"];
    ExampleJoined(lines);
    ExampleUnbroken(lines);
    ReadJoined(lines, "\n");
  }

  /** The same reached from the file's content through `readLine`. */
  lemma WorkedFile(name: string, content: string)
    requires content == "hello world\nfoo\n\nbar baz qux"
    ensures Summary(name, Delivered(Readable(content, None))) == Report(name, 4, 6, 28)
  {
    var lines := ExampleContent(content);
    WorkedExample(name, lines);
  }

  /** `|content|` from the lines joined by the line break `t`. */
  lemma {:induction false} JoinLength(lines: seq<string>, t: string)
    requires lines != []
    ensures |Join(lines, t)| == CharSum(lines) + |t| * (|lines| - 1)
  {
    if |lines| > 1 {
      JoinLength(lines[1..], t);
    }
  }

  /** For a file whose lines are separated by the one-character break `t` and
      whose last line is not terminated, the adjusted character count is the
      file's length; each two-character break `"\r\n"` counts one short. */
  lemma AdjustmentRestoresLength(lines: seq<string>, t: string)
    requires IsLineBreak(t) && lines != [] && lines[|lines| - 1] != []
    requires forall k :: 0 <= k < |lines| ==> NoTerminator(lines[k])
    ensures ReadLines(Join(lines, t)) == lines
    ensures AdjustedChars(ReadLines(Join(lines, t))) + (|t| - 1) * (|lines| - 1) == |Join(lines, t)|
  {
    ReadJoined(lines, t);
    JoinLength(lines, t);
  }

  /** `|content|` from the lines each followed by the line break `t`. */
  lemma {:induction false} TerminatedLength(lines: seq<string>, t: string)
    ensures |Terminated(lines, t)| == CharSum(lines) + |t| * |lines|
  {
    if lines != [] {
      TerminatedLength(lines[1..], t);
    }
  }

  /** When the last line is terminated too, the adjusted count is one short of
      the file's length (per one-character break). */
  lemma AdjustmentOnTerminatedFile(lines: seq<string>, t: string)
    requires IsLineBreak(t) && lines != []
    requires forall k :: 0 <= k < |lines| ==> NoTerminator(lines[k])
    ensures ReadLines(Terminated(lines, t)) == lines
    ensures AdjustedChars(ReadLines(Terminated(lines, t))) + (|t| - 1) * |lines| + 1 == |Terminated(lines, t)|
  {
    ReadTerminated(lines, t);
    TerminatedLength(lines, t);
  }
}
