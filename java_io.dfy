/** `BufferedReader.readLine()` over a character device, stated as functions.
    The device delivers `content` and then either end-of-file or, when
    `failure` holds a message, an `IOException` carrying that message. */
module JavaIo {
  import opened Wrappers

  /** The characters that end a line for `readLine`. */
  predicate IsTerminator(c: char) {
    c == '\n' || c == '\r'
  }

  predicate NoTerminator(s: string) {
    forall i :: 0 <= i < |s| ==> !IsTerminator(s[i])
  }

  /** The line breaks `readLine` recognises: line feed, carriage return, and a
      carriage return followed by a line feed. */
  predicate IsLineBreak(t: string) {
    t == "\n" || t == "\r" || t == "\r\n"
  }

  /** One line taken off the front of the input: its text, the line break that
      ended it (empty when the input ran out first) and what follows. */
  datatype Cut = Cut(line: string, ending: string, rest: string)

  /** Scans `s` up to its first line break. */
  function NextLine(s: string): (c: Cut)
    ensures s == c.line + c.ending + c.rest
    ensures NoTerminator(c.line)
    ensures c.ending == [] || IsLineBreak(c.ending)
    ensures c.ending == [] ==> c.rest == []
    ensures c.ending == "\r" ==> c.rest == [] || c.rest[0] != '\n'
  {
    if s == [] then Cut([], [], [])
    else if s[0] == '\n' then Cut([], "\n", s[1..])
    else if s[0] == '\r' then
      if |s| > 1 && s[1] == '\n' then Cut([], "\r\n", s[2..]) else Cut([], "\r", s[1..])
    else
      var c := NextLine(s[1..]);
      Cut([s[0]] + c.line, c.ending, c.rest)
  }

  /** The outcome of one `readLine()` call. */
  datatype Step = Line(text: string, unread: string) | EndOfStream | Failed(message: string)

  /** One `readLine()` call on a reader that has `unread` left before the end
      of the device's content. A line that the content ends in the middle of
      is lost when the device then fails, because the reader meets the
      failure while looking for that line's end. */
  function ReadLine(unread: string, failure: Option<string>): (r: Step)
    ensures r.Line? ==> |r.unread| < |unread| && NoTerminator(r.text)
    ensures r.Line? ==> unread == r.text + NextLine(unread).ending + r.unread
    ensures r.Line? && NextLine(unread).ending == [] ==> r.unread == [] && r.text == unread
    ensures r.EndOfStream? <==> unread == [] && failure.None?
    ensures r.Failed? <==> failure.Some? && NextLine(unread).ending == []
    ensures r.Failed? ==> failure == Some(r.message)
  {
    var c := NextLine(unread);
    if c.ending == [] && failure.Some? then Failed(failure.value)
    else if unread == [] then EndOfStream
    else Line(c.line, c.rest)
  }

  /** The lines that successive `readLine()` calls return before the first
      null or exception. */
  function Lines(unread: string, failure: Option<string>): (r: seq<string>)
    ensures forall k :: 0 <= k < |r| ==> NoTerminator(r[k])
    ensures |r| <= |unread|
    decreases |unread|
  {
    match ReadLine(unread, failure)
    case Line(text, rest) => [text] + Lines(rest, failure)
    case _ => []
  }

  /** The lines of a device that reaches end-of-file. */
  function ReadLines(content: string): seq<string> {
    Lines(content, None)
  }

  /** `content` with each line followed by the line break `t`. */
  function Terminated(lines: seq<string>, t: string): string {
    if lines == [] then [] else lines[0] + t + Terminated(lines[1..], t)
  }

  /** `lines` joined with the line break `t` between consecutive lines. */
  function Join(lines: seq<string>, t: string): string {
    if lines == [] then []
    else if |lines| == 1 then lines[0]
    else lines[0] + t + Join(lines[1..], t)
  }

  lemma {:induction false} NextLineOfLast(line: string)
    requires NoTerminator(line)
    ensures NextLine(line) == Cut(line, [], [])
  {
    if line != [] {
      NextLineOfLast(line[1..]);
      assert [line[0]] + line[1..] == line;
    }
  }

  lemma {:induction false} NextLineOf(line: string, t: string, rest: string)
    requires NoTerminator(line) && IsLineBreak(t)
    requires t == "\r" ==> rest == [] || rest[0] != '\n'
    ensures NextLine(line + t + rest) == Cut(line, t, rest)
    decreases |line|
  {
    var s := line + t + rest;
    if line == [] {
      assert s == t + rest;
      if t == "\r\n" {
        assert s[0] == '\r' && s[1] == '\n' && s[2..] == rest;
      } else {
        assert s[1..] == rest;
        assert t == "\r" ==> |s| == 1 || s[1] != '\n';
      }
    } else {
      assert s[0] == line[0] && !IsTerminator(line[0]);
      assert s[1..] == line[1..] + t + rest;
      NextLineOf(line[1..], t, rest);
      assert [line[0]] + line[1..] == line;
    }
  }

  /** A content with no characters reads as no lines; any other content reads
      as at least one line. */
  lemma ReadLinesEmpty(content: string)
    ensures ReadLines(content) == [] <==> content == []
  {
  }

  /** A line ended by a line break is read as that line, and reading goes on
      right after the break. */
  lemma ReadAfterLine(line: string, t: string, rest: string)
    requires NoTerminator(line) && IsLineBreak(t)
    requires t == "\r" ==> rest == [] || rest[0] != '\n'
    ensures ReadLines(line + t + rest) == [line] + ReadLines(rest)
  {
    NextLineOf(line, t, rest);
    assert ReadLine(line + t + rest, None) == Line(line, rest);
  }

  lemma TerminatedStart(lines: seq<string>, t: string)
    requires IsLineBreak(t)
    requires forall k :: 0 <= k < |lines| ==> NoTerminator(lines[k])
    ensures Terminated(lines, t) == [] || Terminated(lines, t)[0] != '\n' || t != "\r"
  {
    if lines != [] {
      var s := Terminated(lines, t);
      assert s == lines[0] + t + Terminated(lines[1..], t);
      if lines[0] != [] {
        assert s[0] == lines[0][0] && !IsTerminator(lines[0][0]);
      } else {
        assert s[0] == t[0];
      }
    }
  }

  /** Round trip: terminating every line with the same line break and reading
      the result back gives the lines again. */
  lemma {:induction false} ReadTerminated(lines: seq<string>, t: string)
    requires IsLineBreak(t)
    requires forall k :: 0 <= k < |lines| ==> NoTerminator(lines[k])
    ensures ReadLines(Terminated(lines, t)) == lines
  {
    if lines != [] {
      var rest := Terminated(lines[1..], t);
      TerminatedStart(lines[1..], t);
      ReadAfterLine(lines[0], t, rest);
      ReadTerminated(lines[1..], t);
    }
  }

  /** Round trip without a trailing line break: joining the lines and reading
      them back gives the lines again, provided the last one is not empty (an
      empty last line leaves no trace in the joined content). */
  lemma {:induction false} ReadJoined(lines: seq<string>, t: string)
    requires IsLineBreak(t) && lines != [] && lines[|lines| - 1] != []
    requires forall k :: 0 <= k < |lines| ==> NoTerminator(lines[k])
    ensures ReadLines(Join(lines, t)) == lines
  {
    if |lines| == 1 {
      NextLineOfLast(lines[0]);
    } else {
      var rest := Join(lines[1..], t);
      JoinedStart(lines[1..], t);
      ReadAfterLine(lines[0], t, rest);
      ReadJoined(lines[1..], t);
    }
  }

  lemma {:induction false} JoinedStart(lines: seq<string>, t: string)
    requires IsLineBreak(t) && lines != [] && lines[|lines| - 1] != []
    requires forall k :: 0 <= k < |lines| ==> NoTerminator(lines[k])
    ensures Join(lines, t) != []
    ensures Join(lines, t)[0] != '\n' || t != "\r"
  {
    if |lines| > 1 {
      JoinedStart(lines[1..], t);
    }
  }

  /** A device that fails right after a line break delivers the same lines as
      one that reaches end-of-file there. */
  lemma {:induction false} FailureKeepsCompleteLines(content: string, message: string)
    requires content == [] || IsTerminator(content[|content| - 1])
    ensures Lines(content, Some(message)) == ReadLines(content)
    decreases |content|
  {
    if content != [] {
      var c := NextLine(content);
      if c.ending != [] {
        assert ReadLine(content, Some(message)) == Line(c.line, c.rest);
        if c.rest != [] {
          assert content[|content| - 1] == c.rest[|c.rest| - 1];
        }
        FailureKeepsCompleteLines(c.rest, message);
      }
    }
  }

  /** A device that fails in the middle of a line delivers the lines of one
      that reaches end-of-file, except the last, unfinished one. */
  lemma {:induction false} FailureLosesPartialLine(content: string, message: string)
    requires content != [] && !IsTerminator(content[|content| - 1])
    ensures ReadLines(content) != []
    ensures Lines(content, Some(message)) == ReadLines(content)[..|ReadLines(content)| - 1]
    decreases |content|
  {
    var c := NextLine(content);
    if c.ending != [] {
      assert c.rest != [] && content[|content| - 1] == c.rest[|c.rest| - 1];
      assert ReadLine(content, None) == Line(c.line, c.rest);
      assert ReadLine(content, Some(message)) == Line(c.line, c.rest);
      FailureLosesPartialLine(c.rest, message);
      var full := ReadLines(c.rest);
      assert ReadLines(content) == [c.line] + full;
      assert Lines(content, Some(message)) == [c.line] + Lines(c.rest, Some(message));
      assert ([c.line] + full)[..|full|] == [c.line] + full[..|full| - 1];
    } else {
      assert ReadLine(content, None) == Line(c.line, []);
      assert ReadLine(content, Some(message)) == Failed(message);
      assert ReadLines(content) == [c.line] + ReadLines([]);
    }
  }
}
