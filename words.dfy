/** What `processFile` counts as the words of one line (lines 73-78 of
    FileInspector.java), and an independent definition of the same count as
    runs of characters, with the laws the count obeys. */
module Words {
  import opened JavaLang

  /** Reference definition: the number of maximal runs of non-`\s` characters
      in `s` that hold at least one character `trim()` keeps. */
  function WordRuns(s: string): (n: nat)
    ensures n <= |s|
    decreases |s|
  {
    if s == [] then 0
    else if IsSpace(s[0]) then WordRuns(s[1..])
    else
      NonSpacePrefixShape(s);
      var w := NonSpacePrefix(s);
      (if HasVisible(w) then 1 else 0) + WordRuns(s[|w|..])
  }

  /** The tokens of `tokens` that `trim()` does not reduce to the empty string:
      the inner `for` loop of `processFile`, read from the first token on. */
  function CountNonBlank(tokens: seq<string>): nat {
    if tokens == [] then 0
    else CountNonBlank(tokens[..|tokens| - 1]) + (if Trim(tokens[|tokens| - 1]) != [] then 1 else 0)
  }

  /** The words `processFile` adds for one line: the tokens of
      `line.split("\\s+")` whose `trim()` is not empty. */
  function LineWords(line: string): nat {
    CountNonBlank(Split(line))
  }

  lemma {:induction false} CountNonBlankConcat(a: seq<string>, b: seq<string>)
    ensures CountNonBlank(a + b) == CountNonBlank(a) + CountNonBlank(b)
    decreases |b|
  {
    if b != [] {
      assert (a + b)[..|a + b| - 1] == a + b[..|b| - 1];
      CountNonBlankConcat(a, b[..|b| - 1]);
    } else {
      assert a + b == a;
    }
  }

  lemma {:induction false} CountNonBlankDropTrailing(tokens: seq<string>)
    ensures CountNonBlank(DropTrailingEmpty(tokens)) == CountNonBlank(tokens)
    decreases |tokens|
  {
    if tokens != [] && tokens[|tokens| - 1] == [] {
      CountNonBlankDropTrailing(tokens[..|tokens| - 1]);
    }
  }

  lemma {:induction false} WordRunsSkip(s: string)
    ensures WordRuns(SkipSpaces(s)) == WordRuns(s)
    decreases |s|
  {
    if s != [] && IsSpace(s[0]) {
      WordRunsSkip(s[1..]);
    }
  }

  lemma {:induction false} FieldsCount(s: string)
    ensures CountNonBlank(Fields(s)) == WordRuns(s)
    decreases |s|
  {
    if s == [] {
      PrependCount([], []);
    } else if IsSpace(s[0]) {
      SkipSpacesShape(s);
      var t := SkipSpaces(s);
      FieldsCount(t);
      WordRunsSkip(s);
      PrependCount([], Fields(t));
    } else {
      NonSpacePrefixShape(s);
      var word := NonSpacePrefix(s);
      var rest := s[|word|..];
      if rest == [] {
        PrependCount(word, []);
      } else {
        SkipSpacesShape(rest);
        var t := SkipSpaces(rest);
        FieldsCount(t);
        WordRunsSkip(rest);
        PrependCount(word, Fields(t));
      }
    }
  }

  lemma PrependCount(token: string, tokens: seq<string>)
    ensures CountNonBlank([token] + tokens) == (if HasVisible(token) then 1 else 0) + CountNonBlank(tokens)
  {
    CountNonBlankConcat([token], tokens);
    assert [token][..0] == [];
  }

  /** The line contributes exactly its number of visible non-`\s` runs: the
      empty first token that a leading run of `\s` produces, and the empty
      trailing tokens `split` drops, never count. */
  lemma LineWordsAreRuns(line: string)
    ensures LineWords(line) == WordRuns(line)
  {
    if line != [] {
      CountNonBlankDropTrailing(Fields(line));
    }
    FieldsCount(line);
  }

  lemma {:induction false} NonSpacePrefixStops(a: string, x: string)
    requires x != [] && IsSpace(x[0])
    ensures NonSpacePrefix(a + x) == NonSpacePrefix(a)
    decreases |a|
  {
    if a != [] {
      assert (a + x)[1..] == a[1..] + x;
      NonSpacePrefixStops(a[1..], x);
    }
  }

  /** Leading `\s` characters do not change the count. */
  lemma {:induction false} WordRunsLeadingSpace(w: string, s: string)
    requires AllSpace(w)
    ensures WordRuns(w + s) == WordRuns(s)
    decreases |w|
  {
    if w != [] {
      assert (w + s)[1..] == w[1..] + s;
      WordRunsLeadingSpace(w[1..], s);
    } else {
      assert w + s == s;
    }
  }

  /** A non-empty run of `\s` characters separates the words on its two sides:
      the count is additive across it. */
  lemma {:induction false} WordRunsSeparated(a: string, w: string, b: string)
    requires w != [] && AllSpace(w)
    ensures WordRuns(a + w + b) == WordRuns(a) + WordRuns(b)
    decreases |a|
  {
    var s := a + w + b;
    if a == [] {
      assert s == w + b;
      WordRunsLeadingSpace(w, b);
    } else if IsSpace(a[0]) {
      assert s[1..] == a[1..] + w + b;
      WordRunsSeparated(a[1..], w, b);
    } else {
      assert s == a + (w + b);
      NonSpacePrefixStops(a, w + b);
      NonSpacePrefixShape(a);
      var p := NonSpacePrefix(a);
      assert s[|p|..] == a[|p|..] + w + b;
      WordRunsSeparated(a[|p|..], w, b);
    }
  }

  /** Trailing `\s` characters do not change the count. */
  lemma WordRunsTrailingSpace(s: string, w: string)
    requires AllSpace(w)
    ensures WordRuns(s + w) == WordRuns(s)
  {
    if w != [] {
      WordRunsSeparated(s, w, []);
      assert s + w + [] == s + w;
    } else {
      assert s + w == s;
    }
  }

  /** How much `\s` separates two pieces of a line does not change the count. */
  lemma WordRunsSeparatorInvariant(a: string, w1: string, w2: string, b: string)
    requires w1 != [] && AllSpace(w1) && w2 != [] && AllSpace(w2)
    ensures WordRuns(a + w1 + b) == WordRuns(a + w2 + b)
  {
    WordRunsSeparated(a, w1, b);
    WordRunsSeparated(a, w2, b);
  }

  /** A run of non-`\s` characters holding a character `trim()` keeps is one
      word. */
  lemma SingleWord(w: string)
    requires w != [] && NoSpace(w) && HasVisible(w)
    ensures WordRuns(w) == 1
  {
    NonSpacePrefixShape(w);
    var p := NonSpacePrefix(w);
    assert p == w;
    WordRunsZero(w[|p|..]);
  }

  /** Whether a string holds a character `trim()` keeps is decided piecewise. */
  lemma VisibleSplits(s: string, k: int)
    requires 0 <= k <= |s|
    ensures HasVisible(s) <==> HasVisible(s[..k]) || HasVisible(s[k..])
  {
    if HasVisible(s) {
      var i :| 0 <= i < |s| && !IsTrimmable(s[i]);
      if i < k { assert s[..k][i] == s[i]; } else { assert s[k..][i - k] == s[i]; }
    }
    if HasVisible(s[..k]) {
      var i :| 0 <= i < k && !IsTrimmable(s[..k][i]);
      assert s[i] == s[..k][i];
    }
    if HasVisible(s[k..]) {
      var i :| 0 <= i < |s| - k && !IsTrimmable(s[k..][i]);
      assert s[i + k] == s[k..][i];
    }
  }

  /** A line has no words exactly when it has no character `trim()` keeps; in
      particular an empty line and a line of `\s` characters have none. */
  lemma {:induction false} WordRunsZero(s: string)
    ensures WordRuns(s) == 0 <==> !HasVisible(s)
    decreases |s|
  {
    if s != [] {
      if IsSpace(s[0]) {
        WordRunsZero(s[1..]);
        VisibleSplits(s, 1);
        assert !HasVisible(s[..1]) by {
          assert s[..1] == [s[0]] && IsTrimmable(s[0]);
        }
      } else {
        NonSpacePrefixShape(s);
        var p := NonSpacePrefix(s);
        WordRunsZero(s[|p|..]);
        VisibleSplits(s, |p|);
      }
    }
  }

  /** A line that is empty or holds only characters `trim()` removes (every
      `\s` character is one) adds no words. */
  lemma BlankLineHasNoWords(line: string)
    requires !HasVisible(line)
    ensures LineWords(line) == 0
  {
    LineWordsAreRuns(line);
    WordRunsZero(line);
  }

  lemma SpaceIsTrimmable(s: string)
    requires AllSpace(s)
    ensures !HasVisible(s)
  {
  }
}
