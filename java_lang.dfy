/** The parts of the Java platform that `processFile` relies on, stated as
    functions: `int` and `long` arithmetic, the regular-expression class `\s`,
    `String.trim()` and `String.split("\\s+")`. A Java `char` (a UTF-16 code
    unit) is modelled by a Dafny `char`. */
module JavaLang {

  // ---------------------------------------------------------------------------
  // int and long arithmetic
  // ---------------------------------------------------------------------------

  /** The value a Java `int` holds once a result whose mathematical value is
      `x` is stored into it: two's-complement wrap-around, that is, `x` moved
      into [-2^31, 2^31) by a multiple of 2^32. */
  function Int32(x: int): (r: int)
    ensures -0x8000_0000 <= r < 0x8000_0000
    decreases if x >= 0x8000_0000 then x else if x < -0x8000_0000 then -x else 0
  {
    if x >= 0x8000_0000 then Int32(x - 0x1_0000_0000)
    else if x < -0x8000_0000 then Int32(x + 0x1_0000_0000)
    else x
  }

  /** The value a Java `long` holds once a result whose mathematical value is
      `x` is stored into it: `x` moved into [-2^63, 2^63) by a multiple of 2^64. */
  function Int64(x: int): (r: int)
    ensures -0x8000_0000_0000_0000 <= r < 0x8000_0000_0000_0000
    decreases if x >= 0x8000_0000_0000_0000 then x else if x < -0x8000_0000_0000_0000 then -x else 0
  {
    if x >= 0x8000_0000_0000_0000 then Int64(x - 0x1_0000_0000_0000_0000)
    else if x < -0x8000_0000_0000_0000 then Int64(x + 0x1_0000_0000_0000_0000)
    else x
  }

  /** The wrap-around moves `x` by a whole number of 2^32 steps. */
  lemma {:induction false} Int32Offset(x: int) returns (k: int)
    ensures x == Int32(x) + k * 0x1_0000_0000
    decreases if x >= 0x8000_0000 then x else if x < -0x8000_0000 then -x else 0
  {
    if x >= 0x8000_0000 {
      k := Int32Offset(x - 0x1_0000_0000);
      k := k + 1;
    } else if x < -0x8000_0000 {
      k := Int32Offset(x + 0x1_0000_0000);
      k := k - 1;
    } else {
      k := 0;
    }
  }

  /** The wrap-around moves `x` by a whole number of 2^64 steps. */
  lemma {:induction false} Int64Offset(x: int) returns (k: int)
    ensures x == Int64(x) + k * 0x1_0000_0000_0000_0000
    decreases if x >= 0x8000_0000_0000_0000 then x else if x < -0x8000_0000_0000_0000 then -x else 0
  {
    if x >= 0x8000_0000_0000_0000 {
      k := Int64Offset(x - 0x1_0000_0000_0000_0000);
      k := k + 1;
    } else if x < -0x8000_0000_0000_0000 {
      k := Int64Offset(x + 0x1_0000_0000_0000_0000);
      k := k - 1;
    } else {
      k := 0;
    }
  }

  /** The wrap-around keeps the low-order 32 bits of `x` and reads them as a
      two's-complement `int`: the remainder modulo 2^32, shifted. */
  lemma Int32IsRemainder(x: int)
    ensures Int32(x) == (x + 0x8000_0000) % 0x1_0000_0000 - 0x8000_0000
  {
    var k := Int32Offset(x);
    var r := Int32(x) + 0x8000_0000;
    assert 0 <= r < 0x1_0000_0000 && x + 0x8000_0000 == r + k * 0x1_0000_0000;
  }

  /** The wrap-around is the remainder modulo 2^64, shifted. */
  lemma Int64IsRemainder(x: int)
    ensures Int64(x) == (x + 0x8000_0000_0000_0000) % 0x1_0000_0000_0000_0000 - 0x8000_0000_0000_0000
  {
    var k := Int64Offset(x);
    var r := Int64(x) + 0x8000_0000_0000_0000;
    assert 0 <= r < 0x1_0000_0000_0000_0000 && x + 0x8000_0000_0000_0000 == r + k * 0x1_0000_0000_0000_0000;
  }

  predicate IsInt(x: int) {
    -0x8000_0000 <= x < 0x8000_0000
  }

  predicate IsLong(x: int) {
    -0x8000_0000_0000_0000 <= x < 0x8000_0000_0000_0000
  }

  /** Java's `int` addition: on overflow the result is the low-order bits of
      the exact sum (section 15.18.2 of the Java Language Specification). */
  function IntAdd(a: int, b: int): (r: int)
    ensures IsInt(r)
    ensures IsInt(a + b) ==> r == a + b
  {
    Int32(a + b)
  }

  /** Java's `long` addition, also for an `int` operand that is widened to
      `long` first: the exact sum, stored into a `long`. */
  function LongAdd(a: int, b: int): (r: int)
    ensures IsLong(r)
    ensures IsLong(a + b) ==> r == a + b
  {
    Int64(a + b)
  }

  /** Storing into an `int` does not see multiples of 2^32. */
  lemma {:induction false} Int32Periodic(y: int, k: int)
    ensures Int32(y + k * 0x1_0000_0000) == Int32(y)
    decreases if k < 0 then -k else k
  {
    if k > 0 {
      Int32Periodic(y, k - 1);
      var z := y + (k - 1) * 0x1_0000_0000;
      assert Int32(z + 0x1_0000_0000) == Int32(z);
    } else if k < 0 {
      Int32Periodic(y, k + 1);
      var z := y + k * 0x1_0000_0000;
      assert Int32(z + 0x1_0000_0000) == Int32(z);
    }
  }

  /** Nor does storing into a `long` see multiples of 2^64. */
  lemma {:induction false} Int64Periodic(y: int, k: int)
    ensures Int64(y + k * 0x1_0000_0000_0000_0000) == Int64(y)
    decreases if k < 0 then -k else k
  {
    if k > 0 {
      Int64Periodic(y, k - 1);
      var z := y + (k - 1) * 0x1_0000_0000_0000_0000;
      assert Int64(z + 0x1_0000_0000_0000_0000) == Int64(z);
    } else if k < 0 {
      Int64Periodic(y, k + 1);
      var z := y + k * 0x1_0000_0000_0000_0000;
      assert Int64(z + 0x1_0000_0000_0000_0000) == Int64(z);
    }
  }

  /** Adding to a wrapped `int` gives the wrapped exact sum. */
  lemma IntAddWraps(x: int, b: int)
    ensures IntAdd(Int32(x), b) == Int32(x + b)
  {
    var k := Int32Offset(x);
    Int32Periodic(Int32(x) + b, k);
    assert Int32(x) + b + k * 0x1_0000_0000 == x + b;
  }

  /** Adding to a wrapped `long` gives the wrapped exact sum. */
  lemma LongAddWraps(x: int, b: int)
    ensures LongAdd(Int64(x), b) == Int64(x + b)
  {
    var k := Int64Offset(x);
    Int64Periodic(Int64(x) + b, k);
    assert Int64(x) + b + k * 0x1_0000_0000_0000_0000 == x + b;
  }

  /** A value inside the `int` range is stored unchanged. */
  lemma Int32Exact(x: int)
    requires IsInt(x)
    ensures Int32(x) == x
  {
  }

  lemma Int64Exact(x: int)
    requires IsLong(x)
    ensures Int64(x) == x
  {
  }

  // ---------------------------------------------------------------------------
  // Character classes
  // ---------------------------------------------------------------------------

  /** The predefined regular-expression class `\s` of java.util.regex (without
      UNICODE_CHARACTER_CLASS): `[ \t\n\x0B\f\r]`. */
  predicate IsSpace(c: char) {
    c == ' ' || c == '\t' || c == '\n' || c == '\U{B}' || c == '\U{C}' || c == '\r'
  }

  /** A character `String.trim()` removes: any code point up to U+0020. */
  predicate IsTrimmable(c: char) {
    c <= ' '
  }

  predicate NoSpace(s: string) {
    forall i :: 0 <= i < |s| ==> !IsSpace(s[i])
  }

  predicate AllSpace(s: string) {
    forall i :: 0 <= i < |s| ==> IsSpace(s[i])
  }

  /** `s` holds a character that `trim()` keeps. */
  predicate HasVisible(s: string) {
    exists i :: 0 <= i < |s| && !IsTrimmable(s[i])
  }

  // ---------------------------------------------------------------------------
  // String.trim()
  // ---------------------------------------------------------------------------

  /** `s` without its leading characters up to U+0020. */
  function TrimStart(s: string): string {
    if s != [] && IsTrimmable(s[0]) then TrimStart(s[1..]) else s
  }

  /** `s` without its trailing characters up to U+0020. */
  function TrimEnd(s: string): string {
    if s != [] && IsTrimmable(s[|s| - 1]) then TrimEnd(s[..|s| - 1]) else s
  }

  /** What `TrimStart` removes is a prefix of trimmable characters, and what
      it keeps starts with a character `trim()` keeps. */
  lemma {:induction false} TrimStartRemovesPrefix(s: string)
    ensures |TrimStart(s)| <= |s| && TrimStart(s) == s[|s| - |TrimStart(s)|..]
    ensures forall i :: 0 <= i < |s| - |TrimStart(s)| ==> IsTrimmable(s[i])
    ensures TrimStart(s) != [] ==> !IsTrimmable(TrimStart(s)[0])
    decreases |s|
  {
    if s != [] && IsTrimmable(s[0]) {
      TrimStartRemovesPrefix(s[1..]);
      assert forall i :: 1 <= i < |s| - |TrimStart(s)| ==> s[i] == s[1..][i - 1];
    }
  }

  /** What `TrimEnd` removes is a suffix of trimmable characters, and what it
      keeps ends with a character `trim()` keeps. */
  lemma {:induction false} TrimEndRemovesSuffix(s: string)
    ensures |TrimEnd(s)| <= |s| && TrimEnd(s) == s[..|TrimEnd(s)|]
    ensures forall i :: |TrimEnd(s)| <= i < |s| ==> IsTrimmable(s[i])
    ensures TrimEnd(s) != [] ==> !IsTrimmable(TrimEnd(s)[|TrimEnd(s)| - 1])
    decreases |s|
  {
    if s != [] && IsTrimmable(s[|s| - 1]) {
      TrimEndRemovesSuffix(s[..|s| - 1]);
    }
  }

  /** `String.trim()`. What `processFile` observes of it is whether the result
      is empty, and that happens exactly when every character is trimmable. */
  function Trim(s: string): (r: string)
    ensures r == [] <==> !HasVisible(s)
  {
    TrimStartRemovesPrefix(s);
    TrimEndRemovesSuffix(TrimStart(s));
    var t := TrimStart(s);
    var r := TrimEnd(t);
    assert r != [] ==> !IsTrimmable(s[|s| - |t|]);
    r
  }

  /** The trimmed string is no longer than `s`, and starts and ends with a
      character `trim()` keeps. */
  lemma TrimKeepsEnds(s: string)
    ensures |Trim(s)| <= |s|
    ensures Trim(s) != [] ==> !IsTrimmable(Trim(s)[0]) && !IsTrimmable(Trim(s)[|Trim(s)| - 1])
  {
    TrimStartRemovesPrefix(s);
    TrimEndRemovesSuffix(TrimStart(s));
  }

  // ---------------------------------------------------------------------------
  // String.split("\\s+")
  // ---------------------------------------------------------------------------

  /** The longest prefix of `s` without a `\s` character. */
  function NonSpacePrefix(s: string): string {
    if s == [] || IsSpace(s[0]) then [] else [s[0]] + NonSpacePrefix(s[1..])
  }

  /** The prefix is a prefix, holds no `\s` character, and is followed by one
      unless it is all of `s`. */
  lemma {:induction false} NonSpacePrefixShape(s: string)
    ensures |NonSpacePrefix(s)| <= |s| && NonSpacePrefix(s) == s[..|NonSpacePrefix(s)|]
    ensures NoSpace(NonSpacePrefix(s))
    ensures |NonSpacePrefix(s)| < |s| ==> IsSpace(s[|NonSpacePrefix(s)|])
    decreases |s|
  {
    if s != [] && !IsSpace(s[0]) {
      NonSpacePrefixShape(s[1..]);
    }
  }

  /** `s` without its leading run of `\s` characters. */
  function SkipSpaces(s: string): string {
    if s != [] && IsSpace(s[0]) then SkipSpaces(s[1..]) else s
  }

  /** What is skipped is a prefix of `\s` characters, and what remains does not
      start with one. */
  lemma {:induction false} SkipSpacesShape(s: string)
    ensures |SkipSpaces(s)| <= |s| && SkipSpaces(s) == s[|s| - |SkipSpaces(s)|..]
    ensures AllSpace(s[..|s| - |SkipSpaces(s)|])
    ensures SkipSpaces(s) != [] ==> !IsSpace(SkipSpaces(s)[0])
    decreases |s|
  {
    if s != [] && IsSpace(s[0]) {
      SkipSpacesShape(s[1..]);
    }
  }

  /** The pieces of `s` between the maximal runs of `\s` characters, which are
      exactly the matches the greedy pattern `\s+` finds: a leading run gives
      an empty first piece and a trailing run an empty last piece. */
  function Fields(s: string): seq<string>
    decreases |s|
  {
    if s == [] then [[]]
    else if IsSpace(s[0]) then
      SkipSpacesShape(s);
      [[]] + Fields(SkipSpaces(s))
    else
      NonSpacePrefixShape(s);
      var word := NonSpacePrefix(s);
      var rest := s[|word|..];
      if rest == [] then [word]
      else
        SkipSpacesShape(rest);
        [word] + Fields(SkipSpaces(rest))
  }

  /** There is at least one piece; no piece holds a `\s` character; the first
      is empty exactly when `s` is empty or starts with `\s`; only the first
      and the last can be empty; and where `\s+` matches nowhere the only
      piece is `s` itself. */
  lemma {:induction false} FieldsShape(s: string)
    ensures |Fields(s)| >= 1
    ensures forall k :: 0 <= k < |Fields(s)| ==> NoSpace(Fields(s)[k])
    ensures Fields(s)[0] == [] <==> s == [] || IsSpace(s[0])
    ensures forall k :: 0 < k < |Fields(s)| - 1 ==> Fields(s)[k] != []
    ensures NoSpace(s) ==> Fields(s) == [s]
    decreases |s|
  {
    if s != [] {
      if IsSpace(s[0]) {
        SkipSpacesShape(s);
        var t := SkipSpaces(s);
        FieldsShape(t);
        assert Fields(s) == [[]] + Fields(t);
        assert t != [] ==> !IsSpace(t[0]);
      } else {
        NonSpacePrefixShape(s);
        var word := NonSpacePrefix(s);
        var rest := s[|word|..];
        if rest == [] {
          assert word == s;
        } else {
          SkipSpacesShape(rest);
          var t := SkipSpaces(rest);
          FieldsShape(t);
          assert Fields(s) == [word] + Fields(t);
          assert IsSpace(s[|word|]) && rest[0] == s[|word|];
          assert !NoSpace(s);
          assert t != [] ==> !IsSpace(t[0]);
        }
      }
    }
  }

  /** `tokens` without its trailing empty strings, as `split` with limit 0 does. */
  function DropTrailingEmpty(tokens: seq<string>): seq<string> {
    if tokens != [] && tokens[|tokens| - 1] == [] then DropTrailingEmpty(tokens[..|tokens| - 1])
    else tokens
  }

  /** What is dropped is a run of empty strings at the end, and what is kept
      does not end in one. */
  lemma {:induction false} DropTrailingEmptyShape(tokens: seq<string>)
    ensures |DropTrailingEmpty(tokens)| <= |tokens|
    ensures DropTrailingEmpty(tokens) == tokens[..|DropTrailingEmpty(tokens)|]
    ensures forall k :: |DropTrailingEmpty(tokens)| <= k < |tokens| ==> tokens[k] == []
    ensures DropTrailingEmpty(tokens) != [] ==> DropTrailingEmpty(tokens)[|DropTrailingEmpty(tokens)| - 1] != []
  {
    if tokens != [] && tokens[|tokens| - 1] == [] {
      var init := tokens[..|tokens| - 1];
      DropTrailingEmptyShape(init);
      var r := DropTrailingEmpty(init);
      assert init[..|r|] == tokens[..|r|];
      assert forall k :: |r| <= k < |init| ==> tokens[k] == init[k];
    }
  }

  /** `s.split("\\s+")`: when the pattern matches nowhere the result is `[s]`
      (even for the empty string); otherwise it is the pieces between the
      matches with the trailing empty pieces removed. For a non-empty string
      without a match the pieces are `[s]` already, so only the empty string
      needs its own case. */
  function Split(s: string): seq<string> {
    if s == [] then [[]] else DropTrailingEmpty(Fields(s))
  }

  /** No token holds a `\s` character, and every token but possibly the first
      is non-empty. */
  lemma SplitTokens(s: string)
    ensures forall k :: 0 <= k < |Split(s)| ==> NoSpace(Split(s)[k])
    ensures forall k :: 0 < k < |Split(s)| ==> Split(s)[k] != []
  {
    if s != [] {
      var f := Fields(s);
      FieldsShape(s);
      DropTrailingEmptyShape(f);
      var r := DropTrailingEmpty(f);
      forall k | 0 <= k < |r|
        ensures NoSpace(r[k]) && (0 < k ==> r[k] != [])
      {
        assert r[k] == f[k];
        if 0 < k < |r| - 1 {
          assert k < |f| - 1;
        }
      }
    }
  }

  /** Where `\s+` matches nowhere, `split` returns the string itself. */
  lemma SplitNoMatch(s: string)
    requires NoSpace(s)
    ensures Split(s) == [s]
  {
    if s != [] {
      FieldsShape(s);
    }
  }
}
