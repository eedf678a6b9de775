/**
 * String helpers shared by the `Display` implementations and the command
 * handlers: `writeln!` output as a sequence of '\n'-terminated lines, its
 * inverse, the ANSI colour wrappers of `owo_colors`, and the `trim` /
 * `to_lowercase` pair used to read a confirmation answer.
 */
module Text {

  /** Each line written with `writeln!`, i.e. followed by a '\n'. */
  function Unlines(lines: seq<string>): (s: string)
  {
    if lines == [] then "" else lines[0] + "\n" + Unlines(lines[1..])
  }

  /** Splits text into its lines; an unterminated last line is kept. The inverse of Unlines. */
  function SplitLines(s: string): seq<string>
  {
    SplitFrom("", s)
  }

  /** `cur` is the part of the current line read so far. */
  function SplitFrom(cur: string, s: string): seq<string>
    decreases |s|
  {
    if s == "" then (if cur == "" then [] else [cur])
    else if s[0] == '\n' then [cur] + SplitFrom("", s[1..])
    else SplitFrom(cur + [s[0]], s[1..])
  }

  predicate NoNewline(line: string)
  {
    '\n' !in line
  }

  /** No line of the list holds a '\n'. */
  predicate OneLineEach(lines: seq<string>)
  {
    forall i :: 0 <= i < |lines| ==> NoNewline(lines[i])
  }

  lemma OneLineEachAppend(a: seq<string>, b: seq<string>)
    requires OneLineEach(a) && OneLineEach(b)
    ensures OneLineEach(a + b)
  {
    forall i | 0 <= i < |a + b|
      ensures NoNewline((a + b)[i])
    {
      if i >= |a| {
        assert (a + b)[i] == b[i - |a|];
      }
    }
  }

  lemma {:induction false} UnlinesAppend(a: seq<string>, b: seq<string>)
    ensures Unlines(a + b) == Unlines(a) + Unlines(b)
  {
    if a == [] {
      assert a + b == b;
    } else {
      assert (a + b)[0] == a[0];
      assert (a + b)[1..] == a[1..] + b;
      UnlinesAppend(a[1..], b);
    }
  }

  /** A line without '\n' followed by its terminator is read back as one line. */
  lemma {:induction false} SplitOneLine(cur: string, line: string, rest: string)
    requires NoNewline(line)
    ensures SplitFrom(cur, line + "\n" + rest) == [cur + line] + SplitFrom("", rest)
    decreases |line|
  {
    if line == [] {
      assert line + "\n" + rest == "\n" + rest;
      assert ("\n" + rest)[1..] == rest;
      assert cur + line == cur;
    } else {
      var s := line + "\n" + rest;
      assert s[0] == line[0] && s[0] != '\n';
      assert s[1..] == line[1..] + "\n" + rest;
      SplitOneLine(cur + [line[0]], line[1..], rest);
      assert cur + [line[0]] + line[1..] == cur + line;
    }
  }

  /** Round trip: splitting joined lines gives the lines back when none holds a '\n'. */
  lemma {:induction false} SplitUnlines(lines: seq<string>)
    requires OneLineEach(lines)
    ensures SplitLines(Unlines(lines)) == lines
  {
    if lines != [] {
      assert OneLineEach(lines[1..]) by {
        forall i | 0 <= i < |lines[1..]|
          ensures NoNewline(lines[1..][i])
        {
          assert lines[1..][i] == lines[i + 1];
        }
      }
      SplitOneLine("", lines[0], Unlines(lines[1..]));
      assert "" + lines[0] == lines[0];
      SplitUnlines(lines[1..]);
    }
  }

  /** The last line of joined text is the last thing written. */
  lemma UnlinesEndsWith(lines: seq<string>, last: string)
    ensures var s := Unlines(lines + [last]);
      |s| >= |last| + 1 && s[|s| - |last| - 1..] == last + "\n"
  {
    UnlinesAppend(lines, [last]);
    assert Unlines([last]) == last + "\n" + Unlines([]);
  }

  const Escape: char := '\U{1B}'

  /** `owo_colors`' yellow foreground: set colour 33, text, reset the foreground. */
  function Yellow(s: string): string
  {
    [Escape] + "[33m" + s + [Escape] + "[39m"
  }

  /** `owo_colors`' cyan foreground: set colour 36, text, reset the foreground. */
  function Cyan(s: string): string
  {
    [Escape] + "[36m" + s + [Escape] + "[39m"
  }

  lemma ColoursKeepNewlines(s: string)
    requires NoNewline(s)
    ensures NoNewline(Yellow(s)) && NoNewline(Cyan(s))
  {
  }

  /** Rust's `char::is_whitespace`: the Unicode White_Space property. */
  predicate IsWhitespace(c: char)
  {
    || ('\t' <= c <= '\r')
    || c == ' '
    || c == '\U{85}'
    || c == '\U{A0}'
    || c == '\U{1680}'
    || ('\U{2000}' <= c <= '\U{200A}')
    || c == '\U{2028}'
    || c == '\U{2029}'
    || c == '\U{202F}'
    || c == '\U{205F}'
    || c == '\U{3000}'
  }

  /** s[lo..hi] is whitespace only. */
  predicate AllWhitespaceIn(s: string, lo: int, hi: int)
    requires 0 <= lo <= hi <= |s|
  {
    forall k :: lo <= k < hi ==> IsWhitespace(s[k])
  }

  /** `str::trim_start`: the index of the first non-whitespace character of s[from..]. */
  function TrimStartIndex(s: string, from: nat): (k: nat)
    requires from <= |s|
    ensures from <= k <= |s|
    ensures AllWhitespaceIn(s, from, k)
    ensures k < |s| ==> !IsWhitespace(s[k])
    decreases |s| - from
  {
    if from == |s| || !IsWhitespace(s[from]) then from else TrimStartIndex(s, from + 1)
  }

  /** `str::trim_end`: the length of s[..upto] without its trailing whitespace. */
  function TrimEndIndex(s: string, upto: nat): (k: nat)
    requires upto <= |s|
    ensures k <= upto
    ensures AllWhitespaceIn(s, k, upto)
    ensures k > 0 ==> !IsWhitespace(s[k - 1])
  {
    if upto == 0 || !IsWhitespace(s[upto - 1]) then upto else TrimEndIndex(s, upto - 1)
  }

  /** t is s[i..j], and s holds only whitespace before i and from j on. */
  predicate TrimmedAt(s: string, t: string, i: int, j: int)
  {
    && 0 <= i <= j <= |s| && t == s[i..j]
    && AllWhitespaceIn(s, 0, i) && AllWhitespaceIn(s, j, |s|)
  }

  /** `str::trim`: s without leading and trailing whitespace. */
  function Trim(s: string): (t: string)
    ensures exists i, j :: TrimmedAt(s, t, i, j)
    ensures t != "" ==> !IsWhitespace(t[0]) && !IsWhitespace(t[|t| - 1])
  {
    var i := TrimStartIndex(s, 0);
    var j := TrimEndIndex(s, |s|);
    if j <= i then
      assert TrimmedAt(s, s[i..i], i, i);
      s[i..i]
    else
      assert TrimmedAt(s, s[i..j], i, j);
      s[i..j]
  }

  /** Trim stops at the first non-whitespace character. */
  lemma {:induction false} TrimStartAt(s: string, from: nat, i: nat)
    requires from <= i < |s| && AllWhitespaceIn(s, from, i) && !IsWhitespace(s[i])
    ensures TrimStartIndex(s, from) == i
    decreases i - from
  {
    if from < i {
      TrimStartAt(s, from + 1, i);
    }
  }

  /** Trim stops at the last non-whitespace character. */
  lemma {:induction false} TrimEndAt(s: string, upto: nat, j: nat)
    requires 0 < j <= upto <= |s| && AllWhitespaceIn(s, j, upto) && !IsWhitespace(s[j - 1])
    ensures TrimEndIndex(s, upto) == j
  {
    if j < upto {
      TrimEndAt(s, upto - 1, j);
    }
  }

  /** Text between whitespace, starting and ending with non-whitespace, is what Trim keeps. */
  lemma TrimAround(s: string, i: nat, j: nat)
    requires i < j <= |s|
    requires AllWhitespaceIn(s, 0, i) && AllWhitespaceIn(s, j, |s|)
    requires !IsWhitespace(s[i]) && !IsWhitespace(s[j - 1])
    ensures Trim(s) == s[i..j]
  {
    TrimStartAt(s, 0, i);
    TrimEndAt(s, |s|, j);
  }

  function LowerAscii(c: char): char
  {
    if 'A' <= c <= 'Z' then (c as int + 32) as char else c
  }

  /**
   * `str::to_lowercase` on ASCII letters. Other characters are kept as
   * they are; no character but 'y' and 'Y' lowercases to "y".
   */
  function ToLower(s: string): (t: string)
    ensures |t| == |s|
    ensures forall i :: 0 <= i < |s| ==> t[i] == LowerAscii(s[i])
  {
    if s == "" then "" else [LowerAscii(s[0])] + ToLower(s[1..])
  }
}
