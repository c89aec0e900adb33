/**
 * The pieces of JavaScript's string semantics that the chat client relies on:
 * `String.prototype.trim`, `String.prototype.split('\n')`, and the lazy regular
 * expression fragment `.*?` followed by a literal delimiter.
 * Characters are compared by code point.
 */
module JsText {
  import opened Wrappers

  /** ECMAScript LineTerminator: LF, CR, LINE SEPARATOR, PARAGRAPH SEPARATOR.
      The regular-expression wildcard `.` matches every character but these. */
  predicate IsLineTerminator(c: char) {
    var n := c as int;
    n == 0x0A || n == 0x0D || n == 0x2028 || n == 0x2029
  }

  /** ECMAScript WhiteSpace (TAB, VT, FF, SP, NBSP, ZWNBSP and the Zs category)
      or LineTerminator: exactly the characters `trim` removes. */
  predicate IsWhitespace(c: char) {
    var n := c as int;
    IsLineTerminator(c) || n == 0x09 || n == 0x0B || n == 0x0C || n == 0x20 ||
    n == 0xA0 || n == 0x1680 || (0x2000 <= n <= 0x200A) || n == 0x202F ||
    n == 0x205F || n == 0x3000 || n == 0xFEFF
  }

  predicate AllWhitespace(s: string) {
    forall i :: 0 <= i < |s| ==> IsWhitespace(s[i])
  }

  /** `r` sits at offset `i` of `s` with only whitespace around it. */
  predicate TrimmedAt(s: string, r: string, i: nat) {
    i + |r| <= |s| && s[i..i + |r|] == r &&
    AllWhitespace(s[..i]) && AllWhitespace(s[i + |r|..])
  }

  /** Drops leading whitespace. */
  function TrimStart(s: string): (r: string)
    ensures |r| <= |s|
  {
    if s != [] && IsWhitespace(s[0]) then TrimStart(s[1..]) else s
  }

  /** Drops trailing whitespace. */
  function TrimEnd(s: string): (r: string)
    ensures |r| <= |s|
  {
    if s != [] && IsWhitespace(s[|s| - 1]) then TrimEnd(s[..|s| - 1]) else s
  }

  /** What `TrimStart` keeps is a suffix, and what it drops is whitespace up to the
      first character that is not. */
  lemma {:induction false} TrimStartSpec(s: string)
    decreases |s|
    ensures TrimStart(s) == s[|s| - |TrimStart(s)|..]
    ensures AllWhitespace(s[..|s| - |TrimStart(s)|])
    ensures TrimStart(s) == [] || !IsWhitespace(TrimStart(s)[0])
  {
    if s != [] && IsWhitespace(s[0]) {
      TrimStartSpec(s[1..]);
      var r := TrimStart(s[1..]);
      assert s[..|s| - |r|] == [s[0]] + s[1..][..|s| - 1 - |r|];
    }
  }

  /** What `TrimEnd` keeps is a prefix, and what it drops is whitespace back to the
      last character that is not. */
  lemma {:induction false} TrimEndSpec(s: string)
    decreases |s|
    ensures TrimEnd(s) == s[..|TrimEnd(s)|]
    ensures AllWhitespace(s[|TrimEnd(s)|..])
    ensures TrimEnd(s) == [] || !IsWhitespace(TrimEnd(s)[|TrimEnd(s)| - 1])
  {
    if s != [] && IsWhitespace(s[|s| - 1]) {
      TrimEndSpec(s[..|s| - 1]);
      var r := TrimEnd(s[..|s| - 1]);
      assert s[|r|..] == s[..|s| - 1][|r|..] + [s[|s| - 1]];
    }
  }

  /** `String.prototype.trim`: the text with surrounding whitespace removed. */
  function Trim(s: string): string {
    TrimEnd(TrimStart(s))
  }

  /** `trim` keeps the middle of the text, drops only whitespace on either side,
      leaves no whitespace at either end, and leaves nothing exactly when the text
      is all whitespace. */
  lemma TrimSpec(s: string)
    ensures TrimmedAt(s, Trim(s), |s| - |TrimStart(s)|)
    ensures Trim(s) == [] || (!IsWhitespace(Trim(s)[0]) && !IsWhitespace(Trim(s)[|Trim(s)| - 1]))
    ensures Trim(s) == [] <==> AllWhitespace(s)
  {
    var t, r := TrimStart(s), Trim(s);
    TrimStartSpec(s);
    TrimEndSpec(t);
    assert r == TrimEnd(t);
    TrimComposes(s, t, r);
    if r != [] {
      assert r[0] == t[0];
      assert r[|r| - 1] == TrimEnd(t)[|TrimEnd(t)| - 1];
    }
  }

  /** Trimming the start and then the end leaves the middle with whitespace on both
      sides, and starting where the start-trimmed text starts. */
  lemma TrimComposes(s: string, t: string, r: string)
    requires |t| <= |s| && t == s[|s| - |t|..] && AllWhitespace(s[..|s| - |t|])
    requires t == [] || !IsWhitespace(t[0])
    requires |r| <= |t| && r == t[..|r|] && AllWhitespace(t[|r|..])
    ensures TrimmedAt(s, r, |s| - |t|)
    ensures r != [] ==> r[0] == t[0]
    ensures r == [] <==> AllWhitespace(s)
  {
    var i := |s| - |t|;
    assert s[i..i + |r|] == r;
    assert s[i + |r|..] == t[|r|..];
    if r == [] {
      assert s == s[..i] + t[|r|..];
    } else {
      assert r[0] == s[i];
    }
  }

  lemma AllWhitespaceConcat(a: string, b: string)
    ensures AllWhitespace(a + b) <==> AllWhitespace(a) && AllWhitespace(b)
  {
    if AllWhitespace(a + b) {
      forall i | 0 <= i < |a| ensures IsWhitespace(a[i]) {
        assert a[i] == (a + b)[i];
      }
      forall i | 0 <= i < |b| ensures IsWhitespace(b[i]) {
        assert b[i] == (a + b)[|a| + i];
      }
    }
    if AllWhitespace(a) && AllWhitespace(b) {
      forall i | 0 <= i < |a + b| ensures IsWhitespace((a + b)[i]) {
        if i < |a| {
          assert (a + b)[i] == a[i];
        } else {
          assert (a + b)[i] == b[i - |a|];
        }
      }
    }
  }

  /** `text.trim() === ''`: the line holds whitespace only. */
  predicate IsBlank(s: string) {
    Trim(s) == []
  }

  /** The lines joined back together with one `'\n'` between neighbours. */
  function JoinLines(lines: seq<string>): string
    requires |lines| >= 1
  {
    if |lines| == 1 then lines[0] else lines[0] + "\n" + JoinLines(lines[1..])
  }

  /** `s.split('\n')`: the pieces between newlines, empty pieces kept. */
  function SplitLines(s: string): (lines: seq<string>)
    ensures |lines| >= 1
    ensures forall i :: 0 <= i < |lines| ==> '\n' !in lines[i]
    ensures JoinLines(lines) == s
  {
    if s == [] then [""]
    else
      var rest := SplitLines(s[1..]);
      if s[0] == '\n' then
        [""] + rest
      else
        var lines := [[s[0]] + rest[0]] + rest[1..];
        assert |rest| > 1 ==> lines[1..] == rest[1..];
        lines
  }

  /** Splitting undoes joining lines that hold no newline. */
  lemma {:induction false} SplitJoinLines(lines: seq<string>)
    requires |lines| >= 1
    requires forall i :: 0 <= i < |lines| ==> '\n' !in lines[i]
    ensures SplitLines(JoinLines(lines)) == lines
  {
    if |lines| == 1 {
      SplitLineWithoutNewline(lines[0]);
    } else {
      SplitJoinLines(lines[1..]);
      SplitLinesPrefix(lines[0], JoinLines(lines[1..]));
    }
  }

  lemma {:induction false} SplitLineWithoutNewline(s: string)
    requires '\n' !in s
    ensures SplitLines(s) == [s]
  {
    if s != [] {
      SplitLineWithoutNewline(s[1..]);
    }
  }

  /** A newline-free prefix followed by a newline becomes the first line. */
  lemma {:induction false} SplitLinesPrefix(a: string, b: string)
    requires '\n' !in a
    ensures SplitLines(a + "\n" + b) == [a] + SplitLines(b)
  {
    if a == [] {
      assert (a + "\n" + b)[1..] == b;
    } else {
      assert (a + "\n" + b)[1..] == a[1..] + "\n" + b;
      SplitLinesPrefix(a[1..], b);
      assert [a[0]] + a[1..] == a;
    }
  }

  /** The delimiter `c` repeated `n` times (`n` is 1 or 2) occurs at offset `k` of `s`. */
  predicate DelimiterAt(s: string, k: nat, c: char, n: nat) {
    0 < n && k + n <= |s| && s[k] == c && (n == 2 ==> s[k + 1] == c)
  }

  /** JavaScript's lazy `.*?` followed by the delimiter, started at `k`, may stop at
      `e`: the delimiter ends at `e` and no line terminator lies between `k` and it. */
  predicate LazyEnd(s: string, k: nat, c: char, n: nat, e: nat) {
    k + n <= e <= |s| && DelimiterAt(s, e - n, c, n) &&
    forall j :: k <= j < e - n ==> !IsLineTerminator(s[j])
  }

  /** Runs `.*?` and the delimiter from `k` the way a backtracking engine does: try the
      delimiter first, else let `.` take one more character. The result is where the
      match ends, if anywhere. */
  function FindClose(s: string, k: nat, c: char, n: nat): (r: Option<nat>)
    requires n == 1 || n == 2
    decreases |s| - k
    ensures r.Some? ==> k + n <= r.value <= |s|
  {
    if DelimiterAt(s, k, c, n) then Some(k + n)
    else if k >= |s| || IsLineTerminator(s[k]) then None
    else FindClose(s, k + 1, c, n)
  }

  /** A match found by `FindClose` ends with the delimiter. */
  lemma {:induction false} FindCloseEndsWithDelimiter(s: string, k: nat, c: char, n: nat)
    requires n == 1 || n == 2
    decreases |s| - k
    ensures FindClose(s, k, c, n).Some? ==> DelimiterAt(s, FindClose(s, k, c, n).value - n, c, n)
  {
    if !DelimiterAt(s, k, c, n) && k < |s| && !IsLineTerminator(s[k]) {
      FindCloseEndsWithDelimiter(s, k + 1, c, n);
    }
  }

  /** `FindClose` finds the shortest end the lazy match can take from `k`, and reports
      None exactly when there is none. */
  lemma {:induction false} FindCloseShortest(s: string, k: nat, c: char, n: nat)
    requires n == 1 || n == 2
    decreases |s| - k
    ensures FindClose(s, k, c, n).Some? ==> LazyEnd(s, k, c, n, FindClose(s, k, c, n).value)
    ensures FindClose(s, k, c, n).Some? ==>
      forall e :: k <= e < FindClose(s, k, c, n).value ==> !LazyEnd(s, k, c, n, e)
    ensures FindClose(s, k, c, n).None? ==> forall e :: !LazyEnd(s, k, c, n, e)
  {
    if DelimiterAt(s, k, c, n) {
    } else if k >= |s| || IsLineTerminator(s[k]) {
    } else {
      FindCloseShortest(s, k + 1, c, n);
      assert forall e :: LazyEnd(s, k, c, n, e) ==> LazyEnd(s, k + 1, c, n, e);
    }
  }
}
