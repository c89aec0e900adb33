/**
 * The reply renderer `FormattedText`/`processText` of the chat page: reply text
 * becomes one block per line, and each non-blank line is cut into bold, italic,
 * inline-code and plain spans by `line.split(/(\*\*.*?\*\*|\*.*?\*|`.*?`)/g)`
 * followed by a classification of every resulting part by its first and last
 * characters.
 */
module Formatter {
  import opened Wrappers
  import opened JsText

  datatype Span = Bold(text: string) | Italic(text: string) | Code(text: string) | Plain(text: string)

  /** A `<br>` for a blank line, or a `<p>` holding the spans of one line. */
  datatype Block = Break | Paragraph(spans: seq<Span>)

  /** `s.startsWith(d)` for the delimiter `d` made of `n` copies of `c`. */
  predicate OpensWith(s: string, c: char, n: nat) {
    DelimiterAt(s, 0, c, n)
  }

  /** `s.endsWith(d)` for the delimiter `d` made of `n` copies of `c`. */
  predicate ClosesWith(s: string, c: char, n: nat) {
    n <= |s| && DelimiterAt(s, |s| - n, c, n)
  }

  /** The token grammar at the start of `s`: the alternatives `\*\*.*?\*\*`, `\*.*?\*`
      and `` `.*?` `` are tried in that order, each taking its shortest match.
      The result is the length of the match. */
  function MatchAt(s: string): (r: Option<nat>)
    ensures r.Some? ==> 2 <= r.value <= |s|
  {
    if OpensWith(s, '*', 2) && FindClose(s, 2, '*', 2).Some? then FindClose(s, 2, '*', 2)
    else if OpensWith(s, '*', 1) && FindClose(s, 1, '*', 1).Some? then FindClose(s, 1, '*', 1)
    else if OpensWith(s, '`', 1) then FindClose(s, 1, '`', 1)
    else None
  }

  /** A part captured by the token grammar: it opens and closes with the same
      delimiter character, and one that opens with `**` also closes with `**`. */
  predicate IsToken(t: string) {
    |t| >= 2 && (t[0] == '*' || t[0] == '`') && t[|t| - 1] == t[0] &&
    (OpensWith(t, '*', 2) ==> ClosesWith(t, '*', 2))
  }

  /** What the token grammar matches is a token: the italic alternative, tried only
      when the bold one fails, stops at the second asterisk of a `**`. */
  lemma MatchIsToken(s: string)
    requires MatchAt(s).Some?
    ensures IsToken(s[..MatchAt(s).value])
  {
    var e := MatchAt(s).value;
    if OpensWith(s, '*', 2) && FindClose(s, 2, '*', 2).Some? {
      FindCloseShortest(s, 2, '*', 2);
    } else if OpensWith(s, '*', 1) && FindClose(s, 1, '*', 1).Some? {
      FindCloseShortest(s, 1, '*', 1);
      if OpensWith(s, '*', 2) {
        assert LazyEnd(s, 1, '*', 1, 2);
      }
    } else {
      FindCloseShortest(s, 1, '`', 1);
    }
  }

  function Concat(parts: seq<string>): string {
    if parts == [] then [] else parts[0] + Concat(parts[1..])
  }

  /** `line.split(/(\*\*.*?\*\*|\*.*?\*|`.*?`)/g)`: scan from the left, take the first
      position where the token grammar matches, emit the plain piece before it and the
      match, and resume after the match. */
  function Split(s: string): (parts: seq<string>)
    decreases |s|
    ensures |parts| % 2 == 1 && |parts[0]| <= |s|
    ensures |parts| > 1 ==> |parts[0]| + |parts[1]| <= |s|
  {
    if s == [] then [""]
    else match MatchAt(s)
      case Some(e) => ["", s[..e]] + Split(s[e..])
      case None =>
        var rest := Split(s[1..]);
        [[s[0]] + rest[0]] + rest[1..]
  }

  /** Putting the parts back together gives the line. */
  lemma {:induction false} SplitConcat(s: string)
    decreases |s|
    ensures Concat(Split(s)) == s
  {
    if s != [] {
      match MatchAt(s)
      case Some(e) =>
        SplitConcat(s[e..]);
        ConcatAfterMatch(s[..e], Split(s[e..]));
        assert s == s[..e] + s[e..];
      case None =>
        SplitConcat(s[1..]);
        ConcatJoinFirst(s[0], Split(s[1..]));
        assert s == [s[0]] + s[1..];
    }
  }

  lemma ConcatAfterMatch(m: string, rest: seq<string>)
    ensures Concat(["", m] + rest) == m + Concat(rest)
  {
    var parts := ["", m] + rest;
    assert parts[1..] == [m] + rest;
    assert parts[1..][1..] == rest;
  }

  lemma ConcatJoinFirst(c: char, rest: seq<string>)
    requires rest != []
    ensures Concat([[c] + rest[0]] + rest[1..]) == [c] + Concat(rest)
  {
    var parts := [[c] + rest[0]] + rest[1..];
    assert parts[1..] == rest[1..];
  }

  /** The captured matches sit at the odd indices. */
  lemma {:induction false} SplitTokens(s: string)
    decreases |s|
    ensures forall i :: 0 <= i < |Split(s)| && i % 2 == 1 ==> IsToken(Split(s)[i])
  {
    if s != [] {
      match MatchAt(s)
      case Some(e) =>
        SplitTokens(s[e..]);
        MatchIsToken(s);
        var parts := Split(s);
        forall i | 0 <= i < |parts| && i % 2 == 1 ensures IsToken(parts[i]) {
          if i > 1 {
            assert parts[i] == Split(s[e..])[i - 2];
          }
        }
      case None =>
        SplitTokens(s[1..]);
        var rest := Split(s[1..]);
        var parts := Split(s);
        forall i | 0 <= i < |parts| && i % 2 == 1 ensures IsToken(parts[i]) {
          assert parts[i] == rest[i];
        }
    }
  }

  /** The first plain piece is the longest prefix at no position of which a match
      starts, and the part after it is the match found there: the scan takes the
      leftmost match. */
  lemma {:induction false} SplitLeftmost(s: string)
    decreases |s|
    ensures forall k :: 0 <= k < |Split(s)[0]| ==> MatchAt(s[k..]).None?
    ensures |Split(s)| > 1 ==> MatchAt(s[|Split(s)[0]|..]) == Some(|Split(s)[1]|)
  {
    if s != [] {
      match MatchAt(s)
      case Some(e) =>
        assert s[0..] == s;
      case None =>
        SplitLeftmost(s[1..]);
        var rest := Split(s[1..]);
        var parts := Split(s);
        forall k | 0 <= k < |parts[0]| ensures MatchAt(s[k..]).None? {
          if k > 0 {
            assert s[k..] == s[1..][k - 1..];
          }
        }
        assert s[|parts[0]|..] == s[1..][|rest[0]|..];
    }
  }

  /** After the first plain piece and the match that ends it, the parts are the
      split of the rest of the line: together with `SplitLeftmost`, every match is
      the leftmost one after the previous match. */
  lemma {:induction false} SplitRest(s: string)
    requires |Split(s)| > 1
    decreases |s|
    ensures Split(s)[2..] == Split(s[|Split(s)[0]| + |Split(s)[1]|..])
  {
    match MatchAt(s)
    case Some(e) =>
      assert Split(s) == ["", s[..e]] + Split(s[e..]);
    case None =>
      var parts, rest := Split(s), Split(s[1..]);
      assert parts == [[s[0]] + rest[0]] + rest[1..];
      assert |parts[0]| + |parts[1]| == 1 + |rest[0]| + |rest[1]| && parts[2..] == rest[2..];
      SplitRest(s[1..]);
      var k := |rest[0]| + |rest[1]|;
      assert s[1..][k..] == s[1 + k..];
  }

  /** `part.slice(n, -n)`: the part without `n` characters at each end, empty when
      the part is shorter than `2 * n`. */
  function Strip(part: string, n: nat): string {
    if |part| >= 2 * n then part[n..|part| - n] else ""
  }

  /** The chain of tests `processText` applies to one part; None when the part is
      dropped. */
  function Classify(part: string): Option<Span> {
    if OpensWith(part, '*', 2) && ClosesWith(part, '*', 2) then
      Some(Bold(Strip(part, 2)))
    else if OpensWith(part, '*', 1) && ClosesWith(part, '*', 1) && !OpensWith(part, '*', 2) then
      Some(Italic(Strip(part, 1)))
    else if OpensWith(part, '`', 1) && ClosesWith(part, '`', 1) then
      Some(Code(Strip(part, 1)))
    else if Trim(part) != [] then
      Some(Plain(part))
    else
      None
  }

  /** A part is dropped exactly when it is whitespace only. */
  lemma ClassifyDrops(part: string)
    ensures Classify(part).None? <==> AllWhitespace(part)
  {
    TrimSpec(part);
    if part != [] && (part[0] == '*' || part[0] == '`') {
      assert !IsWhitespace(part[0]);
    }
  }

  /** Each span kind comes from its own test: bold from a part that opens and closes
      with `**`, italic from one that opens and closes with `*` but does not open
      with `**`, code from one that opens and closes with a backtick. Delimiters are
      stripped: two characters at each end for bold, one for italic and code, and
      nothing is left when the part is shorter than both delimiters together. A
      plain span carries its part verbatim. */
  lemma ClassifyStripsDelimiters(part: string)
    ensures Classify(part).Some? && Classify(part).value.Bold? ==>
      OpensWith(part, '*', 2) && ClosesWith(part, '*', 2) &&
      (|part| < 4 ==> Classify(part).value.text == [])
    ensures Classify(part).Some? && Classify(part).value.Italic? ==>
      OpensWith(part, '*', 1) && ClosesWith(part, '*', 1) &&
      (|part| < 2 ==> Classify(part).value.text == [])
    ensures Classify(part).Some? && Classify(part).value.Code? ==>
      OpensWith(part, '`', 1) && ClosesWith(part, '`', 1) &&
      (|part| < 2 ==> Classify(part).value.text == [])
    ensures Classify(part).Some? && Classify(part).value.Bold? && |part| >= 4 ==>
      part == "**" + Classify(part).value.text + "**"
    ensures Classify(part).Some? && Classify(part).value.Italic? ==>
      !OpensWith(part, '*', 2) && (|part| >= 2 ==> part == "*" + Classify(part).value.text + "*")
    ensures Classify(part).Some? && Classify(part).value.Code? && |part| >= 2 ==>
      part == "`" + Classify(part).value.text + "`"
    ensures Classify(part).Some? && Classify(part).value.Plain? ==>
      Classify(part).value.text == part
  {
    if Classify(part).Some? {
      match Classify(part).value
      case Bold(_) =>
        if |part| >= 4 {
          Unwrap(part, '*', 2);
        }
      case Italic(_) =>
        if |part| >= 2 {
          Unwrap(part, '*', 1);
        }
      case Code(_) =>
        if |part| >= 2 {
          Unwrap(part, '`', 1);
        }
      case Plain(_) =>
    }
  }

  /** A part that opens and closes with a delimiter is the delimiter, the stripped
      text and the delimiter again. */
  lemma Unwrap(part: string, c: char, n: nat)
    requires (n == 1 || n == 2) && |part| >= 2 * n && OpensWith(part, c, n) && ClosesWith(part, c, n)
    ensures part == part[..n] + Strip(part, n) + part[|part| - n..]
    ensures part[..n] == part[|part| - n..] == if n == 1 then [c] else [c, c]
  {
    assert part == part[..n] + part[n..|part| - n] + part[|part| - n..];
  }

  /** Wrapping text in delimiters and classifying it gives the text back, unless the
      italic text itself opens with `*` (then the part opens with `**`). */
  lemma ClassifyWrapped(t: string)
    ensures Classify("**" + t + "**") == Some(Bold(t))
    ensures t != [] && t[0] != '*' ==> Classify("*" + t + "*") == Some(Italic(t))
    ensures Classify("`" + t + "`") == Some(Code(t))
  {
    var b := "**" + t + "**";
    assert Strip(b, 2) == t;
    var c := "`" + t + "`";
    assert c[0] == '`' && Strip(c, 1) == t;
    if t != [] && t[0] != '*' {
      var p := "*" + t + "*";
      assert p[1] == t[0] && Strip(p, 1) == t;
    }
  }

  /** A part is kept verbatim as plain text exactly when it is not blank and none of
      the bold, italic and code tests accepts it, whatever its length. */
  lemma ClassifyPlainExactly(part: string)
    ensures Classify(part) == Some(Plain(part)) <==>
      !IsBlank(part) &&
      !(OpensWith(part, '*', 2) && ClosesWith(part, '*', 2)) &&
      !(OpensWith(part, '*', 1) && ClosesWith(part, '*', 1) && !OpensWith(part, '*', 2)) &&
      !(OpensWith(part, '`', 1) && ClosesWith(part, '`', 1))
  {
  }

  /** A part that opens with neither delimiter and is not blank is plain text. */
  lemma PlainPart(part: string)
    requires part != [] && part[0] != '*' && part[0] != '`' && !IsBlank(part)
    ensures Classify(part) == Some(Plain(part))
  {
  }

  /** The `forEach` over the parts: each classified part becomes one span, in order. */
  function KeepSpans(parts: seq<string>): seq<Span> {
    if parts == [] then []
    else
      (match Classify(parts[0]) case Some(sp) => [sp] case None => []) + KeepSpans(parts[1..])
  }

  /** Classification works part by part: the spans of a concatenation of part lists
      are the spans of the first list followed by those of the second. */
  lemma {:induction false} KeepSpansAppend(a: seq<string>, b: seq<string>)
    ensures KeepSpans(a + b) == KeepSpans(a) + KeepSpans(b)
  {
    if a == [] {
      assert a + b == b;
    } else {
      var ab := a + b;
      assert ab[0] == a[0];
      assert ab[1..] == a[1..] + b;
      KeepSpansAppend(a[1..], b);
    }
  }

  lemma KeepSinglePart(part: string)
    ensures KeepSpans([part]) == match Classify(part) case Some(sp) => [sp] case None => []
  {
    assert [part][1..] == [];
  }

  /** The span of a kept part comes after the spans of every part before it and
      before the spans of every part after it: left-to-right order is preserved. */
  lemma KeepSpansAt(parts: seq<string>, i: nat)
    requires i < |parts| && Classify(parts[i]).Some?
    ensures KeepSpans(parts) ==
      KeepSpans(parts[..i]) + [Classify(parts[i]).value] + KeepSpans(parts[i + 1..])
  {
    SplitAround(parts, i);
    KeepSpansAround(parts[..i], parts[i], parts[i + 1..]);
  }

  /** A list is what comes before position `i`, the element there, and what follows. */
  lemma SplitAround<T>(s: seq<T>, i: nat)
    requires i < |s|
    ensures s == s[..i] + ([s[i]] + s[i + 1..])
  {
  }

  /** The spans of a part list with a kept part in the middle. */
  lemma KeepSpansAround(pre: seq<string>, part: string, post: seq<string>)
    requires Classify(part).Some?
    ensures KeepSpans(pre + ([part] + post)) ==
      KeepSpans(pre) + [Classify(part).value] + KeepSpans(post)
  {
    KeepSpansAppend(pre, [part] + post);
    KeepSpansAppend([part], post);
    KeepSinglePart(part);
  }

  /** A part list yields no span exactly when its text is whitespace only. */
  lemma {:induction false} KeepSpansEmpty(parts: seq<string>)
    ensures KeepSpans(parts) == [] <==> AllWhitespace(Concat(parts))
  {
    if parts != [] {
      KeepSpansEmpty(parts[1..]);
      AllWhitespaceConcat(parts[0], Concat(parts[1..]));
      ClassifyDrops(parts[0]);
    }
  }

  /** The spans of one line. */
  function FormatLine(line: string): seq<Span> {
    KeepSpans(Split(line))
  }

  /** A line yields no span exactly when it is blank; so every non-blank line
      becomes a paragraph with at least one span. */
  lemma FormatLineEmpty(line: string)
    ensures FormatLine(line) == [] <==> IsBlank(line)
  {
    TrimSpec(line);
    SplitConcat(line);
    KeepSpansEmpty(Split(line));
  }

  /** Every part the token grammar captures is rendered as bold, italic or code,
      never as plain text and never dropped. */
  lemma CapturedPartsAreFormatted(line: string)
    ensures forall i :: 0 <= i < |Split(line)| && i % 2 == 1 ==>
      Classify(Split(line)[i]).Some? && !Classify(Split(line)[i]).value.Plain?
  {
    SplitTokens(line);
  }

  /** What one line contributes: a break when it is blank, otherwise a paragraph
      if it produced at least one span. */
  function LineBlocks(line: string): seq<Block> {
    if IsBlank(line) then [Break]
    else
      var spans := FormatLine(line);
      if |spans| > 0 then [Paragraph(spans)] else []
  }

  /** The `forEach` over the lines. */
  function ProcessLines(lines: seq<string>): seq<Block> {
    if lines == [] then [] else LineBlocks(lines[0]) + ProcessLines(lines[1..])
  }

  /** `processText(rawText)`. */
  function ProcessText(text: string): seq<Block> {
    ProcessLines(SplitLines(text))
  }

  /** The block a line stands for: a break when it is blank, otherwise a paragraph
      of its spans. */
  function LineBlock(line: string): Block {
    if IsBlank(line) then Break else Paragraph(FormatLine(line))
  }

  /** Every line contributes exactly one block, and a paragraph is never empty. */
  lemma LineBlocksShape(line: string)
    ensures LineBlocks(line) == [LineBlock(line)]
    ensures LineBlock(line).Paragraph? ==> LineBlock(line).spans != []
  {
    FormatLineEmpty(line);
  }

  /** The first line's block comes first. */
  lemma ProcessLinesCons(lines: seq<string>)
    requires lines != []
    ensures ProcessLines(lines) == [LineBlock(lines[0])] + ProcessLines(lines[1..])
  {
    LineBlocksShape(lines[0]);
  }

  /** `processText` yields exactly one block per line, in order. */
  lemma {:induction false} ProcessLinesShape(lines: seq<string>)
    ensures |ProcessLines(lines)| == |lines|
    ensures forall i :: 0 <= i < |lines| ==> ProcessLines(lines)[i] == LineBlock(lines[i])
  {
    if lines != [] {
      var tail := lines[1..];
      ProcessLinesShape(tail);
      ProcessLinesCons(lines);
      var all, rest := ProcessLines(lines), ProcessLines(tail);
      assert all == [LineBlock(lines[0])] + rest;
      forall i | 1 <= i < |lines| ensures all[i] == LineBlock(lines[i]) {
        assert all[i] == rest[i - 1];
        assert lines[i] == tail[i - 1];
      }
    }
  }

  /** For the whole reply: one block per line of the text, a break exactly for the
      blank lines, and for every other line a non-empty paragraph of its spans. */
  lemma ProcessTextShape(text: string)
    ensures |ProcessText(text)| == |SplitLines(text)|
    ensures forall i :: 0 <= i < |SplitLines(text)| ==>
      (ProcessText(text)[i] == Break <==> IsBlank(SplitLines(text)[i]))
    ensures forall i :: 0 <= i < |SplitLines(text)| && !IsBlank(SplitLines(text)[i]) ==>
      ProcessText(text)[i] == Paragraph(FormatLine(SplitLines(text)[i])) &&
      FormatLine(SplitLines(text)[i]) != []
  {
    var lines := SplitLines(text);
    ProcessLinesShape(lines);
    forall i | 0 <= i < |lines|
      ensures LineBlock(lines[i]).Paragraph? ==> LineBlock(lines[i]).spans != []
    {
      LineBlocksShape(lines[i]);
    }
  }

  /** A delimiter-free prefix joins the first plain piece. */
  lemma {:induction false} SplitPlainPrefix(p: string, t: string)
    requires forall i :: 0 <= i < |p| ==> p[i] != '*' && p[i] != '`'
    ensures Split(p + t) == [p + Split(t)[0]] + Split(t)[1..]
  {
    var ts := Split(t);
    if p == [] {
      assert p + t == t && p + ts[0] == ts[0];
      assert ts == [ts[0]] + ts[1..];
    } else {
      var s := p + t;
      assert s[1..] == p[1..] + t;
      SplitPlainPrefix(p[1..], t);
      var r := Split(s[1..]);
      assert r[0] == p[1..] + ts[0] && r[1..] == ts[1..];
      SplitPlainStep(s);
      assert [p[0]] + (p[1..] + ts[0]) == p + ts[0];
    }
  }

  /** A first character that opens no delimiter joins the first plain piece. */
  lemma SplitPlainStep(s: string)
    requires s != [] && s[0] != '*' && s[0] != '`'
    ensures Split(s) == [[s[0]] + Split(s[1..])[0]] + Split(s[1..])[1..]
  {
    assert MatchAt(s).None?;
  }

  /** A line with no `*` and no backtick is one plain piece. */
  lemma SplitWithoutDelimiters(s: string)
    requires forall i :: 0 <= i < |s| ==> s[i] != '*' && s[i] != '`'
    ensures Split(s) == [s]
  {
    SplitPlainPrefix(s, []);
    assert s + [] == s;
  }

  /** A non-blank line without delimiters is rendered verbatim as one plain span. */
  lemma FormatPlainLine(line: string)
    requires forall i :: 0 <= i < |line| ==> line[i] != '*' && line[i] != '`'
    requires !IsBlank(line)
    ensures FormatLine(line) == [Plain(line)]
  {
    SplitWithoutDelimiters(line);
    PlainPart(line);
    KeepSinglePart(line);
  }

  /** Text free of the delimiter character and of line terminators, closed by the
      delimiter, is the shortest run the lazy match can take. */
  lemma CloseAfterRun(s: string, k: nat, body: string, c: char, n: nat)
    requires n == 1 || n == 2
    requires k + |body| <= |s| && s[k..k + |body|] == body && DelimiterAt(s, k + |body|, c, n)
    requires forall i :: 0 <= i < |body| ==> body[i] != c && !IsLineTerminator(body[i])
    ensures FindClose(s, k, c, n) == Some(k + |body| + n)
  {
    FindCloseShortest(s, k, c, n);
    var e := k + |body| + n;
    forall j | k <= j < e - n ensures !IsLineTerminator(s[j]) {
      assert s[j] == body[j - k];
    }
    assert LazyEnd(s, k, c, n, e);
    forall e' | k <= e' < e ensures !LazyEnd(s, k, c, n, e') {
      if k + n <= e' {
        assert s[e' - n] == body[e' - n - k];
      }
    }
  }

  /** `**text**` with no asterisk and no line terminator inside is one bold token,
      whatever follows it. */
  lemma BoldToken(text: string, rest: string)
    requires forall i :: 0 <= i < |text| ==> text[i] != '*' && !IsLineTerminator(text[i])
    ensures MatchAt("**" + text + "**" + rest) == Some(|text| + 4)
  {
    var s := "**" + text + "**" + rest;
    assert s[2..2 + |text|] == text;
    CloseAfterRun(s, 2, text, '*', 2);
  }

  /** `*text*` with a non-empty text free of asterisks and line terminators is one
      italic token, whatever follows it. */
  lemma ItalicToken(text: string, rest: string)
    requires text != []
    requires forall i :: 0 <= i < |text| ==> text[i] != '*' && !IsLineTerminator(text[i])
    ensures MatchAt("*" + text + "*" + rest) == Some(|text| + 2)
  {
    var s := "*" + text + "*" + rest;
    assert s[1] == text[0];
    assert s[1..1 + |text|] == text;
    CloseAfterRun(s, 1, text, '*', 1);
  }

  /** `` `text` `` with no backtick and no line terminator inside is one code token,
      whatever follows it. */
  lemma CodeToken(text: string, rest: string)
    requires forall i :: 0 <= i < |text| ==> text[i] != '`' && !IsLineTerminator(text[i])
    ensures MatchAt("`" + text + "`" + rest) == Some(|text| + 2)
  {
    var s := "`" + text + "`" + rest;
    assert s[1..1 + |text|] == text;
    CloseAfterRun(s, 1, text, '`', 1);
  }

  /** A token at the start is split off whole. */
  lemma SplitAtToken(token: string, rest: string)
    requires token != [] && MatchAt(token + rest) == Some(|token|)
    ensures Split(token + rest) == ["", token] + Split(rest)
  {
    var s := token + rest;
    assert s[..|token|] == token && s[|token|..] == rest;
  }

  /** A line that is one whole token splits into that token between two empty
      plain pieces. */
  lemma SplitWholeToken(t: string)
    requires t != [] && MatchAt(t) == Some(|t|)
    ensures Split(t) == ["", t, ""]
  {
    assert t[..|t|] == t;
    assert t[|t|..] == [];
    assert Split([]) == [""];
  }

  /** Plain text followed by a whole token splits into the text, the token and the
      empty piece after it. */
  lemma SplitPlainThenToken(p: string, token: string)
    requires forall k :: 0 <= k < |p| ==> p[k] != '*' && p[k] != '`'
    requires token != [] && MatchAt(token) == Some(|token|)
    ensures Split(p + token) == [p, token, ""]
  {
    SplitWholeToken(token);
    SplitPlainPrefix(p, token);
    assert p + "" == p;
  }

  /** The empty pieces the split leaves around tokens render as nothing. */
  lemma KeepSpansSkipsEmpty(tail: seq<string>)
    ensures KeepSpans([""] + tail) == KeepSpans(tail)
  {
    var parts := [""] + tail;
    assert parts[0] == "" && parts[1..] == tail;
    ClassifyDrops("");
  }

  /** A token at the start of a line renders as its own span, followed by the spans
      of the rest of the line. */
  lemma FormatTokenFirst(token: string, rest: string)
    requires token != [] && MatchAt(token + rest) == Some(|token|)
    ensures FormatLine(token + rest) == KeepSpans([token]) + FormatLine(rest)
  {
    SplitAtToken(token, rest);
    var tail := [token] + Split(rest);
    assert ["", token] + Split(rest) == [""] + tail;
    KeepSpansSkipsEmpty(tail);
    KeepSpansAppend([token], Split(rest));
  }

  /** Non-blank plain text followed by one whole token renders as a plain span and
      the token's span. */
  lemma FormatPlainThenToken(p: string, token: string)
    requires forall k :: 0 <= k < |p| ==> p[k] != '*' && p[k] != '`'
    requires p != [] && !IsBlank(p)
    requires token != [] && MatchAt(token) == Some(|token|)
    ensures FormatLine(p + token) == [Plain(p)] + KeepSpans([token])
  {
    SplitPlainThenToken(p, token);
    KeepSpansAppend([p], [token, ""]);
    KeepSpansAppend([token], [""]);
    KeepSpansSkipsEmpty([]);
    PlainPart(p);
    KeepSinglePart(p);
  }

  /** `**text**` at the start of a line renders as one bold span before the spans
      of the rest of the line. */
  lemma FormatBoldFirst(b: string, rest: string)
    requires forall k :: 0 <= k < |b| ==> b[k] != '*' && !IsLineTerminator(b[k])
    ensures FormatLine("**" + b + "**" + rest) == [Bold(b)] + FormatLine(rest)
  {
    var bold := "**" + b + "**";
    BoldToken(b, rest);
    FormatTokenFirst(bold, rest);
    ClassifyWrapped(b);
    KeepSinglePart(bold);
  }

  /** Non-blank plain text followed by `*text*` renders as a plain span and an italic
      span. */
  lemma FormatPlainItalic(p: string, i: string)
    requires forall k :: 0 <= k < |p| ==> p[k] != '*' && p[k] != '`'
    requires p != [] && !IsBlank(p)
    requires i != [] && forall k :: 0 <= k < |i| ==> i[k] != '*' && !IsLineTerminator(i[k])
    ensures FormatLine(p + ("*" + i + "*")) == [Plain(p), Italic(i)]
  {
    var italic := "*" + i + "*";
    ItalicToken(i, "");
    assert italic + "" == italic;
    FormatPlainThenToken(p, italic);
    ClassifyWrapped(i);
    KeepSinglePart(italic);
  }

  /** Bold text, plain text and italic text on one line render as those three
      spans, in that order. */
  lemma FormatBoldPlainItalic(b: string, p: string, i: string)
    requires forall k :: 0 <= k < |b| ==> b[k] != '*' && !IsLineTerminator(b[k])
    requires forall k :: 0 <= k < |p| ==> p[k] != '*' && p[k] != '`'
    requires p != [] && !IsBlank(p)
    requires i != [] && forall k :: 0 <= k < |i| ==> i[k] != '*' && !IsLineTerminator(i[k])
    ensures FormatLine("**" + b + "**" + (p + ("*" + i + "*"))) == [Bold(b), Plain(p), Italic(i)]
  {
    FormatBoldFirst(b, p + ("*" + i + "*"));
    FormatPlainItalic(p, i);
  }

  /** When no `**` closes a leading `**` on its line, the italic alternative matches
      the two asterisks alone, and that part renders as an empty bold span. */
  lemma UnclosedDoubleAsterisk(s: string)
    requires OpensWith(s, '*', 2)
    requires forall e :: !LazyEnd(s, 2, '*', 2, e)
    ensures MatchAt(s) == Some(2)
    ensures Classify(s[..2]) == Some(Bold(""))
  {
    FindCloseShortest(s, 2, '*', 2);
    assert FindClose(s, 1, '*', 1) == Some(2);
  }

  /** A lone delimiter left over as a plain piece still renders as an empty span. */
  lemma LoneDelimiterParts()
    ensures Classify("*") == Some(Italic(""))
    ensures Classify("`") == Some(Code(""))
  {
  }

  /** Three asterisks: `**` caught by the italic alternative renders as an empty bold
      span, and the lone `*` left over renders as an empty italic span. */
  lemma ThreeAsterisksExample()
    ensures FormatLine("***") == [Bold(""), Italic("")]
  {
    var s := "***";
    assert !LazyEnd(s, 2, '*', 2, 3) && !LazyEnd(s, 2, '*', 2, 2);
    UnclosedDoubleAsterisk(s);
    assert s == "**" + "*";
    SplitAtToken("**", "*");
    assert Split("*") == ["*"] by {
      var t := "*";
      assert FindClose(t, 1, '*', 1) == None;
      assert MatchAt(t) == None;
      assert t[1..] == [];
      assert Split([]) == [""];
      assert [t[0]] + "" == t;
    }
    LoneDelimiterParts();
    var parts := ["", "**", "*"];
    assert KeepSpans(parts[2..]) == [Italic("")];
    assert KeepSpans(parts[1..]) == [Bold(""), Italic("")];
  }
}
