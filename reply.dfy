/** The clean-up `sendMessage` applies to the body of a successful reply before it
    becomes the bot's message: JSON `output` or the raw body, literal `\n` escapes
    turned into newlines, then trimmed. */
module Reply {
  import opened Wrappers
  import opened JsText

  /** What `JSON.parse(raw)` made of the body, reduced to what the client reads: the
      body was not JSON at all, or it was, and its `output` field held a string or
      not (missing, `null`, a number, an object; the body being `null` itself is
      also `Json(None)`, since reading `.output` then throws as well). */
  datatype ParsedBody = NotJson | Json(output: Option<string>)

  /** A literal backslash followed by `n` (the two characters the regex `/\\n/`
      matches) starts at offset `i`. */
  predicate EscapeAt(s: string, i: int) {
    0 <= i && i + 1 < |s| && s[i] == '\\' && s[i + 1] == 'n'
  }

  predicate NoEscapes(s: string) {
    forall i :: 0 <= i < |s| ==> !EscapeAt(s, i)
  }

  /** `text.replace(/\\n/g, '\n')`: every backslash-`n` pair, scanning from the left
      without overlaps, becomes one newline. */
  function Unescape(s: string): (r: string)
    ensures |r| <= |s|
    ensures r != [] && r[0] == 'n' ==> s != [] && s[0] == 'n'
  {
    if s == [] then []
    else if EscapeAt(s, 0) then "\n" + Unescape(s[2..])
    else [s[0]] + Unescape(s[1..])
  }

  /** Writing newlines as backslash-`n`: the encoding `Unescape` undoes. */
  function Escape(t: string): (r: string)
    ensures '\n' !in r
    ensures r != [] && r[0] == 'n' ==> t != [] && t[0] == 'n'
  {
    if t == [] then []
    else if t[0] == '\n' then "\\n" + Escape(t[1..])
    else [t[0]] + Escape(t[1..])
  }

  /** Putting a character in front of escape-free text leaves it escape-free unless
      that character is a backslash and the text starts with `n`. */
  lemma ConsNoEscapes(c: char, u: string)
    requires NoEscapes(u)
    requires !(c == '\\' && u != [] && u[0] == 'n')
    ensures NoEscapes([c] + u)
  {
    forall i | 1 <= i ensures !EscapeAt([c] + u, i) {
      assert !EscapeAt(u, i - 1);
    }
  }

  /** A piece of escape-free text is escape-free. */
  lemma NoEscapesSlice(s: string, i: nat, j: nat)
    requires NoEscapes(s) && i <= j <= |s|
    ensures NoEscapes(s[i..j])
  {
    forall k | 0 <= k ensures !EscapeAt(s[i..j], k) {
      assert !EscapeAt(s, i + k);
    }
  }

  /** No backslash-`n` pair survives the replacement, not even one formed by a
      backslash the replacement kept and the `n` after it. */
  lemma {:induction false} UnescapeLeavesNoEscape(s: string)
    decreases |s|
    ensures NoEscapes(Unescape(s))
  {
    if s == [] {
    } else if EscapeAt(s, 0) {
      UnescapeLeavesNoEscape(s[2..]);
      ConsNoEscapes('\n', Unescape(s[2..]));
    } else {
      UnescapeLeavesNoEscape(s[1..]);
      ConsNoEscapes(s[0], Unescape(s[1..]));
    }
  }

  /** Text without backslash-`n` pairs is left as it is. */
  lemma {:induction false} UnescapeKeepsPlainText(s: string)
    requires NoEscapes(s)
    decreases |s|
    ensures Unescape(s) == s
  {
    if s != [] {
      assert !EscapeAt(s, 0);
      NoEscapesSlice(s, 1, |s|);
      assert s[1..|s|] == s[1..];
      UnescapeKeepsPlainText(s[1..]);
    }
  }

  /** Replacing twice is replacing once. */
  lemma UnescapeIdempotent(s: string)
    ensures Unescape(Unescape(s)) == Unescape(s)
  {
    UnescapeLeavesNoEscape(s);
    UnescapeKeepsPlainText(Unescape(s));
  }

  /** Newlines written as backslash-`n` come back as newlines, for any text that does
      not itself contain a backslash-`n` pair. */
  lemma {:induction false} UnescapeEscape(t: string)
    requires NoEscapes(t)
    decreases |t|
    ensures Unescape(Escape(t)) == t
  {
    if t != [] {
      NoEscapesSlice(t, 1, |t|);
      assert t[1..|t|] == t[1..];
      UnescapeEscape(t[1..]);
      var e := Escape(t[1..]);
      if t[0] == '\n' {
        var s := "\\n" + e;
        assert EscapeAt(s, 0) && s[2..] == e;
      } else {
        var s := [t[0]] + e;
        assert !EscapeAt(t, 0);
        assert !EscapeAt(s, 0);
        assert s[1..] == e;
      }
    }
  }

  /** The delimiter of the two asterisk rewrites: `*` for italic, `**` for bold. */
  function Stars(n: nat): string {
    if n == 1 then "*" else "**"
  }

  // `text.replace(/\*\*(.*?)\*\*/g, '**$1**')` for `n == 2` and
  // `text.replace(/\*(.*?)\*/g, '*$1*')` for `n == 1`: at the leftmost position
  // where the delimiter, the lazy `(.*?)` group and the delimiter match, the match
  // is replaced by the group between two delimiters, and the scan resumes after it.
  function Rewrite(s: string, n: nat): string
    requires n == 1 || n == 2
    decreases |s|
  {
    if s == [] then []
    else if DelimiterAt(s, 0, '*', n) && FindClose(s, n, '*', n).Some? then
      var e := FindClose(s, n, '*', n).value;
      Stars(n) + s[n..e - n] + Stars(n) + Rewrite(s[e..], n)
    else [s[0]] + Rewrite(s[1..], n)
  }

  /** One step of the scan gives back a non-empty prefix of the text unchanged: the
      whole match when one starts here, else the character passed over. */
  lemma RewriteStep(s: string, n: nat) returns (j: nat)
    requires n == 1 || n == 2
    requires s != []
    ensures 0 < j <= |s|
    ensures Rewrite(s[j..], n) == s[j..] ==> Rewrite(s, n) == s
  {
    if DelimiterAt(s, 0, '*', n) && FindClose(s, n, '*', n).Some? {
      j := FindClose(s, n, '*', n).value;
      FindCloseEndsWithDelimiter(s, n, '*', n);
      RewrittenMatch(s, n, j);
    } else {
      j := 1;
      assert [s[0]] == s[..1];
    }
    assert s[..j] + s[j..] == s;
  }

  /** Both rewrites put back exactly what they matched: they never change the text. */
  lemma {:induction false} RewriteIsIdentity(s: string, n: nat)
    requires n == 1 || n == 2
    decreases |s|
    ensures Rewrite(s, n) == s
  {
    if s != [] {
      var j := RewriteStep(s, n);
      RewriteIsIdentity(s[j..], n);
    }
  }

  /** A matched delimiter-group-delimiter span, rebuilt from its group, is itself. */
  lemma RewrittenMatch(s: string, n: nat, e: nat)
    requires n == 1 || n == 2
    requires 2 * n <= e <= |s| && DelimiterAt(s, 0, '*', n) && DelimiterAt(s, e - n, '*', n)
    ensures Stars(n) + s[n..e - n] + Stars(n) == s[..e]
  {
    StarsAt(s, 0, n);
    StarsAt(s, e - n, n);
    assert s[..e] == s[..n] + s[n..e - n] + s[e - n..e];
  }

  /** An asterisk delimiter in the text reads as `Stars(n)`. */
  lemma StarsAt(s: string, k: nat, n: nat)
    requires DelimiterAt(s, k, '*', n) && (n == 1 || n == 2)
    ensures s[k..k + n] == Stars(n)
  {
    if n == 1 {
      assert s[k..k + n] == [s[k]];
    } else {
      assert s[k..k + n] == [s[k], s[k + 1]];
    }
  }

  /** The text the bot message is made from: the string `output` when the body
      parsed as JSON and had one, the whole raw body otherwise. */
  function Payload(raw: string, parsed: ParsedBody): string {
    match parsed
    case Json(Some(o)) => o
    case _ => raw
  }

  /** Trimming escape-free text leaves it escape-free. */
  lemma TrimKeepsNoEscapes(u: string)
    requires NoEscapes(u)
    ensures NoEscapes(Trim(u))
  {
    TrimSpec(u);
    var i, r := |u| - |TrimStart(u)|, Trim(u);
    assert u[i..i + |r|] == r;
    NoEscapesSlice(u, i, i + |r|);
  }

  /** Unescape, then trim. */
  function Clean(t: string): string {
    Trim(Unescape(t))
  }

  /** Cleaned text holds no backslash-`n` pair, neither starts nor ends with
      whitespace, and is empty exactly when the unescaped text is all whitespace. */
  lemma CleanSpec(t: string)
    ensures NoEscapes(Clean(t))
    ensures Clean(t) == [] || (!IsWhitespace(Clean(t)[0]) && !IsWhitespace(Clean(t)[|Clean(t)| - 1]))
    ensures Clean(t) == [] <==> AllWhitespace(Unescape(t))
  {
    UnescapeLeavesNoEscape(t);
    TrimKeepsNoEscapes(Unescape(t));
    TrimSpec(Unescape(t));
  }

  /** The processing of a successful reply: on the JSON path the `output` string is
      unescaped, put through the two asterisk rewrites and trimmed; when parsing
      fails or `output` is not a string, the `.replace` call throws and the raw body
      is unescaped and trimmed instead. */
  function NormaliseReply(raw: string, parsed: ParsedBody): string {
    match parsed
    case Json(Some(o)) => Trim(Rewrite(Rewrite(Unescape(o), 2), 1))
    case _ => Trim(Unescape(raw))
  }

  /** Both paths come to the same thing: unescape-then-trim of the payload. */
  lemma NormaliseReplyIsClean(raw: string, parsed: ParsedBody)
    ensures NormaliseReply(raw, parsed) == Clean(Payload(raw, parsed))
  {
    if parsed.Json? && parsed.output.Some? {
      var u := Unescape(parsed.output.value);
      RewriteIsIdentity(u, 2);
      RewriteIsIdentity(u, 1);
    }
  }

  /** The `output` string is used only when the body parsed and `output` is a
      string; any other body, whatever it holds, is cleaned as a whole. */
  lemma NormaliseReplyPaths(raw: string, parsed: ParsedBody)
    ensures parsed.Json? && parsed.output.Some? ==>
      NormaliseReply(raw, parsed) == Clean(parsed.output.value)
    ensures !(parsed.Json? && parsed.output.Some?) ==> NormaliseReply(raw, parsed) == Clean(raw)
  {
    NormaliseReplyIsClean(raw, parsed);
  }

  /** A reply whose newlines the backend sent escaped as backslash-`n` gets them
      back: cleaning it is trimming the text the backend meant. */
  lemma CleanEscaped(t: string)
    requires NoEscapes(t)
    ensures Clean(Escape(t)) == Trim(t)
  {
    UnescapeEscape(t);
  }
}
