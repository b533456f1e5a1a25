/**
 * `escapeHtml`, which the server (server.js) and the browser client
 * (public/app.js) both define with the same replacement table: each of
 * `& < > " ' ``` becomes its character reference and every other character
 * is copied.
 */
module Html {

  /** The six characters the escape replaces. */
  predicate IsSpecial(c: char) {
    c == '&' || c == '<' || c == '>' || c == '"' || c == '\'' || c == '`'
  }

  /** The lookup table of the replacement callback. */
  function EscapeChar(c: char): (r: string)
    ensures !IsSpecial(c) ==> r == [c]
    ensures IsSpecial(c) ==> |r| >= 4 && r[0] == '&' && r[|r| - 1] == ';'
    ensures forall i :: 0 <= i < |r| ==> r[i] !in "<>\"'`"
  {
    match c
    case '&' => "&amp;"
    case '<' => "&lt;"
    case '>' => "&gt;"
    case '"' => "&quot;"
    case '\'' => "&#39;"
    case '`' => "&#96;"
    case _ => [c]
  }

  /** Every special character of `s` replaced by its reference, every other
      one copied: the concatenation of the per-character replacements, in
      order. */
  function EscapeHtml(s: string): (r: string)
    ensures |r| >= |s|
  {
    if s == [] then [] else EscapeChar(s[0]) + EscapeHtml(s[1..])
  }

  /** The output never contains `< > " ' ```, the characters that could
      open a tag or close an attribute value. */
  lemma {:induction false} EscapeHtmlIsSafe(s: string)
    ensures forall i :: 0 <= i < |EscapeHtml(s)| ==> EscapeHtml(s)[i] !in "<>\"'`"
  {
    if s != [] {
      EscapeHtmlIsSafe(s[1..]);
      var e := EscapeChar(s[0]);
      var r := EscapeHtml(s);
      assert r == e + EscapeHtml(s[1..]);
      forall i | 0 <= i < |r| ensures r[i] !in "<>\"'`" {
        if i >= |e| {
          assert r[i] == EscapeHtml(s[1..])[i - |e|];
        }
      }
    }
  }

  /** Escaping distributes over concatenation. */
  lemma {:induction false} EscapeHtmlAppend(a: string, b: string)
    ensures EscapeHtml(a + b) == EscapeHtml(a) + EscapeHtml(b)
  {
    if a != [] {
      var e := EscapeChar(a[0]);
      assert (a + b)[0] == a[0] && (a + b)[1..] == a[1..] + b;
      calc {
        EscapeHtml(a + b);
        e + EscapeHtml(a[1..] + b);
        { EscapeHtmlAppend(a[1..], b); }
        e + (EscapeHtml(a[1..]) + EscapeHtml(b));
        (e + EscapeHtml(a[1..])) + EscapeHtml(b);
      }
    } else {
      assert a + b == b;
    }
  }

  /** A string without special characters is left as it is. */
  lemma {:induction false} EscapeHtmlPlain(s: string)
    requires forall i :: 0 <= i < |s| ==> !IsSpecial(s[i])
    ensures EscapeHtml(s) == s
  {
    if s != [] {
      EscapeHtmlPlain(s[1..]);
    }
  }

  /** Decodes the six references `EscapeChar` produces and copies anything
      else; the inverse of `EscapeHtml`. */
  function Unescape(t: string): (r: string)
    decreases |t|
  {
    if t == [] then []
    else if t[0] != '&' then [t[0]] + Unescape(t[1..])
    else if |t| >= 5 && t[1] == 'a' && t[2] == 'm' && t[3] == 'p' && t[4] == ';' then ['&'] + Unescape(t[5..])
    else if |t| >= 4 && t[1] == 'l' && t[2] == 't' && t[3] == ';' then ['<'] + Unescape(t[4..])
    else if |t| >= 4 && t[1] == 'g' && t[2] == 't' && t[3] == ';' then ['>'] + Unescape(t[4..])
    else if |t| >= 6 && t[1] == 'q' && t[2] == 'u' && t[3] == 'o' && t[4] == 't' && t[5] == ';' then ['"'] + Unescape(t[6..])
    else if |t| >= 5 && t[1] == '#' && t[2] == '3' && t[3] == '9' && t[4] == ';' then ['\''] + Unescape(t[5..])
    else if |t| >= 5 && t[1] == '#' && t[2] == '9' && t[3] == '6' && t[4] == ';' then ['`'] + Unescape(t[5..])
    else ['&'] + Unescape(t[1..])
  }

  /** Decoding the replacement of one character gives that character back,
      whatever follows it. */
  lemma UnescapeEscapeChar(c: char, rest: string)
    ensures Unescape(EscapeChar(c) + rest) == [c] + Unescape(rest)
  {
    var e := EscapeChar(c);
    var t := e + rest;
    assert forall k :: 0 <= k < |e| ==> t[k] == e[k];
    assert t[|e|..] == rest;
  }

  /** Escaping loses nothing: decoding the output gives back the input, so
      distinct strings escape to distinct strings. */
  lemma {:induction false} UnescapeEscapeHtml(s: string)
    ensures Unescape(EscapeHtml(s)) == s
  {
    if s != [] {
      UnescapeEscapeChar(s[0], EscapeHtml(s[1..]));
      UnescapeEscapeHtml(s[1..]);
      assert [s[0]] + s[1..] == s;
    }
  }
}
