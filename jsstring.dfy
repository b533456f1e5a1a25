/**
 * The JavaScript string built-ins the note store and the client rely on:
 * `String.prototype.trim`, `String.prototype.toLowerCase` and
 * `String.prototype.includes`, stated over Dafny strings (sequences of
 * Unicode scalar values).
 */
module JsString {

  /** The code points ECMAScript's `trim` removes: the WhiteSpace and
      LineTerminator productions (section 12.2 and 12.3 of ECMA-262),
      with the Zs category as of Unicode 15 written out explicitly. */
  predicate IsWhitespace(c: char) {
    var n := c as int;
    n == 0x09 || n == 0x0A || n == 0x0B || n == 0x0C || n == 0x0D ||
    n == 0x20 || n == 0xA0 || n == 0x1680 || (0x2000 <= n <= 0x200A) ||
    n == 0x2028 || n == 0x2029 || n == 0x202F || n == 0x205F ||
    n == 0x3000 || n == 0xFEFF
  }

  /** Every character of `s` is whitespace (the empty string included). */
  predicate IsBlank(s: string) {
    forall i :: 0 <= i < |s| ==> IsWhitespace(s[i])
  }

  /** Number of whitespace characters at the start of `s`. */
  function LeadingBlanks(s: string): (n: nat)
    ensures n <= |s|
    ensures IsBlank(s[..n])
    ensures n < |s| ==> !IsWhitespace(s[n])
  {
    if s == [] || !IsWhitespace(s[0]) then 0
    else
      var m := LeadingBlanks(s[1..]);
      assert s[..m + 1] == [s[0]] + s[1..][..m];
      m + 1
  }

  /** Number of whitespace characters at the end of `s`. */
  function TrailingBlanks(s: string): (n: nat)
    ensures n <= |s|
    ensures IsBlank(s[|s| - n..])
    ensures n < |s| ==> !IsWhitespace(s[|s| - n - 1])
  {
    if s == [] || !IsWhitespace(s[|s| - 1]) then 0
    else
      var init := s[..|s| - 1];
      var m := TrailingBlanks(init);
      assert s[|s| - (m + 1)..] == init[|init| - m..] + [s[|s| - 1]];
      m + 1
  }

  /** `s[i..j]` is what remains of `s` once the surrounding whitespace is cut:
      everything outside it is whitespace and it neither starts nor ends
      with whitespace. */
  ghost predicate IsTrimOf(s: string, i: int, j: int) {
    0 <= i <= j <= |s| && IsBlank(s[..i]) && IsBlank(s[j..]) &&
    (i < j ==> !IsWhitespace(s[i]) && !IsWhitespace(s[j - 1]))
  }

  /** `s` without its leading whitespace. */
  function TrimStart(s: string): string {
    s[LeadingBlanks(s)..]
  }

  /** `s` without its trailing whitespace. */
  function TrimEnd(s: string): string {
    s[..|s| - TrailingBlanks(s)]
  }

  /** `String.prototype.trim`. */
  function Trim(s: string): (r: string)
    ensures IsTrimOf(s, LeadingBlanks(s), LeadingBlanks(s) + |r|)
    ensures r == s[LeadingBlanks(s)..LeadingBlanks(s) + |r|]
  {
    var i := LeadingBlanks(s);
    var t := TrimStart(s);
    var k := TrailingBlanks(t);
    var r := TrimEnd(t);
    assert s[i + |r|..] == t[|t| - k..];
    assert r == s[i..i + |r|];
    assert 0 < |r| ==> s[i + |r| - 1] == t[|t| - k - 1];
    r
  }

  /** The cut that `IsTrimOf` describes is unique whenever the string is not
      all whitespace, so it is the one `Trim` makes. */
  lemma TrimUnique(s: string, i: int, j: int)
    requires IsTrimOf(s, i, j) && i < j
    ensures Trim(s) == s[i..j]
  {
  }

  /** A string that neither starts nor ends with whitespace is its own trim. */
  lemma TrimUntouched(s: string)
    requires s != [] && !IsWhitespace(s[0]) && !IsWhitespace(s[|s| - 1])
    ensures Trim(s) == s
  {
    assert s[..0] == [] && s[|s|..] == [] && s[0..|s|] == s;
    TrimUnique(s, 0, |s|);
  }

  /** Trimming yields nothing exactly when the string is all whitespace. */
  lemma TrimEmptyIffBlank(s: string)
    ensures Trim(s) == [] <==> IsBlank(s)
  {
    var r := Trim(s);
    var i := LeadingBlanks(s);
    if r == [] {
      forall k | 0 <= k < |s| ensures IsWhitespace(s[k]) {
        assert s[k] == s[..i][k];
      }
    } else {
      assert !IsWhitespace(s[i]);
    }
  }

  /** Leading whitespace is cut however much of it there is. */
  lemma {:induction false} TrimStartSkipsBlank(pre: string, t: string)
    requires IsBlank(pre)
    ensures TrimStart(pre + t) == TrimStart(t)
  {
    if pre == [] {
      assert pre + t == t;
    } else {
      assert (pre + t)[1..] == pre[1..] + t;
      TrimStartSkipsBlank(pre[1..], t);
    }
  }

  /** Trailing whitespace is cut however much of it there is. */
  lemma {:induction false} TrimEndSkipsBlank(t: string, post: string)
    requires IsBlank(post)
    ensures TrimEnd(t + post) == TrimEnd(t)
  {
    if post == [] {
      assert t + post == t;
    } else {
      var init := post[..|post| - 1];
      assert (t + post)[..|t + post| - 1] == t + init;
      TrimEndSkipsBlank(t, init);
    }
  }

  /** Cutting the leading whitespace of a string that is not all whitespace
      does not reach what follows it. */
  lemma {:induction false} TrimStartKeepsSuffix(s: string, post: string)
    requires !IsBlank(s)
    ensures TrimStart(s + post) == TrimStart(s) + post
  {
    if IsWhitespace(s[0]) {
      assert (s + post)[1..] == s[1..] + post;
      var k :| 0 <= k < |s| && !IsWhitespace(s[k]);
      assert s[1..][k - 1] == s[k];
      TrimStartKeepsSuffix(s[1..], post);
    } else {
      assert (s + post)[0] == s[0];
    }
  }

  /** Whitespace around a string does not change what `trim` returns. */
  lemma TrimIgnoresPadding(pre: string, s: string, post: string)
    requires IsBlank(pre) && IsBlank(post)
    ensures Trim(pre + s + post) == Trim(s)
  {
    assert pre + s + post == pre + (s + post);
    TrimStartSkipsBlank(pre, s + post);
    if IsBlank(s) {
      TrimStartSkipsBlank(s, post);
      TrimStartSkipsBlank(post, []);
      assert post + [] == post;
      TrimEmptyIffBlank(s);
    } else {
      TrimStartKeepsSuffix(s, post);
      TrimEndSkipsBlank(TrimStart(s), post);
    }
  }

  /** Trimming twice is trimming once. */
  lemma TrimIdempotent(s: string)
    ensures Trim(Trim(s)) == Trim(s)
  {
    var r := Trim(s);
    var i := LeadingBlanks(s);
    if r == [] {
      TrimEmptyIffBlank(r);
    } else {
      assert r[..0] == [] && r[|r|..] == [];
      TrimUnique(r, 0, |r|);
    }
  }

  /** ASCII lower-casing of one character. `toLowerCase` applies the full
      Unicode case mapping; this model maps only `A`..`Z`. */
  function LowerChar(c: char): char {
    if 'A' <= c <= 'Z' then (c as int + 32) as char else c
  }

  /** `String.prototype.toLowerCase`, approximated by ASCII lower-casing. */
  function ToLowerCase(s: string): (r: string)
    ensures |r| == |s|
    ensures forall i :: 0 <= i < |s| ==> r[i] == LowerChar(s[i])
  {
    if s == [] then [] else [LowerChar(s[0])] + ToLowerCase(s[1..])
  }

  /** Lower-casing is idempotent. */
  lemma ToLowerCaseIdempotent(s: string)
    ensures ToLowerCase(ToLowerCase(s)) == ToLowerCase(s)
  {
  }

  /** Lower-casing a slice is slicing the lower-cased string. */
  lemma ToLowerCaseSlice(s: string, a: int, b: int)
    requires 0 <= a <= b <= |s|
    ensures ToLowerCase(s)[a..b] == ToLowerCase(s[a..b])
  {
  }

  /** Lower-casing maps whitespace to whitespace and nothing else to it. */
  lemma LowerCharKeepsWhitespace(c: char)
    ensures IsWhitespace(LowerChar(c)) <==> IsWhitespace(c)
  {
  }

  /** A string is blank exactly when its lower-cased form is. */
  lemma ToLowerCaseKeepsBlank(s: string)
    ensures IsBlank(ToLowerCase(s)) <==> IsBlank(s)
  {
    var low := ToLowerCase(s);
    forall k | 0 <= k < |s| ensures IsWhitespace(low[k]) <==> IsWhitespace(s[k]) {
      LowerCharKeepsWhitespace(s[k]);
    }
  }

  /** Lower-casing neither creates nor removes whitespace, so it commutes
      with trimming. */
  lemma TrimToLowerCaseCommute(s: string)
    ensures Trim(ToLowerCase(s)) == ToLowerCase(Trim(s))
  {
    var low := ToLowerCase(s);
    var r := Trim(s);
    var i := LeadingBlanks(s);
    var j := i + |r|;
    if r == [] {
      TrimEmptyIffBlank(s);
      ToLowerCaseKeepsBlank(s);
      TrimEmptyIffBlank(low);
    } else {
      ToLowerCaseSlice(s, 0, i);
      ToLowerCaseSlice(s, j, |s|);
      ToLowerCaseSlice(s, i, j);
      ToLowerCaseKeepsBlank(s[..i]);
      ToLowerCaseKeepsBlank(s[j..]);
      LowerCharKeepsWhitespace(s[i]);
      LowerCharKeepsWhitespace(s[j - 1]);
      assert IsTrimOf(low, i, j);
      TrimUnique(low, i, j);
    }
  }

  /** `p` occurs at the start of `s`. */
  predicate StartsWith(s: string, p: string) {
    |p| <= |s| && s[..|p|] == p
  }

  /** `String.prototype.includes`: `p` occurs somewhere in `s`; the empty
      string occurs everywhere. */
  predicate Includes(s: string, p: string)
    ensures Includes(s, p) ==> |p| <= |s|
    ensures p == [] ==> Includes(s, p)
    decreases |s|
  {
    StartsWith(s, p) || (s != [] && Includes(s[1..], p))
  }

  /** `p` is the slice of `s` that starts at offset `k`. */
  ghost predicate OccursAt(s: string, p: string, k: int) {
    0 <= k <= |s| - |p| && s[k..k + |p|] == p
  }

  /** `Includes` holds exactly when `p` is a slice of `s` at some offset. */
  lemma {:induction false} IncludesIffOccurs(s: string, p: string)
    ensures Includes(s, p) <==> exists k :: OccursAt(s, p, k)
    decreases |s|
  {
    if Includes(s, p) {
      if !StartsWith(s, p) {
        IncludesIffOccurs(s[1..], p);
        var k :| OccursAt(s[1..], p, k);
        assert s[k + 1..k + 1 + |p|] == s[1..][k..k + |p|];
        assert OccursAt(s, p, k + 1);
      } else {
        assert OccursAt(s, p, 0);
      }
    }
    if exists k :: OccursAt(s, p, k) {
      var k :| OccursAt(s, p, k);
      if k > 0 {
        assert s[1..][k - 1..k - 1 + |p|] == s[k..k + |p|];
        assert OccursAt(s[1..], p, k - 1);
        IncludesIffOccurs(s[1..], p);
      }
    }
  }
}
