/**
 * The three Python string operations the availability classifier relies on:
 * `str.lower()`, the substring test `pattern in text`, and `str.strip()`.
 */
module Text {

  // ---------------------------------------------------------------------------
  // Lower-casing
  // ---------------------------------------------------------------------------

  /** Lower-cases one character; only the ASCII letters A-Z are mapped. */
  function LowerChar(c: char): char {
    if 'A' <= c <= 'Z' then (c as int - 'A' as int + 'a' as int) as char else c
  }

  /** `s.lower()`, character by character. */
  function Lower(s: string): string {
    if s == [] then [] else [LowerChar(s[0])] + Lower(s[1..])
  }

  /** Lower-casing keeps the length and maps each character on its own. */
  lemma {:induction false} LowerPointwise(s: string)
    ensures |Lower(s)| == |s|
    ensures forall k :: 0 <= k < |s| ==> Lower(s)[k] == LowerChar(s[k])
  {
    if s != [] {
      LowerPointwise(s[1..]);
    }
  }

  /** No character of `s` is an upper-case letter. */
  predicate NoUpper(s: string) {
    forall i :: 0 <= i < |s| ==> !('A' <= s[i] <= 'Z')
  }

  /** Two strings are the same once lower-cased. */
  ghost predicate EqualIgnoringCase(a: string, b: string) {
    Lower(a) == Lower(b)
  }

  /** Lower-casing keeps the length and commutes with taking a slice. */
  lemma LowerSlice(s: string, i: nat, j: nat)
    requires i <= j <= |s|
    ensures |Lower(s)| == |s|
    ensures Lower(s)[i..j] == Lower(s[i..j])
  {
    LowerPointwise(s);
    LowerPointwise(s[i..j]);
    assert forall k :: 0 <= k < j - i ==> Lower(s)[i..j][k] == LowerChar(s[i + k]) == Lower(s[i..j])[k];
  }

  /** A string with no upper-case letter is its own lower-case form. */
  lemma LowerOfNoUpper(s: string)
    requires NoUpper(s)
    ensures Lower(s) == s
  {
    LowerPointwise(s);
    assert forall k :: 0 <= k < |s| ==> Lower(s)[k] == s[k];
  }

  /** Lower-casing is idempotent, and its result has no upper-case letter. */
  lemma LowerIsLower(s: string)
    ensures NoUpper(Lower(s))
    ensures Lower(Lower(s)) == Lower(s)
  {
    LowerPointwise(s);
    LowerOfNoUpper(Lower(s));
  }

  // ---------------------------------------------------------------------------
  // Substring search
  // ---------------------------------------------------------------------------

  /** `pat` occurs in `text` starting at index `i`. */
  ghost predicate OccursAt(text: string, pat: string, i: int) {
    0 <= i <= |text| - |pat| && text[i..i + |pat|] == pat
  }

  /** Python's `pat in text`: is `pat` a substring of `text`? */
  function Contains(text: string, pat: string): bool
    decreases |text|
  {
    if pat <= text then true
    else if text == [] then false
    else Contains(text[1..], pat)
  }

  /** `Contains` holds exactly when the pattern occurs at some index. */
  lemma {:induction false} ContainsIff(text: string, pat: string)
    ensures Contains(text, pat) <==> exists i :: OccursAt(text, pat, i)
    decreases |text|
  {
    if pat <= text {
      assert OccursAt(text, pat, 0);
    } else if text == [] {
    } else {
      ContainsIff(text[1..], pat);
      if Contains(text[1..], pat) {
        var i :| OccursAt(text[1..], pat, i);
        assert text[1..][i..i + |pat|] == text[i + 1..i + 1 + |pat|];
        assert OccursAt(text, pat, i + 1);
      }
      if exists i :: OccursAt(text, pat, i) {
        var i :| OccursAt(text, pat, i);
        assert text[1..][i - 1..i - 1 + |pat|] == text[i..i + |pat|];
        assert OccursAt(text[1..], pat, i - 1);
      }
    }
  }

  /** `pat` occurs in `src` at index `i` when case is ignored. */
  ghost predicate OccursIgnoringCaseAt(src: string, pat: string, i: int) {
    0 <= i <= |src| - |pat| && EqualIgnoringCase(src[i..i + |pat|], pat)
  }

  /**
   * Searching a lower-cased text for a pattern with no upper-case letter is a
   * case-insensitive search of the original text.
   */
  lemma ContainsLowerIgnoresCase(src: string, pat: string)
    requires NoUpper(pat)
    ensures Contains(Lower(src), pat) <==> exists i :: OccursIgnoringCaseAt(src, pat, i)
  {
    ContainsIff(Lower(src), pat);
    LowerOfNoUpper(pat);
    LowerPointwise(src);
    forall i
      ensures OccursAt(Lower(src), pat, i) <==> OccursIgnoringCaseAt(src, pat, i)
    {
      if 0 <= i <= |src| - |pat| {
        LowerSlice(src, i, i + |pat|);
      }
    }
  }

  /** A string occurring inside a pattern is found wherever the pattern is. */
  lemma ContainsFromLonger(text: string, long: string, short: string, j: nat)
    requires OccursAt(long, short, j)
    requires Contains(text, long)
    ensures Contains(text, short)
  {
    ContainsIff(text, long);
    ContainsIff(text, short);
    var i :| OccursAt(text, long, i);
    forall k | 0 <= k < |short|
      ensures text[i + j..i + j + |short|][k] == short[k]
    {
      assert text[i..i + |long|][j + k] == long[j + k] == long[j..j + |short|][k];
    }
    assert OccursAt(text, short, i + j);
  }

  // ---------------------------------------------------------------------------
  // Stripping white space
  // ---------------------------------------------------------------------------

  /** Python's `str.isspace()` for one character. */
  predicate IsSpace(c: char) {
    ('\t' <= c <= '\r') || ('\U{1C}' <= c <= '\U{1F}') || c == ' '
    || c == '\U{85}' || c == '\U{A0}' || c == '\U{1680}'
    || ('\U{2000}' <= c <= '\U{200A}') || c == '\U{2028}' || c == '\U{2029}'
    || c == '\U{202F}' || c == '\U{205F}' || c == '\U{3000}'
  }

  /** Every character of `s` is white space. */
  ghost predicate AllSpace(s: string) {
    forall k :: 0 <= k < |s| ==> IsSpace(s[k])
  }

  /** `s.lstrip()`. */
  function StripStart(s: string): string {
    if |s| > 0 && IsSpace(s[0]) then StripStart(s[1..]) else s
  }

  /** `s.rstrip()`. */
  function StripEnd(s: string): string {
    if |s| > 0 && IsSpace(s[|s| - 1]) then StripEnd(s[..|s| - 1]) else s
  }

  /** `s.strip()`. */
  function Strip(s: string): string {
    StripEnd(StripStart(s))
  }

  /** `StripStart` removes a white-space prefix and stops at a non-space. */
  lemma {:induction false} StripStartShape(s: string)
    ensures |StripStart(s)| <= |s|
    ensures StripStart(s) == s[|s| - |StripStart(s)|..]
    ensures AllSpace(s[..|s| - |StripStart(s)|])
    ensures StripStart(s) != [] ==> !IsSpace(StripStart(s)[0])
  {
    if |s| > 0 && IsSpace(s[0]) {
      StripStartShape(s[1..]);
      var n := |s| - |StripStart(s)|;
      assert s[1..][n - 1..] == s[n..];
      assert forall k :: 1 <= k < n ==> s[..n][k] == s[1..][..n - 1][k - 1];
    }
  }

  /** `StripEnd` removes a white-space suffix and stops at a non-space. */
  lemma {:induction false} StripEndShape(s: string)
    ensures |StripEnd(s)| <= |s|
    ensures StripEnd(s) == s[..|StripEnd(s)|]
    ensures AllSpace(s[|StripEnd(s)|..])
    ensures StripEnd(s) != [] ==> !IsSpace(StripEnd(s)[|StripEnd(s)| - 1])
  {
    if |s| > 0 && IsSpace(s[|s| - 1]) {
      var t := s[..|s| - 1];
      StripEndShape(t);
      var n := |StripEnd(s)|;
      assert t[..n] == s[..n];
      assert forall k :: n <= k < |s| - 1 ==> s[k] == t[k];
    }
  }

  /**
   * `Strip(s)` is `s` with a white-space prefix of length `lead` and a
   * white-space suffix removed, and it neither starts nor ends with white space.
   */
  lemma StripShape(s: string) returns (lead: nat)
    ensures lead + |Strip(s)| <= |s|
    ensures s[lead..lead + |Strip(s)|] == Strip(s)
    ensures AllSpace(s[..lead]) && AllSpace(s[lead + |Strip(s)|..])
    ensures Strip(s) != [] ==> !IsSpace(Strip(s)[0]) && !IsSpace(Strip(s)[|Strip(s)| - 1])
  {
    StripStartShape(s);
    var t := StripStart(s);
    StripEndShape(t);
    lead := |s| - |t|;
    var r := Strip(s);
    assert r == t[..|r|];
    assert s[lead..lead + |r|] == t[..|r|];
    assert forall k :: lead + |r| <= k < |s| ==> s[k] == t[k - lead] && t[|r|..][k - lead - |r|] == t[k - lead];
  }

  /** White space in front of a string is removed by `StripStart`. */
  lemma {:induction false} StripStartSkipsSpace(pre: string, x: string)
    requires AllSpace(pre)
    ensures StripStart(pre + x) == StripStart(x)
    decreases |pre|
  {
    if pre == [] {
      assert pre + x == x;
    } else {
      assert (pre + x)[1..] == pre[1..] + x;
      StripStartSkipsSpace(pre[1..], x);
    }
  }

  /** White space after a string is removed by `StripEnd`. */
  lemma {:induction false} StripEndSkipsSpace(x: string, post: string)
    requires AllSpace(post)
    ensures StripEnd(x + post) == StripEnd(x)
    decreases |post|
  {
    if post == [] {
      assert x + post == x;
    } else {
      var p := post[..|post| - 1];
      assert (x + post)[..|x + post| - 1] == x + p;
      StripEndSkipsSpace(x, p);
    }
  }

  /** Once `StripStart` reaches a non-space in `x`, what follows `x` is kept. */
  lemma {:induction false} StripStartKeepsTail(x: string, y: string)
    requires StripStart(x) != []
    ensures StripStart(x + y) == StripStart(x) + y
    decreases |x|
  {
    if IsSpace(x[0]) {
      assert (x + y)[1..] == x[1..] + y;
      StripStartKeepsTail(x[1..], y);
    }
  }

  /** Surrounding white space never changes what `strip()` returns. */
  lemma StripIgnoresPadding(pre: string, t: string, post: string)
    requires AllSpace(pre) && AllSpace(post)
    ensures Strip(pre + t + post) == Strip(t)
  {
    assert pre + t + post == pre + (t + post);
    StripStartSkipsSpace(pre, t + post);
    if StripStart(t) != [] {
      StripStartKeepsTail(t, post);
      StripEndSkipsSpace(StripStart(t), post);
    } else {
      StripStartShape(t);
      assert t[..|t|] == t;
      StripStartSkipsSpace(t, post);
      assert post + [] == post;
      StripStartSkipsSpace(post, []);
    }
  }
}
