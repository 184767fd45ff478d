/** The slice of the browser DOM that the content script reads: elements seen
    through the four properties the clickable test inspects, and the string
    operations (`trim`, `includes`, class-token matching) its queries rely on. */
module Dom {

  /** A lookup that may come back empty (`null` / `undefined` in the page). */
  datatype Option<+T> = None | Some(value: T)

  /** An element as the content script sees it: its `tagName`, its `role` and
      `tabindex` attributes (`getAttribute` yields `null` when absent) and its
      `className` string. */
  datatype Elem = Elem(tag: string, role: Option<string>, tabindex: Option<string>, className: string)

  /** The characters `String.prototype.trim` removes: the ECMAScript WhiteSpace
      and LineTerminator code points. */
  predicate IsTrimSpace(c: char) {
    || c == '\t' || c == '\n' || c == '\U{000B}' || c == '\U{000C}' || c == '\r' || c == ' '
    || c == '\U{00A0}' || c == '\U{1680}' || ('\U{2000}' <= c <= '\U{200A}')
    || c == '\U{2028}' || c == '\U{2029}' || c == '\U{202F}' || c == '\U{205F}'
    || c == '\U{3000}' || c == '\U{FEFF}'
  }

  /** The ASCII whitespace that separates the tokens of a `class` attribute. */
  predicate IsAsciiSpace(c: char) {
    c == ' ' || c == '\t' || c == '\n' || c == '\U{000C}' || c == '\r'
  }

  /** `s` with its leading trim-space removed. */
  function TrimStart(s: string): (r: string)
    ensures |r| <= |s| && r == s[|s| - |r|..]
    ensures forall i :: 0 <= i < |s| - |r| ==> IsTrimSpace(s[i])
    ensures r == [] || !IsTrimSpace(r[0])
  {
    if |s| > 0 && IsTrimSpace(s[0]) then TrimStart(s[1..]) else s
  }

  /** `s` with its trailing trim-space removed. */
  function TrimEnd(s: string): (r: string)
    ensures |r| <= |s| && r == s[..|r|]
    ensures forall i :: |r| <= i < |s| ==> IsTrimSpace(s[i])
    ensures r == [] || !IsTrimSpace(r[|r| - 1])
  {
    if |s| > 0 && IsTrimSpace(s[|s| - 1]) then TrimEnd(s[..|s| - 1]) else s
  }

  /** `String.prototype.trim`: the longest slice of `s` that neither starts nor
      ends with trim-space, everything cut away being trim-space. */
  function Trim(s: string): (r: string)
    ensures exists i :: OccursAt(s, r, i)
                        && (forall j :: 0 <= j < i ==> IsTrimSpace(s[j]))
                        && (forall j :: i + |r| <= j < |s| ==> IsTrimSpace(s[j]))
    ensures r == [] || (!IsTrimSpace(r[0]) && !IsTrimSpace(r[|r| - 1]))
  {
    var t := TrimStart(s);
    var r := TrimEnd(t);
    TrimmedSlice(s, t, r);
    r
  }

  /** Cutting a trim-space prefix and then a trim-space suffix leaves a slice
      of `s` with only trim-space around it. */
  lemma TrimmedSlice(s: string, t: string, r: string)
    requires |t| <= |s| && t == s[|s| - |t|..]
    requires forall i :: 0 <= i < |s| - |t| ==> IsTrimSpace(s[i])
    requires |r| <= |t| && r == t[..|r|]
    requires forall i :: |r| <= i < |t| ==> IsTrimSpace(t[i])
    ensures OccursAt(s, r, |s| - |t|)
    ensures forall j :: |s| - |t| + |r| <= j < |s| ==> IsTrimSpace(s[j])
  {
    var i := |s| - |t|;
    assert s[i..i + |r|] == t[..|r|];
    forall j | i + |r| <= j < |s|
      ensures IsTrimSpace(s[j])
    {
      assert s[j] == t[j - i];
    }
  }

  /** The partner of `Trim`: a word that neither starts nor ends with
      trim-space, padded on either side with trim-space, trims back to itself;
      so a label rendered with surrounding whitespace still matches. */
  lemma {:induction false} TrimPadded(pre: string, w: string, post: string)
    requires forall i :: 0 <= i < |pre| ==> IsTrimSpace(pre[i])
    requires forall i :: 0 <= i < |post| ==> IsTrimSpace(post[i])
    requires w == [] || (!IsTrimSpace(w[0]) && !IsTrimSpace(w[|w| - 1]))
    ensures Trim(pre + w + post) == w
  {
    if w == [] {
      var all := pre + post;
      assert forall i :: 0 <= i < |all| ==> IsTrimSpace(all[i]) by {
        forall i | 0 <= i < |all|
          ensures IsTrimSpace(all[i])
        {
          if i >= |pre| {
            assert all[i] == post[i - |pre|];
          }
        }
      }
      assert pre + w + post == all + [];
      TrimStartPadded(all, []);
    } else {
      TrimStartPadded(pre, w + post);
      assert pre + w + post == pre + (w + post);
      TrimEndPadded(w, post);
    }
  }

  lemma {:induction false} TrimStartPadded(pre: string, rest: string)
    requires forall i :: 0 <= i < |pre| ==> IsTrimSpace(pre[i])
    requires rest == [] || !IsTrimSpace(rest[0])
    ensures TrimStart(pre + rest) == rest
    decreases |pre|
  {
    if |pre| == 0 {
      assert pre + rest == rest;
    } else {
      assert (pre + rest)[1..] == pre[1..] + rest;
      TrimStartPadded(pre[1..], rest);
    }
  }

  lemma {:induction false} TrimEndPadded(rest: string, post: string)
    requires forall i :: 0 <= i < |post| ==> IsTrimSpace(post[i])
    requires rest == [] || !IsTrimSpace(rest[|rest| - 1])
    ensures TrimEnd(rest + post) == rest
    decreases |post|
  {
    if |post| == 0 {
      assert rest + post == rest;
    } else {
      var n := |rest + post|;
      assert (rest + post)[..n - 1] == rest + post[..|post| - 1];
      TrimEndPadded(rest, post[..|post| - 1]);
    }
  }

  /** `pat` occurs in `text` starting at position `i`. */
  predicate OccursAt(text: string, pat: string, i: int) {
    0 <= i && i + |pat| <= |text| && text[i..i + |pat|] == pat
  }

  /** `String.prototype.includes`: `pat` is a substring of `text`. */
  predicate Includes(text: string, pat: string) {
    exists i :: 0 <= i <= |text| - |pat| && OccursAt(text, pat, i)
  }

  /** The class selector `.tok` matches a `className`: `tok` is one of its
      whitespace-separated tokens (unlike `Includes`, a mere substring of a
      longer token does not match). */
  predicate HasClassToken(className: string, tok: string) {
    exists i :: 0 <= i <= |className| - |tok| && OccursAt(className, tok, i)
                && (i == 0 || IsAsciiSpace(className[i - 1]))
                && (i + |tok| == |className| || IsAsciiSpace(className[i + |tok|]))
  }

  /** A whole class token is in particular a substring. */
  lemma ClassTokenIsSubstring(className: string, tok: string)
    requires HasClassToken(className, tok)
    ensures Includes(className, tok)
  {
  }
}
