/**
 The two pieces of Go's `strings` package that field-name canonicalisation
 relies on, `strings.TrimSpace` and `strings.ToLower`, restricted to ASCII.
 */
module Ascii {

  /** The ASCII characters Go's `unicode.IsSpace` accepts:
      tab, line feed, vertical tab, form feed, carriage return and space. */
  predicate IsSpace(c: char) {
    c == ' ' || c == '\t' || c == '\n' || c == '\r' || c == '\U{0B}' || c == '\U{0C}'
  }

  predicate AllSpace(s: string) {
    forall i :: 0 <= i < |s| ==> IsSpace(s[i])
  }

  /** A string with no white space at either end. */
  predicate IsTrimmed(s: string) {
    s == [] || (!IsSpace(s[0]) && !IsSpace(s[|s| - 1]))
  }

  /** `strings.TrimSpace`: `s` without its leading and trailing white space. */
  function TrimSpace(s: string): (r: string)
    ensures IsTrimmed(r)
    ensures |r| <= |s|
  {
    if s != [] && IsSpace(s[0]) then TrimSpace(s[1..])
    else if s != [] && IsSpace(s[|s| - 1]) then TrimSpace(s[..|s| - 1])
    else s
  }

  /** `TrimSpace` removes exactly the outer white space: padding a trimmed
      string with white space on either side trims back to it. */
  lemma {:induction false} TrimSpaceOfPadded(pre: string, m: string, post: string)
    requires AllSpace(pre) && AllSpace(post) && IsTrimmed(m)
    ensures TrimSpace(pre + m + post) == m
  {
    var s := pre + m + post;
    if pre != [] {
      assert s[0] == pre[0];
      assert s[1..] == pre[1..] + m + post;
      TrimSpaceOfPadded(pre[1..], m, post);
    } else if m == [] && post != [] {
      assert s == post;
      assert s[1..] == [] + [] + post[1..];
      TrimSpaceOfPadded([], [], post[1..]);
    } else if post != [] {
      assert s == m + post;
      assert s[|s| - 1] == post[|post| - 1];
      assert s[..|s| - 1] == [] + m + post[..|post| - 1];
      TrimSpaceOfPadded([], m, post[..|post| - 1]);
    } else {
      assert s == m;
    }
  }

  /** Trimming twice is trimming once. */
  lemma TrimSpaceIdempotent(s: string)
    ensures TrimSpace(TrimSpace(s)) == TrimSpace(s)
  {
  }

  /** A string trims to nothing exactly when it is white space from end to end. */
  lemma {:induction false} TrimSpaceEmptyIffAllSpace(s: string)
    ensures TrimSpace(s) == [] <==> AllSpace(s)
  {
    if s != [] && IsSpace(s[0]) {
      TrimSpaceEmptyIffAllSpace(s[1..]);
      assert AllSpace(s) <==> AllSpace(s[1..]);
    } else if s != [] && IsSpace(s[|s| - 1]) {
      TrimSpaceEmptyIffAllSpace(s[..|s| - 1]);
    }
  }

  /** The ASCII capital letters, and their small partners in the same order. */
  const Upper := "ABCDEFGHIJKLMNOPQRSTUVWXYZ"
  const Lower := "abcdefghijklmnopqrstuvwxyz"

  /** Both alphabets are runs of consecutive code points, so the capitals
      are exactly the characters from `A` to `Z`. */
  lemma Alphabets()
    ensures |Upper| == |Lower| == 26
    ensures forall i :: 0 <= i < 26 ==> Upper[i] as int == 'A' as int + i
    ensures forall i :: 0 <= i < 26 ==> Lower[i] as int == 'a' as int + i
    ensures forall c: char :: c in Upper <==> 'A' <= c <= 'Z'
  {
    forall c: char | 'A' <= c <= 'Z' ensures c in Upper {
      var i := c as int - 'A' as int;
      assert Upper[i] == c;
    }
  }

  /** `unicode.ToLower` on ASCII: a capital letter becomes its small partner
      at the same place in the alphabet; every other character is kept. */
  function LowerChar(c: char): (d: char)
    ensures forall i :: 0 <= i < |Upper| && c == Upper[i] ==> d == Lower[i]
    ensures c !in Upper ==> d == c
    ensures d !in Upper
  {
    Alphabets();
    if 'A' <= c <= 'Z' then (c as int + 32) as char else c
  }

  /** No capital letter anywhere in `s`. */
  predicate HasNoUpper(s: string) {
    forall i :: 0 <= i < |s| ==> s[i] !in Upper
  }

  /** `strings.ToLower` on ASCII: each upper-case letter becomes its
      lower-case partner, every other character is kept. */
  function ToLower(s: string): (r: string)
    ensures |r| == |s|
    ensures forall i :: 0 <= i < |s| ==> r[i] == LowerChar(s[i])
    ensures HasNoUpper(r)
  {
    if s == [] then [] else [LowerChar(s[0])] + ToLower(s[1..])
  }

  /** Lower-casing leaves a string without upper-case letters unchanged,
      so lower-casing twice is lower-casing once. */
  lemma ToLowerFixedPoint(s: string)
    requires HasNoUpper(s)
    ensures ToLower(s) == s
  {
  }

  /** Lower-casing never changes whether a character is white space, so it
      keeps a trimmed string trimmed. */
  lemma ToLowerKeepsTrimmed(s: string)
    requires IsTrimmed(s)
    ensures IsTrimmed(ToLower(s))
  {
  }
}
