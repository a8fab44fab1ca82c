/**
 The slice helper `stringsutil.SliceCondenseSpace(elems, dedupe, sort)` of
 the `mogo` library that the resolver calls. Its implementation is not part
 of this model; the definition below realises the contract its call sites
 rely on: every element is trimmed, blank elements are dropped, exact
 duplicates are removed when `dedupe` is set, and the result is sorted
 ascending when `sort` is set.
 */
module StringsUtil {
  import opened Ascii
  import opened StringOrder

  /** The trimmed forms of the non-blank elements of `xs`. */
  function TrimmedNonBlank(xs: seq<string>): set<string> {
    set y | y in xs && TrimSpace(y) != "" :: TrimSpace(y)
  }

  /** Splitting off the first element of `xs`. */
  lemma TrimmedNonBlankCons(xs: seq<string>)
    requires xs != []
    ensures TrimmedNonBlank(xs) ==
      (if TrimSpace(xs[0]) == "" then {} else {TrimSpace(xs[0])}) + TrimmedNonBlank(xs[1..])
  {
    assert xs == [xs[0]] + xs[1..];
    forall y | y in xs ensures y == xs[0] || y in xs[1..] {
    }
  }

  /** Elements that are already trimmed and non-blank are kept as they are. */
  lemma TrimmedNonBlankOfTrimmed(xs: seq<string>)
    requires forall x :: x in xs ==> x != "" && IsTrimmed(x)
    ensures TrimmedNonBlank(xs) == Elems(xs)
  {
    forall x | x in xs ensures TrimSpace(x) == x {
    }
  }

  /** Trims every element and drops those left empty, keeping the order. */
  function Clean(xs: seq<string>): (r: seq<string>)
    ensures |r| <= |xs|
    ensures forall x :: x in r ==> x != "" && IsTrimmed(x)
  {
    if xs == [] then []
    else
      var t := TrimSpace(xs[0]);
      if t == "" then Clean(xs[1..]) else [t] + Clean(xs[1..])
  }

  lemma {:induction false} CleanElems(xs: seq<string>)
    ensures Elems(Clean(xs)) == TrimmedNonBlank(xs)
  {
    if xs != [] {
      var t := TrimSpace(xs[0]);
      var rest := Clean(xs[1..]);
      CleanElems(xs[1..]);
      TrimmedNonBlankCons(xs);
      if t != "" {
        assert Clean(xs) == [t] + rest;
        assert forall x :: x in [t] + rest <==> x == t || x in rest;
      }
    }
  }

  /** Keeps the first occurrence of every element and drops the later ones. */
  function Dedupe(s: seq<string>): (r: seq<string>)
    ensures Elems(r) == Elems(s)
    ensures NoDuplicates(r)
    ensures |r| <= |s|
  {
    if s == [] then []
    else
      var last := s[|s| - 1];
      var d := Dedupe(s[..|s| - 1]);
      assert s == s[..|s| - 1] + [last];
      assert Elems(s) == Elems(s[..|s| - 1]) + {last};
      if last in d then d
      else
        var r := d + [last];
        assert Elems(r) == Elems(d) + {last};
        assert forall x | x in r :: multiset(r)[x] == multiset(d)[x] + multiset{last}[x];
        r
  }

  /** `SliceCondenseSpace(elems, dedupe, sort)`. */
  function SliceCondenseSpace(elems: seq<string>, dedupe: bool, sort: bool): (r: seq<string>)
    ensures Elems(r) == TrimmedNonBlank(elems)
    ensures forall x :: x in r ==> x != "" && IsTrimmed(x)
    ensures dedupe ==> NoDuplicates(r)
    ensures sort ==> Sorted(r)
    ensures |r| <= |elems|
  {
    var cleaned := Clean(elems);
    CleanElems(elems);
    var unique := if dedupe then Dedupe(cleaned) else cleaned;
    var r := if sort then Sort(unique) else unique;
    PermutationKeepsElems(unique, r);
    assert Elems(r) == Elems(cleaned);
    assert forall x :: x in r ==> x in Elems(cleaned);
    r
  }
}
