/**
 Go's ordering of strings (`a < b`, used by `sort.Strings`): lexicographic on
 characters, a proper prefix coming first. For the characters of a Go string
 this is the byte order of their UTF-8 encodings, which UTF-8 makes agree
 with the order of code points compared here.
 */
module StringOrder {

  /** The distinct elements of a sequence. */
  function Elems(s: seq<string>): set<string> {
    set x | x in s
  }

  /** `a < b` on Go strings: a proper prefix comes first, and a string never
      comes before one of its own prefixes. */
  predicate Below(a: string, b: string): (r: bool)
    ensures a < b ==> r
    ensures b <= a ==> !r
  {
    if a == [] then b != []
    else if b == [] then false
    else a[0] < b[0] || (a[0] == b[0] && Below(a[1..], b[1..]))
  }

  lemma {:induction false} BelowIrreflexive(a: string)
    ensures !Below(a, a)
  {
    if a != [] {
      BelowIrreflexive(a[1..]);
    }
  }

  lemma {:induction false} BelowAsymmetric(a: string, b: string)
    requires Below(a, b)
    ensures !Below(b, a)
  {
    if a != [] && b != [] && a[0] == b[0] {
      BelowAsymmetric(a[1..], b[1..]);
    }
  }

  lemma {:induction false} BelowTransitive(a: string, b: string, c: string)
    requires Below(a, b) && Below(b, c)
    ensures Below(a, c)
  {
    if a != [] && a[0] == b[0] && b[0] == c[0] {
      BelowTransitive(a[1..], b[1..], c[1..]);
    }
  }

  /** Any two different strings are ordered one way or the other. */
  lemma {:induction false} BelowTotal(a: string, b: string)
    requires a != b
    ensures Below(a, b) || Below(b, a)
  {
    if a != [] && b != [] && a[0] == b[0] {
      assert a == [a[0]] + a[1..] && b == [b[0]] + b[1..];
      BelowTotal(a[1..], b[1..]);
    }
  }

  /** `a <= b` on Go strings is transitive. */
  lemma AtMostTransitive(a: string, b: string, c: string)
    requires !Below(b, a) && !Below(c, b)
    ensures !Below(c, a)
  {
    if a != b && b != c {
      BelowTotal(a, b);
      BelowTotal(b, c);
      BelowTransitive(a, b, c);
      BelowAsymmetric(a, c);
    }
  }

  /** Ascending, as `sort.Strings` leaves a slice. */
  predicate Sorted(s: seq<string>) {
    forall i, j :: 0 <= i < j < |s| ==> !Below(s[j], s[i])
  }

  /** Ascending without repetitions. */
  predicate StrictlySorted(s: seq<string>) {
    forall i, j :: 0 <= i < j < |s| ==> Below(s[i], s[j])
  }

  /** No element occurs twice. */
  predicate NoDuplicates(s: seq<string>) {
    forall x | x in s :: multiset(s)[x] == 1
  }

  /** Two equal elements at different positions count twice. */
  lemma RepeatedCountsTwice(s: seq<string>, i: nat, j: nat)
    requires i < j < |s| && s[i] == s[j]
    ensures multiset(s)[s[i]] >= 2
  {
    assert s == s[..j] + s[j..];
    assert s[i] in s[..j] && s[j] in s[j..];
  }

  /** A sorted sequence without duplicates is strictly ascending. */
  lemma SortedDistinctIsStrict(s: seq<string>)
    requires Sorted(s) && NoDuplicates(s)
    ensures StrictlySorted(s)
  {
    forall i, j | 0 <= i < j < |s|
      ensures Below(s[i], s[j])
    {
      if s[i] == s[j] {
        RepeatedCountsTwice(s, i, j);
      }
      BelowTotal(s[i], s[j]);
    }
  }

  lemma ElemsEmpty(s: seq<string>)
    ensures Elems(s) == {} <==> s == []
  {
    if s != [] {
      assert s[0] in Elems(s);
    }
  }

  /** The elements after appending one more. */
  lemma ElemsAppend(s: seq<string>, x: string)
    ensures Elems(s + [x]) == Elems(s) + {x}
  {
    assert forall y :: y in s + [x] <==> y in s || y == x;
  }

  /** The elements of a prefix one longer. */
  lemma ElemsPrefixStep(s: seq<string>, i: nat)
    requires i < |s|
    ensures Elems(s[..i + 1]) == Elems(s[..i]) + {s[i]}
  {
    assert s[..i + 1] == s[..i] + [s[i]];
    ElemsAppend(s[..i], s[i]);
  }

  lemma ElemsWhole(s: seq<string>)
    ensures Elems(s[..|s|]) == Elems(s)
  {
    assert s[..|s|] == s;
  }

  /** A strictly ascending sequence is determined by its set of elements:
      there is only one way to list a set of strings in strictly ascending order. */
  lemma {:induction false} StrictlySortedUnique(a: seq<string>, b: seq<string>)
    requires StrictlySorted(a) && StrictlySorted(b)
    requires Elems(a) == Elems(b)
    ensures a == b
  {
    ElemsEmpty(a);
    ElemsEmpty(b);
    if a != [] && b != [] {
      assert a[0] in Elems(b) && b[0] in Elems(a);
      if a[0] != b[0] {
        BelowTotal(a[0], b[0]);
        var i :| 0 <= i < |b| && b[i] == a[0];
        var j :| 0 <= j < |a| && a[j] == b[0];
        assert i > 0 && j > 0;
        BelowAsymmetric(b[0], b[i]);
        assert false;
      }
      forall x | x in Elems(a[1..]) ensures x in Elems(b[1..]) {
        var j :| 1 <= j < |a| && a[j] == x;
        assert x in Elems(b);
        if x == b[0] {
          BelowIrreflexive(a[0]);
          assert false;
        }
      }
      forall x | x in Elems(b[1..]) ensures x in Elems(a[1..]) {
        var j :| 1 <= j < |b| && b[j] == x;
        assert x in Elems(a);
        if x == a[0] {
          BelowIrreflexive(b[0]);
          assert false;
        }
      }
      StrictlySortedUnique(a[1..], b[1..]);
      assert a == [a[0]] + a[1..] && b == [b[0]] + b[1..];
    }
  }

  /** Reordering keeps the elements and the length. */
  lemma PermutationKeepsElems(a: seq<string>, b: seq<string>)
    requires multiset(a) == multiset(b)
    ensures Elems(a) == Elems(b) && |a| == |b|
  {
    assert |a| == |multiset(a)| == |multiset(b)| == |b|;
    assert forall x :: x in a <==> x in multiset(a);
    assert forall x :: x in b <==> x in multiset(b);
  }

  /** Appending a new element keeps a sequence free of duplicates. */
  lemma AppendFresh(s: seq<string>, x: string)
    requires NoDuplicates(s) && x !in s
    ensures NoDuplicates(s + [x])
    ensures Elems(s + [x]) == Elems(s) + {x}
  {
    assert forall y | y in s + [x] :: multiset(s + [x])[y] == multiset(s)[y] + multiset{x}[y];
  }

  /** `x` may go in front of a sorted sequence whose first element is not below it. */
  lemma SortedCons(x: string, s: seq<string>)
    requires Sorted(s) && (s == [] || !Below(s[0], x))
    ensures Sorted([x] + s)
  {
    var r := [x] + s;
    forall i, j | 0 <= i < j < |r| ensures !Below(r[j], r[i]) {
      if i == 0 {
        if j == 1 {
          BelowIrreflexive(s[0]);
        } else {
          assert r[j] == s[j - 1] && !Below(s[j - 1], s[0]);
        }
        AtMostTransitive(x, s[0], r[j]);
      }
    }
  }

  /** The head of a sorted sequence stays in front once a larger `x` is
      placed somewhere in its tail. */
  lemma SortedConsHead(x: string, s: seq<string>, t: seq<string>)
    requires Sorted(s) && s != [] && Below(s[0], x)
    requires Sorted(t) && multiset(t) == multiset(s[1..]) + multiset{x}
    ensures Sorted([s[0]] + t)
  {
    var r := [s[0]] + t;
    forall j | 0 < j < |r| ensures !Below(r[j], s[0]) {
      assert r[j] in multiset(t);
      if r[j] == x {
        BelowAsymmetric(s[0], x);
      } else {
        assert r[j] in s[1..];
      }
    }
  }

  /** Places `x` in front of the first element of the sorted `s` that is not below it. */
  function Insert(x: string, s: seq<string>): (r: seq<string>)
    requires Sorted(s)
    ensures Sorted(r)
    ensures multiset(r) == multiset(s) + multiset{x}
  {
    if s == [] || !Below(s[0], x) then
      SortedCons(x, s);
      [x] + s
    else
      var t := Insert(x, s[1..]);
      assert s == [s[0]] + s[1..];
      SortedConsHead(x, s, t);
      [s[0]] + t
  }

  /** `sort.Strings`: the same strings, in ascending order. */
  function Sort(s: seq<string>): (r: seq<string>)
    ensures Sorted(r)
    ensures multiset(r) == multiset(s)
  {
    if s == [] then [] else
      assert s == [s[0]] + s[1..];
      Insert(s[0], Sort(s[1..]))
  }

  /** Sorting a sequence without duplicates lists its elements in strictly
      ascending order. */
  lemma SortDistinct(s: seq<string>)
    requires NoDuplicates(s)
    ensures StrictlySorted(Sort(s))
    ensures Elems(Sort(s)) == Elems(s) && |Sort(s)| == |s|
  {
    var r := Sort(s);
    PermutationKeepsElems(s, r);
    assert NoDuplicates(r) by {
      forall x | x in r ensures multiset(r)[x] == 1 {
        assert x in multiset(s);
      }
    }
    SortedDistinctIsStrict(r);
  }
}
