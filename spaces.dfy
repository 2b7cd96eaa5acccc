/** The space-stripping helper of `src/anagrams.h`: `remove_spaces` deletes
    every space from a string in place, the way `erase(remove(...))` does,
    by sliding each kept character forward over the spaces before it and then
    cutting the string at the write position. */
module Spaces {

  /** The character the header names `SINGLE_SPACE`. */
  const SingleSpace: char := ' '

  /** `s` with every space taken out, the other characters kept in order. */
  function WithoutSpaces(s: seq<char>): (r: seq<char>)
    ensures |r| <= |s|
  {
    if s == [] then []
    else
      var n := |s| - 1;
      WithoutSpaces(s[..n]) + (if s[n] == SingleSpace then [] else [s[n]])
  }

  /** Compacts the characters of `a` that are not spaces to its front and
      returns the new length `n`: `a[..n]` is the string after the erase.
      What is left in `a[n..]` is the part the erase cuts off. */
  method RemoveSpaces(a: array<char>) returns (n: nat)
    modifies a
    ensures n <= a.Length
    ensures a[..n] == WithoutSpaces(old(a[..]))
  {
    ghost var s := a[..];
    n := 0;
    for i := 0 to a.Length
      invariant n <= i
      invariant a[..n] == WithoutSpaces(s[..i])
      invariant a[i..] == s[i..]
    {
      assert s[..i + 1][..i] == s[..i];
      assert a[i] == s[i];
      if a[i] != SingleSpace {
        a[n] := a[i];
        n := n + 1;
      }
      assert a[i + 1..] == s[i + 1..];
    }
    assert s[..a.Length] == s;
  }

  /** No space is left after the removal. */
  lemma {:induction false} NoSpaceLeft(s: seq<char>)
    ensures SingleSpace !in WithoutSpaces(s)
  {
    if s != [] {
      NoSpaceLeft(s[..|s| - 1]);
    }
  }

  /** Removal commutes with concatenation: the kept characters of `a + b` are
      those of `a` followed by those of `b`, so the relative order of every
      kept character is preserved. */
  lemma {:induction false} WithoutSpacesAppend(a: seq<char>, b: seq<char>)
    ensures WithoutSpaces(a + b) == WithoutSpaces(a) + WithoutSpaces(b)
    decreases |b|
  {
    if b == [] {
      assert a + b == a;
    } else {
      var n := |b| - 1;
      assert (a + b)[..|a + b| - 1] == a + b[..n];
      WithoutSpacesAppend(a, b[..n]);
    }
  }

  /** Every character other than a space keeps its number of occurrences,
      and the new length is the old one less the number of spaces. */
  lemma {:induction false} WithoutSpacesCounts(s: seq<char>)
    ensures forall c :: c != SingleSpace ==> multiset(WithoutSpaces(s))[c] == multiset(s)[c]
    ensures |WithoutSpaces(s)| == |s| - multiset(s)[SingleSpace]
  {
    if s != [] {
      var n := |s| - 1;
      assert s == s[..n] + [s[n]];
      WithoutSpacesCounts(s[..n]);
    }
  }

  /** A string without spaces is left as it is; in particular the empty
      string stays empty. */
  lemma {:induction false} NoSpacesUnchanged(s: seq<char>)
    requires SingleSpace !in s
    ensures WithoutSpaces(s) == s
  {
    if s != [] {
      var n := |s| - 1;
      assert s == s[..n] + [s[n]];
      NoSpacesUnchanged(s[..n]);
    }
  }

  /** Removing spaces twice gives the same string as removing them once. */
  lemma RemoveSpacesIdempotent(s: seq<char>)
    ensures WithoutSpaces(WithoutSpaces(s)) == WithoutSpaces(s)
  {
    NoSpaceLeft(s);
    NoSpacesUnchanged(WithoutSpaces(s));
  }
}
