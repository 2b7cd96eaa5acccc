/** What the verdicts of the anagram matcher mean, stated over the
    specification in `Anagrams` and proved once for all inputs. */
module AnagramProperties {
  import opened Counting
  import opened Anagrams

  /** A term equal to the query matches in both modes: the identity fast path
      never changes a verdict. */
  lemma IdentityMatches(x: String)
    ensures Verdict(x, x, true) && Verdict(x, x, false)
  {
  }

  /** The empty query: every term is an any-length anagram of it, and only the
      empty term is a same-length anagram of it. */
  lemma EmptyQuery(t: String)
    ensures Verdict([], t, true)
    ensures Verdict([], t, false) <==> t == []
  {
  }

  /** Same-length matching is symmetric, and a same-length anagram is also an
      any-length one. */
  lemma SameLengthSymmetric(x: String, t: String)
    ensures Verdict(x, t, false) <==> Verdict(t, x, false)
    ensures Verdict(x, t, false) ==> Verdict(x, t, true)
  {
  }

  /** Any-length matching survives inserting one more character anywhere in
      the term. */
  lemma AnyLengthInsert(x: String, t: String, k: nat, c: char)
    requires k <= |t|
    requires Verdict(x, t, true)
    ensures Verdict(x, t[..k] + [c] + t[k..], true)
  {
    assert t == t[..k] + t[k..];
    assert multiset(t[..k] + [c] + t[k..]) == multiset(t) + multiset{c};
  }

  /** Any-length matching ignores characters that the query lacks: appending
      one to the term does not change the verdict. */
  lemma AnyLengthIgnoresOthers(x: String, t: String, c: char)
    requires c !in x
    ensures Verdict(x, t, true) <==> Verdict(x, t + [c], true)
  {
  }

  /** The `value == TRUE` output holds exactly the terms at the positions of
      the `true` verdicts, in increasing position order, and every one of
      them is an anagram of the query. */
  lemma {:induction false} MatchesAreTheAnagrams(x: String, terms: seq<String>, anyLen: bool)
    ensures var v := Verdicts(x, terms, anyLen);
            var p := TruePositions(v);
            && |Select(terms, v)| == |p|
            && (forall k :: 0 <= k < |p| ==>
                  p[k] < |terms| && Select(terms, v)[k] == terms[p[k]] && Verdict(x, terms[p[k]], anyLen))
            && (forall i :: 0 <= i < |terms| && Verdict(x, terms[i], anyLen) ==> i in p)
            && (forall k, l :: 0 <= k < l < |p| ==> p[k] < p[l])
  {
    var v := Verdicts(x, terms, anyLen);
    SelectAtPositions(terms, v);
  }

  /** Same-length example scenario: "silent" is an anagram of "listen". */
  lemma ListenSilent()
    ensures Verdict("listen", "silent", false)
  {
  }

  /** Same scenario: "enlist" is an anagram of "listen". */
  lemma ListenEnlist()
    ensures Verdict("listen", "enlist", false)
  {
  }

  /** Same scenario: "list" is too short. */
  lemma ListenNotList()
    ensures !Verdict("listen", "list", false)
  {
  }

  /** Same scenario: "google" lacks an 'i'. */
  lemma ListenNotGoogle()
    ensures !Verdict("listen", "google", false)
  {
  }

  /** Same scenario: projecting the verdicts [true, true, false, false] keeps
      "silent" and "enlist". */
  lemma ListenMatches()
    ensures Select(["silent", "enlist", "list", "google"], [true, true, false, false])
         == ["silent", "enlist"]
  {
    var t: seq<String> := ["silent", "enlist", "list", "google"];
    var m := [true, true, false, false];
    assert t[..3][..2] == t[..2] && m[..3][..2] == m[..2];
    assert t[..2][..1] == t[..1] && m[..2][..1] == m[..1];
    assert t[..1][..0] == [] && m[..1][..0] == [];
    assert Select(t[..1], m[..1]) == ["silent"];
    assert Select(t[..2], m[..2]) == ["silent", "enlist"];
    assert Select(t[..3], m[..3]) == ["silent", "enlist"];
  }

  /** "scatter" and "tacos" hold every letter of "cat" at least as often. */
  lemma CatLetterCounts()
    ensures forall c :: c in "cat" ==> Count("scatter", c) >= Count("cat", c)
    ensures forall c :: c in "cat" ==> Count("tacos", c) >= Count("cat", c)
  {
    forall c | c in "cat"
      ensures Count("scatter", c) >= Count("cat", c)
      ensures Count("tacos", c) >= Count("cat", c)
    {
      assert c == 'c' || c == 'a' || c == 't';
    }
  }

  /** Any-length example scenario: "scatter" contains "cat". */
  lemma CatInScatter()
    ensures Verdict("cat", "scatter", true)
  {
    CatLetterCounts();
    AnyLengthByCounts("cat", "scatter");
  }

  /** Same scenario: "tacos" contains "cat". */
  lemma CatInTacos()
    ensures Verdict("cat", "tacos", true)
  {
    CatLetterCounts();
    AnyLengthByCounts("cat", "tacos");
  }

  /** Same scenario: "dog" has no 'c'. */
  lemma CatNotInDog()
    ensures !Verdict("cat", "dog", true)
  {
  }
}
