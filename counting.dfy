/** Character counting: the occurrence count that `std::count` computes over a
    string, the total of a character-to-count table, and the facts about
    character multisets that the anagram verdicts rest on. */
module Counting {

  /** Number of occurrences of `c` in `s`, scanning from the front as
      `std::count(begin, end, c)` does. */
  function Count(s: seq<char>, c: char): (n: nat)
    ensures n <= |s|
  {
    if s == [] then 0
    else (if s[0] == c then 1 else 0) + Count(s[1..], c)
  }

  /** The count is the multiplicity of `c` in the multiset of `s`. */
  lemma {:induction false} CountIsMultiplicity(s: seq<char>, c: char)
    ensures Count(s, c) == multiset(s)[c]
  {
    if s != [] {
      assert s == [s[0]] + s[1..];
      CountIsMultiplicity(s[1..], c);
    }
  }

  /** Some key of a non-empty table. */
  ghost function AnyKey(m: map<char, int>): (k: char)
    requires m != map[]
    ensures k in m
  {
    var k :| k in m; k
  }

  /** Sum of all counts held in a character-to-count table. */
  ghost function Sum(m: map<char, int>): int
    decreases |m|
  {
    if m == map[] then 0
    else
      var k := AnyKey(m);
      assert m.Keys == (m - {k}).Keys + {k};
      m[k] + Sum(m - {k})
  }

  /** The total does not depend on which key is taken out first. */
  lemma {:induction false} SumRemove(m: map<char, int>, k: char)
    requires k in m
    ensures Sum(m) == m[k] + Sum(m - {k})
    decreases |m|
  {
    var j := AnyKey(m);
    if j != k {
      assert m.Keys == (m - {j}).Keys + {j};
      assert m.Keys == (m - {k}).Keys + {k};
      SumRemove(m - {j}, k);
      SumRemove(m - {k}, j);
      assert (m - {j}) - {k} == (m - {k}) - {j};
    }
  }

  /** Raising one entry of the table by one raises the total by one; a new key
      enters with count one. */
  lemma SumIncrement(m: map<char, int>, k: char)
    ensures Sum(m[k := (if k in m then m[k] else 0) + 1]) == Sum(m) + 1
  {
    var m' := m[k := (if k in m then m[k] else 0) + 1];
    SumRemove(m', k);
    assert m' - {k} == m - {k};
    if k in m {
      SumRemove(m, k);
    } else {
      assert m - {k} == m;
    }
  }

  /** A sub-multiset is no larger than the multiset that contains it. */
  lemma SubMultisetCard<T>(a: multiset<T>, b: multiset<T>)
    requires a <= b
    ensures |a| <= |b|
    ensures |a| == |b| ==> a == b
  {
    assert b == a + (b - a);
    if |a| == |b| {
      assert |b - a| == 0;
    }
  }

  /** Pigeonhole: two strings of equal length whose counts agree on every
      character of `x` have the same characters, with none left over. */
  lemma {:induction false} EqualCountsOnX(x: seq<char>, t: seq<char>)
    requires |t| == |x|
    requires forall c :: c in x ==> Count(t, c) == Count(x, c)
    ensures multiset(t) == multiset(x)
  {
    forall c ensures multiset(x)[c] <= multiset(t)[c] {
      if c in x {
        CountIsMultiplicity(t, c);
        CountIsMultiplicity(x, c);
      } else {
        assert multiset(x)[c] == 0;
      }
    }
    assert multiset(x) <= multiset(t);
    SubMultisetCard(multiset(x), multiset(t));
  }
}
