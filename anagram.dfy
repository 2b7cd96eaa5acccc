/** The anagram matcher of `src/cpp_is_anagram.cpp`: `get_anagrams` gives one
    verdict per candidate term, and `cpp_is_anagram` hands back either those
    verdicts or the matching terms themselves.

    A same-length anagram of `x` uses exactly the characters of `x` (a
    permutation of it); an any-length anagram contains every character of `x`
    at least as often as `x` does, and may hold other characters besides. */
module Anagrams {
  import opened Counting

  type String = seq<char>

  /** `t` is a rearrangement of all and only the characters of `x`. */
  ghost predicate IsSameLengthAnagram(x: String, t: String) {
    multiset(t) == multiset(x)
  }

  /** Every character of `x` can be taken from `t`, each occurrence once. */
  ghost predicate IsAnyLengthAnagram(x: String, t: String) {
    multiset(x) <= multiset(t)
  }

  /** The verdict the matcher owes for term `t` in the selected mode. */
  ghost predicate Verdict(x: String, t: String, anyLen: bool) {
    if anyLen then IsAnyLengthAnagram(x, t) else IsSameLengthAnagram(x, t)
  }

  /** The verdict vector owed for a whole list of terms, position by position. */
  ghost function Verdicts(x: String, terms: seq<String>, anyLen: bool): seq<bool> {
    seq(|terms|, i requires 0 <= i < |terms| => Verdict(x, terms[i], anyLen))
  }

  // ---------------------------------------------------------------------------
  // The frequency table of the query

  /** `counts` is the frequency table of `s`: it holds exactly the characters
      of `s`, each with its number of occurrences. */
  ghost predicate IsCountTable(counts: map<char, int>, s: String) {
    && (forall c :: c in counts <==> c in s)
    && (forall c :: c in counts ==> counts[c] == Count(s, c))
  }

  /** Incrementing the entry of `c` turns the table of `s` into that of
      `s + [c]`. */
  lemma CountTableStep(counts: map<char, int>, s: String, c: char)
    requires IsCountTable(counts, s)
    ensures IsCountTable(counts[c := (if c in counts then counts[c] else 0) + 1], s + [c])
  {
    forall d ensures Count(s + [c], d) == Count(s, d) + (if d == c then 1 else 0)
               ensures d !in s ==> Count(s, d) == 0 {
      CountIsMultiplicity(s + [c], d);
      CountIsMultiplicity(s, d);
    }
  }

  /** Builds the frequency table of `x` by one pass over `x`, incrementing the
      entry of each character met; the counts add up to the length of `x`. */
  method CountChars(x: String) returns (counts: map<char, int>)
    ensures IsCountTable(counts, x)
    ensures Sum(counts) == |x|
  {
    counts := map[];
    for i := 0 to |x|
      invariant IsCountTable(counts, x[..i])
      invariant Sum(counts) == i
    {
      assert x[..i + 1] == x[..i] + [x[i]];
      CountTableStep(counts, x[..i], x[i]);
      SumIncrement(counts, x[i]);
      counts := counts[x[i] := (if x[i] in counts then counts[x[i]] else 0) + 1];
    }
    assert x[..|x|] == x;
  }

  // ---------------------------------------------------------------------------
  // Per-term count comparison

  /** The count loop over the characters of `x`: in any-length mode a
      character of `x` that occurs fewer times in `term` than in `x` fails the
      term, in same-length mode one whose counts differ does; the first
      failure stops the scan. */
  method CompareCounts(x: String, counts: map<char, int>, term: String, anyLen: bool)
    returns (anagram: bool)
    requires IsCountTable(counts, x)
    ensures anyLen ==> (anagram <==> forall c :: c in x ==> Count(term, c) >= Count(x, c))
    ensures !anyLen ==> (anagram <==> forall c :: c in x ==> Count(term, c) == Count(x, c))
  {
    anagram := true;
    var j := 0;
    if anyLen {
      while j < |x|
        invariant 0 <= j <= |x|
        invariant forall k :: 0 <= k < j ==> Count(term, x[k]) >= Count(x, x[k])
      {
        if Count(term, x[j]) < counts[x[j]] {
          anagram := false;
          break;
        }
        j := j + 1;
      }
      if anagram {
        forall c | c in x ensures Count(term, c) >= Count(x, c) {
          var k :| 0 <= k < |x| && x[k] == c;
        }
      } else {
        assert x[j] in x;
      }
    } else {
      while j < |x|
        invariant 0 <= j <= |x|
        invariant forall k :: 0 <= k < j ==> Count(term, x[k]) == Count(x, x[k])
      {
        if Count(term, x[j]) != counts[x[j]] {
          anagram := false;
          break;
        }
        j := j + 1;
      }
      if anagram {
        forall c | c in x ensures Count(term, c) == Count(x, c) {
          var k :| 0 <= k < |x| && x[k] == c;
        }
      } else {
        assert x[j] in x;
      }
    }
  }

  /** Same-length mode as the code decides it: equal lengths and equal counts
      on the characters of `x` hold exactly when `t` is a permutation of `x`. */
  lemma SameLengthByCounts(x: String, t: String)
    ensures IsSameLengthAnagram(x, t)
        <==> |t| == |x| && forall c :: c in x ==> Count(t, c) == Count(x, c)
  {
    if |t| == |x| && forall c :: c in x ==> Count(t, c) == Count(x, c) {
      EqualCountsOnX(x, t);
    }
    if IsSameLengthAnagram(x, t) {
      assert |multiset(t)| == |multiset(x)|;
      forall c ensures Count(t, c) == Count(x, c) {
        CountIsMultiplicity(t, c);
        CountIsMultiplicity(x, c);
      }
    }
  }

  /** Any-length mode as the code decides it: enough copies of every character
      of `x` hold exactly when the multiset of `x` is inside that of `t`. */
  lemma AnyLengthByCounts(x: String, t: String)
    ensures IsAnyLengthAnagram(x, t) <==> forall c :: c in x ==> Count(t, c) >= Count(x, c)
  {
    forall c ensures Count(t, c) == multiset(t)[c] && Count(x, c) == multiset(x)[c] {
      CountIsMultiplicity(t, c);
      CountIsMultiplicity(x, c);
    }
    if forall c :: c in x ==> Count(t, c) >= Count(x, c) {
      forall c ensures multiset(x)[c] <= multiset(t)[c] {
        if c in x {
          assert Count(t, c) >= Count(x, c);
        } else {
          assert multiset(x)[c] == 0;
        }
      }
    }
  }

  /** The length pre-filter rejects only terms that cannot match. */
  lemma LengthPrefilter(x: String, t: String)
    ensures |t| < |x| ==> !Verdict(x, t, true)
    ensures |t| != |x| ==> !Verdict(x, t, false)
  {
    if multiset(x) <= multiset(t) {
      SubMultisetCard(multiset(x), multiset(t));
    }
    if multiset(t) == multiset(x) {
      assert |multiset(t)| == |multiset(x)|;
    }
  }

  // ---------------------------------------------------------------------------
  // get_anagrams

  /** One verdict per term, in the order of `terms`. The frequency table of
      `x` is built once; each term then passes the length pre-filter, the
      identity fast path or the count comparison. */
  method GetAnagrams(x: String, terms: seq<String>, anyLen: bool) returns (verdicts: seq<bool>)
    ensures |verdicts| == |terms|
    ensures forall i :: 0 <= i < |terms| ==> verdicts[i] == Verdict(x, terms[i], anyLen)
  {
    var counts := CountChars(x);
    var out := new bool[|terms|];
    var i := 0;
    while i < |terms|
      invariant 0 <= i <= |terms|
      invariant forall k :: 0 <= k < i ==> out[k] == Verdict(x, terms[k], anyLen)
    {
      var term := terms[i];
      LengthPrefilter(x, term);
      if anyLen {
        if |term| < |x| {
          out[i] := false;
          i := i + 1;
          continue;
        }
      } else {
        if |term| != |x| {
          out[i] := false;
          i := i + 1;
          continue;
        }
      }
      if term == x {
        out[i] := true;
        i := i + 1;
        continue;
      }
      var anagram := CompareCounts(x, counts, term, anyLen);
      SameLengthByCounts(x, term);
      AnyLengthByCounts(x, term);
      out[i] := anagram;
      i := i + 1;
    }
    verdicts := out[..];
  }

  // ---------------------------------------------------------------------------
  // cpp_is_anagram: the result projection

  /** Number of `true` entries of a logical vector (R's `sum`). */
  function CountTrue(mask: seq<bool>): (n: nat)
    ensures n <= |mask|
  {
    if mask == [] then 0
    else CountTrue(mask[..|mask| - 1]) + (if mask[|mask| - 1] then 1 else 0)
  }

  /** The terms whose mask entry is `true`, in their original order. */
  function Select(terms: seq<String>, mask: seq<bool>): (r: seq<String>)
    requires |terms| == |mask|
    ensures |r| == CountTrue(mask)
  {
    if mask == [] then []
    else
      var n := |mask| - 1;
      Select(terms[..n], mask[..n]) + (if mask[n] then [terms[n]] else [])
  }

  /** The positions of the `true` entries of `mask`, in increasing order. */
  function TruePositions(mask: seq<bool>): (p: seq<nat>)
    ensures |p| == CountTrue(mask)
    ensures forall k :: 0 <= k < |p| ==> p[k] < |mask| && mask[p[k]]
    ensures forall i :: 0 <= i < |mask| && mask[i] ==> i in p
    ensures forall k, l :: 0 <= k < l < |p| ==> p[k] < p[l]
  {
    if mask == [] then []
    else
      var n := |mask| - 1;
      TruePositions(mask[..n]) + (if mask[n] then [n] else [])
  }

  /** `Select` keeps exactly the terms at the `true` positions, in order. */
  lemma {:induction false} SelectAtPositions(terms: seq<String>, mask: seq<bool>)
    requires |terms| == |mask|
    ensures |Select(terms, mask)| == |TruePositions(mask)|
    ensures forall k :: 0 <= k < |TruePositions(mask)| ==>
              Select(terms, mask)[k] == terms[TruePositions(mask)[k]]
  {
    if mask != [] {
      var n := |mask| - 1;
      SelectAtPositions(terms[..n], mask[..n]);
    }
  }

  /** Taking one more entry of the mask adds one to the count exactly when
      that entry is `true`. */
  lemma CountTrueStep(mask: seq<bool>, i: nat)
    requires i < |mask|
    ensures CountTrue(mask[..i + 1]) == CountTrue(mask[..i]) + (if mask[i] then 1 else 0)
  {
    assert mask[..i + 1][..i] == mask[..i];
  }

  /** Taking one more entry adds that term exactly when its mask entry is
      `true`. */
  lemma SelectStep(terms: seq<String>, mask: seq<bool>, i: nat)
    requires |terms| == |mask| && i < |mask|
    ensures Select(terms[..i + 1], mask[..i + 1])
         == Select(terms[..i], mask[..i]) + (if mask[i] then [terms[i]] else [])
  {
    assert terms[..i + 1][..i] == terms[..i];
    assert mask[..i + 1][..i] == mask[..i];
  }

  /** A prefix of a mask holds no more `true` entries than the whole mask. */
  lemma {:induction false} CountTruePrefix(mask: seq<bool>, i: nat)
    requires i <= |mask|
    ensures CountTrue(mask[..i]) <= CountTrue(mask)
    decreases |mask| - i
  {
    if i < |mask| {
      CountTrueStep(mask, i);
      CountTruePrefix(mask, i + 1);
    } else {
      assert mask[..i] == mask;
    }
  }

  /** What `cpp_is_anagram` hands back to R: a logical or a character vector. */
  datatype RVector = LogicalVector(flags: seq<bool>) | CharacterVector(strings: seq<String>)

  /** The `value == TRUE` branch of `cpp_is_anagram`: a vector sized to the
      number of `true` verdicts, filled by walking the verdicts with one
      index into them and one into the output. */
  method SelectMatches(terms: seq<String>, ana: seq<bool>) returns (matches: seq<String>)
    requires |terms| == |ana|
    ensures |matches| == CountTrue(ana)
    ensures matches == Select(terms, ana)
  {
    var out := new String[CountTrue(ana)];
    var outI, anaI := 0, 0;
    while anaI < |ana|
      invariant 0 <= anaI <= |ana|
      invariant outI == CountTrue(ana[..anaI]) <= out.Length
      invariant out[..outI] == Select(terms[..anaI], ana[..anaI])
    {
      CountTrueStep(ana, anaI);
      CountTruePrefix(ana, anaI + 1);
      SelectStep(terms, ana, anaI);
      if ana[anaI] {
        out[outI] := terms[anaI];
        outI := outI + 1;
      }
      anaI := anaI + 1;
    }
    assert ana[..anaI] == ana && terms[..anaI] == terms;
    matches := out[..];
  }

  /** With `value` false, the verdict vector itself; with `value` true, the
      terms whose verdict is `true`, in their original order. */
  method CppIsAnagram(x: String, terms: seq<String>, value: bool, anyLen: bool)
    returns (r: RVector)
    ensures !value ==> r == LogicalVector(Verdicts(x, terms, anyLen))
    ensures value ==> r == CharacterVector(Select(terms, Verdicts(x, terms, anyLen)))
  {
    var ana := GetAnagrams(x, terms, anyLen);
    assert ana == Verdicts(x, terms, anyLen);
    if value {
      var matches := SelectMatches(terms, ana);
      r := CharacterVector(matches);
    } else {
      r := LogicalVector(ana);
    }
  }
}
