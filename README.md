# anagrams — a verified model of the anagram matcher

This project models the C++ core of the R package `anagrams`. The core has two parts.

- `get_anagrams` takes a query string `x` and a vector of candidate `terms`. It returns one logical verdict per term.
  - It first builds a character-to-count table of `x`.
  - Each term then goes through a length pre-filter, an identity fast path and a per-character count comparison.
  - In same-length mode (`any_len == FALSE`) every character of `x` must occur equally often in the term.
  - In any-length mode (`any_len == TRUE`) every character of `x` must occur at least as often in the term.
- `cpp_is_anagram` either returns that logical vector, or, when `value == TRUE`, returns the terms whose verdict is `TRUE`, in their original order.

A third piece is `remove_spaces` from `src/anagrams.h`. It deletes every space from a string in place.

The verdicts are specified as multisets, in `Anagrams.Verdict`:
- same-length mode means "the term is a permutation of `x`" (`multiset(t) == multiset(x)`);
- any-length mode means "the multiset of `x` is contained in that of the term" (`multiset(x) <= multiset(t)`).

`GetAnagrams` is proved to compute exactly these verdicts. For same-length mode this rests on a pigeonhole lemma (`Counting.EqualCountsOnX`). The code compares counts only on the characters of `x`. Equal lengths then rule out any extra character in the term.

Files:
- `counting.dfy` (module `Counting`): `Count`, which models `std::count`; the total of a count table; multiset facts.
- `anagram.dfy` (module `Anagrams`): the frequency table, the count comparison, `GetAnagrams`, the projection and `CppIsAnagram`.
- `properties.dfy` (module `AnagramProperties`): what the verdicts mean, and some example scenarios.
- `spaces.dfy` (module `Spaces`): `remove_spaces` and its properties.

How the source is modelled:
- A C++ `std::string` is a `seq<char>`. An R character vector is a `seq<seq<char>>` and a logical vector is a `seq<bool>`.
- `get_anagrams` keeps the preallocated output array, written by index, and returns its contents.
- Two parts of the source are written inline but are separate methods here:
  - the inner count loops of `get_anagrams` (lines 108-136) are `CompareCounts`;
  - the `value == TRUE` branch of `cpp_is_anagram` (lines 28-43) is `SelectMatches`.
- The `std::unordered_map<char, int>` is a `map<char, int>`. `operator[]` reads an absent key as 0.
- `remove_spaces` works on an `array<char>` and returns the new length `n`. After the call, `a[..n]` is the erased string.

The code and the package's broader description disagree in places, and the model follows the code:
- The description speaks of case folding, space stripping before matching and missing (`NA`) terms. None of these appears in `src/cpp_is_anagram.cpp`, and `remove_spaces` is not called from it.
- The model therefore has no case folding and no `NA` handling. `remove_spaces` is modelled alone.

## Model

| member | source | states |
|---|---|---|
| `Counting.Count` | src/cpp_is_anagram.cpp:121 | `std::count` over a term never exceeds the term's length; `Counting.CountIsMultiplicity` ties it to `multiset(s)[c]` |
| `Counting.CountIsMultiplicity` | src/cpp_is_anagram.cpp:121 | `std::count(begin, end, c)` over a term is the multiplicity of `c` in the term's multiset |
| `Counting.EqualCountsOnX` | src/cpp_is_anagram.cpp:127-135 | pigeonhole: equal lengths plus equal counts on every character of `x` give multiset equality, so the term has no extra characters |
| `Counting.SumIncrement` | src/cpp_is_anagram.cpp:67 | one `x_counts[c]++` raises the total of the table by exactly one, whether or not `c` was already a key |
| `Anagrams.CountTableStep` | src/cpp_is_anagram.cpp:66-68 | incrementing the entry of `c` turns the frequency table of `s` into that of `s + [c]` |
| `Anagrams.CountChars` | src/cpp_is_anagram.cpp:62-68 | after the loop the table holds exactly the characters of `x`, each with its number of occurrences, and the counts add up to `x.size()` |
| `Anagrams.CompareCounts` | src/cpp_is_anagram.cpp:108-136 | the early-exit loops return `true` iff every character of `x` occurs at least as often in the term (any-length) or exactly as often (same-length) |
| `Anagrams.SameLengthByCounts` | src/cpp_is_anagram.cpp:93-97 | the length test plus equal counts on the characters of `x` hold iff the term is a permutation of `x` (both directions) |
| `Anagrams.AnyLengthByCounts` | src/cpp_is_anagram.cpp:116-125 | counts at least those of `x` on every character of `x` hold iff `multiset(x)` is contained in the term's multiset; other characters do not matter |
| `Anagrams.LengthPrefilter` | src/cpp_is_anagram.cpp:80-98 | a term shorter than `x` is no any-length anagram, and a term of a different length is no same-length anagram, so the early `false` verdicts are right |
| `Anagrams.GetAnagrams` | src/cpp_is_anagram.cpp:54-143 | exactly one verdict per term; position `i` holds the multiset verdict for term `i` in the selected mode |
| `Anagrams.CountTrue` | src/cpp_is_anagram.cpp:29 | `sum(ana)`, the number of `TRUE` verdicts, is at most the vector's length; `Anagrams.TruePositions` and `Anagrams.Select` have exactly that many entries |
| `Anagrams.Select` | src/cpp_is_anagram.cpp:29 | the projected vector has exactly `sum(ana)` elements, the size it is preallocated with |
| `Anagrams.TruePositions` | src/cpp_is_anagram.cpp:36-42 | the positions whose verdict is `TRUE`: strictly increasing, each one a `TRUE` entry, and none missing |
| `Anagrams.SelectAtPositions` | src/cpp_is_anagram.cpp:36-42 | the projection's `k`-th element is the term at the `k`-th `TRUE` position |
| `Anagrams.SelectStep` | src/cpp_is_anagram.cpp:37-41 | each step of the walk appends `terms[ana_i]` exactly when `ana[ana_i]` is `TRUE` |
| `Anagrams.CountTruePrefix` | src/cpp_is_anagram.cpp:29-39 | a prefix of the verdicts has no more `TRUE` entries than the whole vector, so `out[out_i]` is always in bounds |
| `Anagrams.SelectMatches` | src/cpp_is_anagram.cpp:28-43 | the two-counter walk fills the preallocated vector exactly, with the matching terms in their original order |
| `Anagrams.CppIsAnagram` | src/cpp_is_anagram.cpp:14-47 | with `value` false the result is the verdict vector unchanged; with `value` true it is the matching terms, in order |
| `AnagramProperties.IdentityMatches` | src/cpp_is_anagram.cpp:100-106 | a term equal to `x` is an anagram in both modes, so the fast path never changes a verdict |
| `AnagramProperties.EmptyQuery` | src/cpp_is_anagram.cpp:85-97 | for an empty `x` every term matches in any-length mode, and only the empty term matches in same-length mode |
| `AnagramProperties.SameLengthSymmetric` | src/cpp_is_anagram.cpp:127-135 | same-length matching is symmetric, and every same-length anagram is also an any-length anagram |
| `AnagramProperties.AnyLengthInsert` | src/cpp_is_anagram.cpp:116-125 | inserting a character anywhere in a matching term keeps it an any-length match |
| `AnagramProperties.AnyLengthIgnoresOthers` | src/cpp_is_anagram.cpp:116-125 | appending a character that `x` lacks never changes an any-length verdict |
| `AnagramProperties.MatchesAreTheAnagrams` | src/cpp_is_anagram.cpp:28-43 | the `value == TRUE` output is the terms at the `TRUE` positions in increasing order; each is an anagram, and no anagram is missed |
| `AnagramProperties.ListenSilent` | src/cpp_is_anagram.cpp:54-143 | example scenario: "silent" is a same-length anagram of "listen" |
| `AnagramProperties.ListenEnlist` | src/cpp_is_anagram.cpp:54-143 | example scenario: "enlist" is a same-length anagram of "listen" |
| `AnagramProperties.ListenNotList` | src/cpp_is_anagram.cpp:93-97 | example scenario: "list" fails the same-length test against "listen" |
| `AnagramProperties.ListenNotGoogle` | src/cpp_is_anagram.cpp:130-135 | example scenario: "google" is not a same-length anagram of "listen" |
| `AnagramProperties.ListenMatches` | src/cpp_is_anagram.cpp:28-43 | example scenario: the verdicts `[T, T, F, F]` project to `["silent", "enlist"]` |
| `AnagramProperties.CatLetterCounts` | src/cpp_is_anagram.cpp:120-125 | "scatter" and "tacos" hold every letter of "cat" at least as often as "cat" does |
| `AnagramProperties.CatInScatter` | src/cpp_is_anagram.cpp:116-125 | example scenario: "scatter" is an any-length anagram of "cat" |
| `AnagramProperties.CatInTacos` | src/cpp_is_anagram.cpp:116-125 | example scenario: "tacos" is an any-length anagram of "cat" |
| `AnagramProperties.CatNotInDog` | src/cpp_is_anagram.cpp:116-125 | example scenario: "dog" is not an any-length anagram of "cat" |
| `Spaces.RemoveSpaces` | src/anagrams.h:17-19 | in-place compaction: the first `n` characters afterwards are the original string with its spaces taken out |
| `Spaces.NoSpaceLeft` | src/anagrams.h:10-19 | after the removal no `SINGLE_SPACE` character is left |
| `Spaces.WithoutSpacesAppend` | src/anagrams.h:18 | removal distributes over concatenation, so the kept characters keep their relative order |
| `Spaces.WithoutSpacesCounts` | src/anagrams.h:18 | every non-space character keeps its count, and the new length is the old length minus the number of spaces |
| `Spaces.NoSpacesUnchanged` | src/anagrams.h:17-19 | a string without spaces, including the empty string, is left unchanged |
| `Spaces.RemoveSpacesIdempotent` | src/anagrams.h:17-19 | removing spaces twice gives the same result as removing them once |

## Left out

- Rcpp marshalling is not modelled: `SEXP`, `as<std::string>`, `StringVector`, `LogicalVector`, `CharacterVector` and `sum` become Dafny sequences and `CountTrue`. `src/RcppExports.cpp` is not part of this model. It is generated glue, and the signatures it declares are older than the code.
- Characters are Dafny `char`s rather than C++ bytes. Multi-byte encodings are not modelled; the code compares single `char`s, and so does the model.
- `x_len`, `terms_len` and `curr_term_len` are C++ `int`s. The model uses unbounded lengths and does not model a string longer than 2^31-1 characters.
- The hashing and storage of `std::unordered_map` are not modelled. The table is a `map<char, int>`.
- `std::count` is a pure function (`Counting.Count`) rather than a loop.
- The process-wide `std::string s` behind `SINGLE_SPACE` is replaced by the constant `Spaces.SingleSpace`.
- `Spaces.RemoveSpaces`: the string does not shrink. The method returns the new length, and the characters after it are what `erase` discards.
- Case folding and space stripping inside the matcher are not modelled, because the matching code has neither.
- `NA` terms are not modelled. The code has no `NA` branch: an R `NA` term reaches `as<std::string>` (src/cpp_is_anagram.cpp:78) as the two-character text "NA" and is matched like any other term, so x = "AN" matches it; with `value == TRUE` the `NA` element itself is then copied to the output (line 38). Terms here are always present strings.
