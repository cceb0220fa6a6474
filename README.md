# coafill co-author normalisation, modelled in Dafny

coafill builds the co-author list of a Google Scholar profile in the format
the NSF "collaborators and other affiliations" form asks for: one line per
co-author of the last few years, "Lastname, Firstname Middle", with a cleaned
institutional affiliation. All of it lives in `src/coafill/scholar.py`. This
project models the part of that file that does the work: the year filter,
the author collection, the name canonicaliser `_nsf_name_cleanup`, the
key-based deduplicator, removal of the author's own name, the sort, the
affiliation cleaner `_nsf_affiliation_cleanup`, and the in-place quoting and
line format of `_dump_to_csv`.

Modules, one per file:

- `Wrappers`: `Option`, and `Result` with the two Python exceptions the
  pipeline can raise on odd strings (`IndexError`, `ValueError`).
- `Strings`: the Python `str` operations the code relies on. These are
  `sub in s`, `s.split(sep)`, `sep.join`, and `s.lower()` on ASCII. `in` and
  `split` rest on a search for the first occurrence (`IndexOf`). Lemmas
  state what the search finds and how split and join undo each other.
- `Names`: `_nsf_name_cleanup`. It gives the canonical shape of a comma-free
  name and the swap rule for a leading initial. It shows that only a name
  of three or more tokens can raise `IndexError`, with an input that does.
- `Listing`: `list.remove`, `list.sort` on strings, and `list(set(...))`.
  - `Sort` is an insertion sort proved to return the unique sorted
    permutation.
  - `Distinct` lists each distinct string once.
- `Dedup`: the loop over canonical names with the `seen_names` set and the
  `unique_coauthors` list.
  - `DedupByKey` is the loop itself, a method proved against the fold
    `Deduplicate`.
  - `DedupSpec` characterises the result: one name per key, each key's
    representative kept.
- `Affiliations`: `_nsf_affiliation_cleanup` and its three title rules.
- `Csv`: `_dump_to_csv` as a method over an array, which it quotes in place,
  plus the line format and a parser that reads a line back.
- `Scholar`: the cutoff year of `get_coauthors`, the year filter, the author
  collection loop, and the pipelines `_get_coauthors_from_pubs` and
  `get_coauthors`.

The clock, the `scholarly` calls and the file are parameters:
- the current year;
- `authorsOf`: the author field `scholarly.fill` returns for a paper;
- `lookup`: the affiliation `get_scholar_info` returns for a name;
- the sequence of lines written.

## Model

| member | source | states |
|---|---|---|
| Strings.IndexOfSpec | src/coafill/scholar.py:235-239 | the search behind `sub in s` and `s.split(sep)` finds the first occurrence of the substring, and finds nothing exactly when the substring does not occur |
| Strings.ContainsOccurs | src/coafill/scholar.py:235 | `sub in s` holds exactly when `sub` occurs at some index of `s` |
| Strings.Split | src/coafill/scholar.py:198 | `s.split(sep)` always gives at least one piece |
| Strings.SplitMany | src/coafill/scholar.py:198 | `s.split(sep)` gives more than one piece exactly when `sep` occurs in `s` |
| Strings.Lower | src/coafill/scholar.py:233-239 | `s.lower()` keeps the length of the string |
| Strings.LowerSpec | src/coafill/scholar.py:233-239 | `s.lower()` on ASCII leaves no capital letter, turns each capital into its small letter and changes no other character |
| Strings.JoinSplit | src/coafill/scholar.py:198-199 | joining the pieces of `s.split(sep)` with `sep` gives back `s` |
| Strings.SplitPiecesFree | src/coafill/scholar.py:132 | no piece of a split contains the separator |
| Strings.SplitTail | src/coafill/scholar.py:246 | `sep.join(s.split(sep)[1:])` is exactly the text after the first separator |
| Strings.SplitJoinChar | src/coafill/scholar.py:198 | splitting the space-join of space-free tokens gives the tokens back |
| Strings.LowerKeepsOccurrence | src/coafill/scholar.py:235 | an exact-case occurrence is still found after lowering both strings |
| Names.CleanName | src/coafill/scholar.py:198-204 | one name through the loop body: the result always starts with the last space-separated token and ", "; the only failure is IndexError, and only for a name of three or more tokens |
| Names.CleanNames | src/coafill/scholar.py:196-209 | one output per input name, in order, each the cleanup of its input; the list fails exactly when some name fails, and then with IndexError |
| Names.CleanNameShape | src/coafill/scholar.py:198-204 | a comma-free name becomes its last token, ", ", then the earlier tokens joined by spaces, except that with three or more tokens and a first token under two characters the given part is second token, space, first token |
| Names.CanonicalWellFormed | src/coafill/scholar.py:199-204 | the canonical form splits at ", " into exactly the last token and the given-name part, which is the shape the deduplicator unpacks |
| Names.CleanNameOfTokens | src/coafill/scholar.py:198-206 | a name built from comma-free, space-free tokens is cleaned to the canonical form of those tokens |
| Names.CleanNameTwoTokens | src/coafill/scholar.py:198-199 | "John Smith" becomes "Smith, John" |
| Names.CleanNameSwapsInitial | src/coafill/scholar.py:201-204 | "M Ann Johnson" becomes "Johnson, Ann M" |
| Names.CleanNameSwapDropsThirdGiven | src/coafill/scholar.py:201-204 | "M Ann Lee Johnson" becomes "Johnson, Ann M": the given names after the second are dropped |
| Names.CleanNameInitialWithCommaFails | src/coafill/scholar.py:202-204 | "X, Ann Johnson" raises IndexError at `notlastname[1]` |
| Listing.FirstIndex | src/coafill/scholar.py:154 | the index `remove` deletes holds the value and no earlier index does |
| Listing.RemoveFirst | src/coafill/scholar.py:154 | `remove(x)` shortens the list by one and takes exactly one copy of `x` out of its multiset |
| Listing.RemoveFirstMembers | src/coafill/scholar.py:159 | in a duplicate-free list, `remove(x)` leaves exactly the elements other than `x`, still duplicate-free |
| Listing.RemoveSelf | src/coafill/scholar.py:158-159 | a non-empty own name that occurs loses exactly one copy; an empty or absent own name leaves the list as it is |
| Listing.RemoveSelfSpec | src/coafill/scholar.py:158-159 | after removing the own name, a non-empty own name does not occur, every other name is kept, and an empty own name changes nothing |
| Listing.LessEqTotal | src/coafill/scholar.py:165 | string order is total |
| Listing.LessEqTransitive | src/coafill/scholar.py:165 | string order is transitive |
| Listing.LessEqAntisymmetric | src/coafill/scholar.py:165 | strings ordered both ways are equal |
| Listing.InsertSorted | src/coafill/scholar.py:165 | inserting into a sorted list keeps it sorted |
| Listing.Sort | src/coafill/scholar.py:165 | `sort()` returns an ascending permutation of its input, of the same length |
| Listing.SortedUnique | src/coafill/scholar.py:165 | two ascending permutations of the same strings are equal, so any correct sort gives the modelled result |
| Listing.Distinct | src/coafill/scholar.py:140 | `list(set(xs))` holds each string of `xs` exactly once and nothing else |
| Listing.PermutationNoDuplicates | src/coafill/scholar.py:165 | sorting a duplicate-free list keeps it duplicate-free |
| Dedup.Step | src/coafill/scholar.py:145-155 | one iteration: a name without exactly one ", " raises ValueError; otherwise its key is in `seen_names` afterwards, the list grows by one only for a new key, and no name but this one is added |
| Dedup.Fold | src/coafill/scholar.py:143-157 | the loop fails exactly when some name does not hold exactly one ", ", and then with ValueError |
| Dedup.Representative | src/coafill/scholar.py:148-155 | the name kept for a key is an input name that is a richer variant of it when one occurs, and the bare "Last, First" otherwise |
| Dedup.FirstRicher | src/coafill/scholar.py:152-155 | finds the first name that is a richer variant of a key (after-comma part differs from the first token), or reports that none exists |
| Dedup.KeyParts | src/coafill/scholar.py:146-147 | the unpacked last name and first token contain no ", " |
| Dedup.BareKey | src/coafill/scholar.py:153 | the bare "Last, First" of a key is well formed, has that key and is not richer |
| Dedup.NotRicherIsBare | src/coafill/scholar.py:152 | a name that is not richer is exactly the bare form of its key |
| Dedup.RepresentativeRicherOrAlone | src/coafill/scholar.py:151-155 | the name kept for a key is a richer variant unless no name is a richer variant of that key |
| Dedup.RepresentativeOf | src/coafill/scholar.py:148-155 | the name kept for an occurring key is an input name with that key |
| Dedup.StepPreserves | src/coafill/scholar.py:145-155 | one loop iteration on a well-formed name keeps the loop invariant: `seen_names` is the keys seen, the kept names come from the input with distinct keys, and each seen key's representative is kept |
| Dedup.StepNewKey | src/coafill/scholar.py:148-150 | a name with an unseen key is appended and the invariant holds |
| Dedup.StepReplace | src/coafill/scholar.py:152-155 | a richer variant replaces the present bare variant and the invariant holds |
| Dedup.StepKeepRicher | src/coafill/scholar.py:152-153 | a richer variant whose bare form is absent changes nothing, because an earlier richer variant is kept |
| Dedup.StepKeepBare | src/coafill/scholar.py:148-152 | a bare variant of a seen key changes nothing |
| Dedup.FoldInvariant | src/coafill/scholar.py:143-157 | over well-formed names the loop never fails and ends in a state satisfying the invariant |
| Dedup.Deduplicate | src/coafill/scholar.py:143-157 | fails exactly when a name is malformed, with ValueError; otherwise the kept names are well formed, pairwise key-distinct and all taken from the input |
| Dedup.DedupSpec | src/coafill/scholar.py:143-157 | `unique_coauthors` has pairwise distinct keys, the same key set as the input, and holds exactly the input names that are their key's representative (the first richer variant if any, else the bare "Last, First") |
| Dedup.DedupDropsBare | src/coafill/scholar.py:151-155 | when a richer variant of a key occurs anywhere, the bare "Last, First" of that key is not in the result |
| Dedup.FoldSingle | src/coafill/scholar.py:148-150 | one well-formed name gives one seen key and one kept name |
| Dedup.DedupBareAndRicher | src/coafill/scholar.py:148-155 | the bare and a richer variant, in either order, leave only the richer one |
| Dedup.DedupFirstRicherWins | src/coafill/scholar.py:152-153 | of two different richer variants of one key, whichever comes first is kept |
| Dedup.LaterRicherDropped | src/coafill/scholar.py:152-153 | a second richer variant after a first one is dropped |
| Dedup.DedupDistinctKeys | src/coafill/scholar.py:148-150 | names with different keys are both kept, in input order |
| Dedup.SameKeySame | src/coafill/scholar.py:148 | in a key-distinct list, two names with the same key are the same name |
| Dedup.KeysDistinctSublist | src/coafill/scholar.py:158-165 | removing the own name and sorting keep the keys distinct |
| Dedup.DedupByKey | src/coafill/scholar.py:143-157 | the loop returns the fold's result: ValueError exactly when a name is malformed, otherwise key-distinct names that are exactly the input names that represent their key |
| Affiliations.HasTitle | src/coafill/scholar.py:233 | an affiliation has a title exactly when some title word occurs at some index of its lowercased text |
| Affiliations.CleanAffiliation | src/coafill/scholar.py:229-253 | the empty affiliation and any affiliation without a title word in any case come back unchanged; the only failure is IndexError, and only for an affiliation with a title word |
| Affiliations.CleanAffiliations | src/coafill/scholar.py:227-257 | one output per affiliation, in order, each the cleanup of its input; fails exactly when some cleanup fails, and then with IndexError |
| Affiliations.SplitSecond | src/coafill/scholar.py:238 | `split(sep)[1]` exists when `sep` occurs, and is the text from the first separator up to the next one or the end |
| Affiliations.LowerContains | src/coafill/scholar.py:235 | an exact-case " at " is also found in the lowercased string |
| Affiliations.TitleInPrefix | src/coafill/scholar.py:233 | a title word in a prefix is a title word of the whole affiliation |
| Affiliations.AtRule | src/coafill/scholar.py:235-238 | with a title word and an exact-case " at ", the result is the text after the first " at " up to the next " at " (or the end) |
| Affiliations.AtRuleFails | src/coafill/scholar.py:235-238 | a " at " present only in another case ("Professor AT X") raises IndexError |
| Affiliations.AtSignRule | src/coafill/scholar.py:239-241 | with a title word, no " at " in any case, and an "@ ", the result is the text after the first "@ " up to the next one |
| Affiliations.AtSignRuleFails | src/coafill/scholar.py:239-241 | an "@" never followed by a space raises IndexError |
| Affiliations.CommaRule | src/coafill/scholar.py:242-248 | with a title word and neither " at " nor "@", the result is everything after the first ", ", or "" when there is none |
| Affiliations.AtExample | src/coafill/scholar.py:235-238 | "Professor at Example University" gives "Example University" (a one-word title, a place without " at ") |
| Affiliations.CommaExample | src/coafill/scholar.py:242-248 | "PhD student, Dept of X, Example University" gives "Dept of X, Example University" (a title part without a comma) |
| Csv.Quote | src/coafill/scholar.py:277 | the quoted name is the name between one double quote on each side |
| Csv.QuoteAll | src/coafill/scholar.py:277 | each name, in order, becomes itself wrapped in one double quote on each side |
| Csv.ParseCsvLineRoundTrip | src/coafill/scholar.py:278 | a written line reads back as its name and affiliation when the name holds no double quote |
| Csv.DumpToCsv | src/coafill/scholar.py:275-278 | every name is replaced in place by its quoted form and one line per name is written; with too few affiliations, IndexError at the first missing index, after that name was quoted and the earlier lines written |
| Scholar.YearCutoff | src/coafill/scholar.py:53 | a cutoff exists exactly when `years_back` is given and non-zero, and is that many years before today |
| Scholar.KeepRecent | src/coafill/scholar.py:120-124 | the comprehension keeps an order-preserving subsequence holding every copy of each paper with "bib" and a year (default the current year) at or after the cutoff, and no copy of any other paper |
| Scholar.FilterByYear | src/coafill/scholar.py:119-126 | with a truthy cutoff the kept papers are the recent ones, each as often as in the input, in order; with None or 0 every paper is kept |
| Scholar.SubsequenceReflexive | src/coafill/scholar.py:126 | keeping every paper is an order-preserving subsequence |
| Scholar.NoYearsBackKeepsAll | src/coafill/scholar.py:119-126 | a `years_back` of None or 0 keeps every paper |
| Scholar.YearFilterExample | src/coafill/scholar.py:123 | a 2018 paper passes a four-years-back cutoff exactly when the current year is 2022 or earlier; a paper without a year passes, a paper without "bib" does not |
| Scholar.AuthorsOf | src/coafill/scholar.py:129-134 | the collected names are the " and "-pieces of the papers' author texts in paper order, and none holds " and " |
| Scholar.AuthorsOfPieces | src/coafill/scholar.py:129-134 | each collected name is one " and "-separated piece of some paper's author text |
| Scholar.CollectCoauthors | src/coafill/scholar.py:129-134 | the loop collects the " and "-pieces of every paper, in paper order |
| Scholar.Normalise | src/coafill/scholar.py:140-165 | the steps after the collection succeed exactly when every name cleans up to a name with exactly one ", "; a failing cleanup gives IndexError, otherwise a malformed cleaned name gives ValueError |
| Scholar.RemoveSelfThenSort | src/coafill/scholar.py:158-165 | after removing the own name and sorting, the list is ascending, duplicate-free and key-distinct, and holds exactly the deduplicated names other than a non-empty own name |
| Scholar.NormaliseSpec | src/coafill/scholar.py:140-165 | the names are ascending, key-distinct and without the own name; each is the cleanup of a listed name; a bare "Last, First" is kept only when no richer variant of its key was listed; every key of a cleaned name keeps a name unless the own name was the name deduplication kept for it (a cleaned listed name with that key that is richer, or bare with no richer variant listed) |
| Scholar.RicherKeptAfterRemoval | src/coafill/scholar.py:143-159 | every name left after deduplication and removal of the own name is richer, or bare with no richer variant of its key among the cleaned names |
| Scholar.DrawnFromCleaned | src/coafill/scholar.py:141-159 | after deduplication and removal of the own name, every name is a cleaned listed name and every cleaned key keeps a name unless the own name, itself a cleaned listed name, carried it |
| Scholar.LookupAffiliations | src/coafill/scholar.py:167-173 | one lookup per name, index-aligned |
| Scholar.CoauthorsFromListing | src/coafill/scholar.py:141-179 | returns the normalised names and, index-aligned, each name's cleaned looked-up affiliation; fails with the normalisation's error, or with IndexError from an affiliation |
| Scholar.SameNamesCleanable | src/coafill/scholar.py:140 | whether the cleanup succeeds depends only on which names were collected, not on their order or repetition |
| Scholar.SameNamesResult | src/coafill/scholar.py:140 | the result's relation to the cleaned names carries over from the set listing to the collected names |
| Scholar.GetCoauthorsFromPubs | src/coafill/scholar.py:117-179 | for the author names of the kept papers: a failing name cleanup gives IndexError; otherwise a malformed cleaned name gives ValueError; otherwise the only failure is IndexError from an affiliation, and there is none when every cleaned name's affiliation cleans up; on success the names are sorted, key-distinct, without the own name, cleaned from the collected names, bare only where no richer variant was collected, cover every collected key but one whose kept name was exactly the own name, and the affiliations are aligned |
| Scholar.GetCoauthors | src/coafill/scholar.py:33-63 | the result is the pipeline's outcome for the author names of the papers of the last `years_back` years: the same errors in the same order, and on success the pipeline's names, plain without a file and quoted in place with one, the written lines pairing each name with its cleaned affiliation |

## Left out

- Network calls are parameters: `get_scholar_info`, `_get_scholar_profile`
  and `scholarly.fill`. `authorsOf` gives a paper's author text. `lookup`
  gives a name's affiliation, including the "An error occurred: …" text
  that `get_scholar_info` returns on an exception.
- The clock is a parameter. `datetime.date.today()` is read at line 52 and
  again at line 118; the model passes the same year to both. A year change
  between the two reads is not modelled.
- The `tqdm` progress bar and every `print` are output only and are left out.
- The file handling of `_dump_to_csv` is reduced to the written lines:
  opening, UTF-8 encoding and closing the file are left out.
- `int(...)` parsing of `pub_year` is left out. The year is an optional
  integer, so a non-numeric year, which would raise ValueError, does not
  arise.
- A publication is reduced to an identity, its "bib" entry and `pub_year`.
  Its author text comes from `authorsOf`.
- `my_name` of None is modelled as the empty name. Both are falsy and take
  the same path.
- `s.lower()` is modelled for ASCII letters only.
- `Scholar.GetCoauthorsFromPubs` lists `set(all_coauthors)` in
  first-occurrence order. CPython's set iteration order depends on string
  hashing, so the model fixes one order. This contract is stated only with
  facts that hold for every order. `Scholar.NormaliseSpec` and
  `Scholar.CoauthorsFromListing` hold for any listing.
- `Scholar.GetCoauthorsFromPubs` does not say which richer variant of a key
  is kept. That depends on the set order; `Dedup.DedupFirstRicherWins` shows
  the dependence.
- `Scholar.GetCoauthorsFromPubs` and `Scholar.GetCoauthors` give a
  sufficient condition for success, not an exact one: every cleaned name's
  affiliation cleans up. Which cleaned names survive deduplication, and so
  whose affiliation is looked up, depends on the set order.
- `Names.CleanNameShape` is proved only for names without a comma. Names
  with a comma are covered by `Names.CleanName` itself and by the failure
  witness `Names.CleanNameInitialWithCommaFails`.
- `Affiliations.AtExample` is proved for one-word titles.
  `Affiliations.AtRule` covers every title.
- `Affiliations.CommaExample` is proved for title parts without a comma.
  `Affiliations.CommaRule` covers every title part.

## Behaviour of the code worth noting

- The " at " rule keeps `split(" at ")[1]`. That is the text after the
  first " at " up to a second " at ", not the whole tail
  (`Affiliations.AtRule`).
- The " at " and "@" tests look at the lowercased affiliation, but the
  split uses the original. An affiliation with a title word raises
  IndexError when its " at " occurs only in another letter case, with no
  exact-case " at " anywhere (`Affiliations.AtRuleFails`). It also raises
  IndexError when it has no " at " in any case and an "@" that is never
  followed by a space (`Affiliations.AtSignRuleFails`).
- Deduplication depends on input order when a key has two different richer
  variants: the first one met is kept (`Dedup.DedupFirstRicherWins`). With
  a bare and one richer variant the richer one is kept in either order
  (`Dedup.DedupBareAndRicher`).
- A paper with no `pub_year` counts as the current year. It is therefore
  excluded when the cutoff is after the current year, which a negative
  `years_back` gives.
- With a truthy cutoff, a paper without "bib" is always excluded.
- A `years_back` of 0 disables filtering, like None
  (`Scholar.NoYearsBackKeepsAll`).
- A cutoff that comes out as 0 is also falsy and disables filtering.
- Only an exact `my_name` is removed, after deduplication. If
  deduplication keeps another variant of the own name's key, that variant
  stays; if it keeps `my_name` itself, the key disappears from the result
  (`Scholar.NormaliseSpec`).
- When a file name is given, `get_coauthors` returns the names quoted in
  place by `_dump_to_csv`, not the plain names (`Scholar.GetCoauthors`).
