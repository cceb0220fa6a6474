/** The pipeline of `get_coauthors` and `_get_coauthors_from_pubs`: cutoff
    year, year filter, author collection, name cleanup, deduplication,
    removal of the author's own name, sorting, affiliation lookup and
    cleanup, and the optional CSV dump. The clock, the `scholarly` lookups
    and the file are parameters. */
module Scholar {
  import opened Wrappers
  import opened Strings
  import opened Names
  import opened Dedup
  import opened Listing
  import opened Affiliations
  import opened Csv

  /** The "bib" entry of a publication: only its optional `pub_year`. */
  datatype Bib = Bib(pubYear: Option<int>)

  /** A publication of the profile: `id` tells publications apart (two
      papers of the same year may have different authors), and it may lack
      "bib". */
  datatype Paper = Paper(id: nat, bib: Option<Bib>)

  // ----- the cutoff year and the year filter -----

  /** Line 53: `today.year - years_back if years_back else None`; a
      `years_back` of None or 0 is falsy. */
  function YearCutoff(yearsBack: Option<int>, todayYear: int): (r: Option<int>)
    ensures r.Some? <==> yearsBack.Some? && yearsBack.value != 0
    ensures r.Some? ==> r.value + yearsBack.value == todayYear
  {
    if yearsBack.Some? && yearsBack.value != 0 then Some(todayYear - yearsBack.value) else None
  }

  /** `paper["bib"].get("pub_year", current_year)`. */
  function PaperYear(p: Paper, currentYear: int): int
    requires p.bib.Some?
  {
    match p.bib.value.pubYear
    case Some(y) => y
    case None => currentYear
  }

  /** The comprehension's condition on line 123. */
  predicate Recent(p: Paper, cutoff: int, currentYear: int) {
    p.bib.Some? && PaperYear(p, currentYear) >= cutoff
  }

  /** The comprehension on lines 120-124: an order-preserving subsequence
      that keeps every copy of a paper with "bib" and a year (the current
      year by default) at or after the cutoff, and no copy of any other. */
  function KeepRecent(papers: seq<Paper>, cutoff: int, currentYear: int): (r: seq<Paper>)
    ensures IsSubsequence(r, papers)
    ensures forall p :: multiset(r)[p] == if Recent(p, cutoff, currentYear) then multiset(papers)[p] else 0
  {
    if papers == [] then []
    else
      var rest := KeepRecent(papers[1..], cutoff, currentYear);
      assert papers == [papers[0]] + papers[1..];
      assert multiset(papers) == multiset{papers[0]} + multiset(papers[1..]);
      if Recent(papers[0], cutoff, currentYear) then
        assert ([papers[0]] + rest)[1..] == rest;
        [papers[0]] + rest
      else
        assert rest != [] ==> rest[0] in multiset(rest);
        rest
  }

  /** Lines 119-126: filter only when the cutoff is truthy (not None, not
      0); then the kept papers are exactly the recent ones, each as often as
      in the input, in input order; otherwise every paper is kept. */
  function FilterByYear(papers: seq<Paper>, cutoff: Option<int>, currentYear: int): (r: seq<Paper>)
    ensures IsSubsequence(r, papers)
    ensures cutoff.Some? && cutoff.value != 0 ==>
              forall p :: multiset(r)[p] == if Recent(p, cutoff.value, currentYear) then multiset(papers)[p] else 0
    ensures cutoff.None? || cutoff.value == 0 ==> r == papers
  {
    if cutoff.Some? && cutoff.value != 0 then KeepRecent(papers, cutoff.value, currentYear)
    else
      SubsequenceReflexive(papers);
      papers
  }

  /** `r` is `s` with some elements left out, the rest in their order. */
  predicate IsSubsequence<T(==)>(r: seq<T>, s: seq<T>)
    decreases |s|
  {
    if r == [] then true
    else if s == [] then false
    else if r[0] == s[0] then IsSubsequence(r[1..], s[1..])
    else IsSubsequence(r, s[1..])
  }

  lemma {:induction false} SubsequenceReflexive<T>(s: seq<T>)
    ensures IsSubsequence(s, s)
  {
    if s != [] {
      SubsequenceReflexive(s[1..]);
    }
  }

  /** A `years_back` of None or 0 keeps every paper. */
  lemma NoYearsBackKeepsAll(papers: seq<Paper>, yearsBack: Option<int>, todayYear: int)
    requires yearsBack.None? || yearsBack.value == 0
    ensures FilterByYear(papers, YearCutoff(yearsBack, todayYear), todayYear) == papers
  {
  }

  /** With a cutoff four years back, a paper from 2018 is kept exactly when
      the current year is 2022 or earlier; a paper without a year counts as
      current and is kept for any cutoff not after the current year. */
  lemma YearFilterExample(currentYear: int, yearsBack: int)
    requires yearsBack >= 0
    ensures Recent(Paper(0, Some(Bib(Some(2018)))), currentYear - 4, currentYear) <==> currentYear <= 2022
    ensures Recent(Paper(1, Some(Bib(None))), currentYear - yearsBack, currentYear)
    ensures !Recent(Paper(2, None), currentYear - yearsBack, currentYear)
  {
  }

  // ----- collecting the authors -----

  /** All the " and "-separated author names of the papers, in paper order;
      `authorsOf` is the "author" field `scholarly.fill` reports. No
      collected name holds " and ". */
  function AuthorsOf(papers: seq<Paper>, authorsOf: Paper -> string): (r: seq<string>)
    ensures forall x :: x in r ==> !Contains(x, " and ")
    decreases |papers|
  {
    if papers == [] then []
    else
      var text := authorsOf(papers[|papers| - 1]);
      SplitAllPiecesFree(text, " and ");
      AuthorsOf(papers[..|papers| - 1], authorsOf) + Split(text, " and ")
  }

  /** Every collected name is a piece of some paper's author text. */
  lemma {:induction false} AuthorsOfPieces(papers: seq<Paper>, authorsOf: Paper -> string, x: string)
    requires x in AuthorsOf(papers, authorsOf)
    ensures exists i :: 0 <= i < |papers| && x in Split(authorsOf(papers[i]), " and ")
    decreases |papers|
  {
    var init := papers[..|papers| - 1];
    if x in AuthorsOf(init, authorsOf) {
      AuthorsOfPieces(init, authorsOf, x);
      var i :| 0 <= i < |init| && x in Split(authorsOf(init[i]), " and ");
      assert papers[i] == init[i];
    } else {
      assert x in Split(authorsOf(papers[|papers| - 1]), " and ");
    }
  }

  /** Lines 129-134: the loop extending `all_coauthors`. */
  method CollectCoauthors(papers: seq<Paper>, authorsOf: Paper -> string) returns (all: seq<string>)
    ensures all == AuthorsOf(papers, authorsOf)
    ensures forall x :: x in all ==> !Contains(x, " and ")
  {
    all := [];
    var i := 0;
    while i < |papers|
      invariant 0 <= i <= |papers|
      invariant all == AuthorsOf(papers[..i], authorsOf)
    {
      assert papers[..i + 1][..i] == papers[..i];
      all := all + Split(authorsOf(papers[i]), " and ");
      i := i + 1;
    }
    assert papers[..i] == papers;
  }

  // ----- from the listing of distinct names to the final lists -----

  /** Lines 141-165 as a specification: cleanup, deduplication, removal of
      the own name, sort. It succeeds exactly when every listed name cleans
      up to a name with exactly one ", "; a failing cleanup raises its
      IndexError first, and otherwise a malformed cleaned name raises the
      deduplicator's ValueError. */
  function Normalise(listing: seq<string>, myName: string): (r: Result<seq<string>>)
    ensures r.Ok? <==> AllCleanable(listing)
    ensures SomeUncleanable(listing) ==> r == Err(IndexError)
    ensures !SomeUncleanable(listing) && !AllCleanable(listing) ==> r == Err(ValueError)
  {
    match CleanNames(listing)
    case Err(e) => Err(e)
    case Ok(cleaned) =>
      assert AllWellFormed(cleaned) <==> AllCleanable(listing);
      match Deduplicate(cleaned)
      case Err(e) => Err(e)
      case Ok(unique) => Ok(Sort(RemoveSelf(unique, myName)))
  }

  predicate AllCleanable(listing: seq<string>) {
    forall i :: 0 <= i < |listing| ==> CleanName(listing[i]).Ok? && WellFormed(CleanName(listing[i]).value)
  }

  predicate SomeUncleanable(listing: seq<string>) {
    exists i :: 0 <= i < |listing| && CleanName(listing[i]).Err?
  }

  /** Every name of `names` is the cleanup of some name of `listing`. */
  predicate CleanedFrom(names: seq<string>, listing: seq<string>) {
    forall x :: x in names ==> exists i :: 0 <= i < |listing| && CleanName(listing[i]) == Ok(x)
  }

  /** No listed name cleans up to a richer variant of key `k`. */
  predicate NoRicherListed(listing: seq<string>, k: Key) {
    forall i :: 0 <= i < |listing| && CleanName(listing[i]).Ok? ==> !IsRicherVariant(CleanName(listing[i]).value, k)
  }

  /** Each name of `names` is a richer variant, or a bare one whose key has
      no richer variant among the cleaned listed names. */
  predicate RicherKept(names: seq<string>, listing: seq<string>)
    requires AllWellFormed(names)
  {
    forall j :: 0 <= j < |names| ==> Richer(names[j]) || NoRicherListed(listing, KeyOf(names[j]))
  }

  /** The key of the well-formed name `c` has a name in `names`, or the own
      name was the name deduplication kept for that key: it is itself the
      cleanup of a listed name, has that key, and is richer or has no richer
      variant listed. Only an exact own name is removed. */
  predicate Covered(names: seq<string>, c: string, myName: string, listing: seq<string>)
    requires WellFormed(c)
  {
    (exists x :: x in names && WellFormed(x) && KeyOf(x) == KeyOf(c))
    || (&& myName != "" && WellFormed(myName) && KeyOf(myName) == KeyOf(c)
        && (exists i :: 0 <= i < |listing| && CleanName(listing[i]) == Ok(myName))
        && (Richer(myName) || NoRicherListed(listing, KeyOf(c))))
  }

  /** Every key of a cleaned listed name has a name in `names`, unless the
      own name, cleaned from the listing, had that key. */
  predicate KeysCovered(names: seq<string>, listing: seq<string>, myName: string)
    requires AllCleanable(listing)
  {
    forall i :: 0 <= i < |listing| ==> Covered(names, CleanName(listing[i]).value, myName, listing)
  }

  /** Removing the own name and sorting keep a deduplicated list key-distinct
      and make it sorted without the own name. */
  lemma RemoveSelfThenSort(unique: seq<string>, myName: string)
    requires AllWellFormed(unique) && KeysDistinct(unique)
    ensures var names := Sort(RemoveSelf(unique, myName));
            && Sorted(names) && NoDuplicates(names) && AllWellFormed(names) && KeysDistinct(names)
            && (forall x :: x in names <==> x in unique && (myName == "" || x != myName))
  {
    KeysDistinctNoDuplicates(unique);
    RemoveSelfSpec(unique, myName);
    var kept := RemoveSelf(unique, myName);
    KeysDistinctSublist(unique, kept);
    var names := Sort(kept);
    PermutationNoDuplicates(kept, names);
    forall x ensures x in names <==> x in kept {
      assert x in names <==> x in multiset(names);
    }
    KeysDistinctSublist(kept, names);
  }

  /** What the normalised list is: sorted, one name per key, every name the
      cleanup of some listed name, a bare name only where no richer variant
      was listed, the own name absent, and every key of a cleaned name
      present unless the own name was the name kept for it. */
  lemma NormaliseSpec(listing: seq<string>, myName: string)
    requires AllCleanable(listing)
    ensures Normalise(listing, myName).Ok?
    ensures var names := Normalise(listing, myName).value;
            && Sorted(names) && NoDuplicates(names) && AllWellFormed(names) && KeysDistinct(names)
            && (myName != "" ==> myName !in names)
            && CleanedFrom(names, listing)
            && RicherKept(names, listing)
            && KeysCovered(names, listing, myName)
  {
    var cleaned := CleanNames(listing).value;
    DedupSpec(cleaned);
    var unique := Deduplicate(cleaned).value;
    RemoveSelfThenSort(unique, myName);
    var names := Sort(RemoveSelf(unique, myName));
    assert Normalise(listing, myName).value == names;
    DrawnFromCleaned(listing, cleaned, unique, names, myName);
    RicherKeptAfterRemoval(listing, cleaned, unique, names);
  }

  /** A name no cleaned name is a richer variant of has no richer variant
      listed. */
  lemma NoRicherCleaned(listing: seq<string>, cleaned: seq<string>, k: Key)
    requires CleanNames(listing) == Ok(cleaned)
    requires forall i :: 0 <= i < |cleaned| ==> !IsRicherVariant(cleaned[i], k)
    ensures NoRicherListed(listing, k)
  {
    forall i | 0 <= i < |listing| && CleanName(listing[i]).Ok?
      ensures !IsRicherVariant(CleanName(listing[i]).value, k)
    {
      assert cleaned[i] == CleanName(listing[i]).value;
    }
  }

  /** The names kept after deduplication are representatives, so a bare one
      has no richer variant listed. */
  lemma RicherKeptAfterRemoval(listing: seq<string>, cleaned: seq<string>, unique: seq<string>,
                               names: seq<string>)
    requires CleanNames(listing) == Ok(cleaned)
    requires forall x :: x in unique ==> WellFormed(x) && x == Representative(cleaned, KeyOf(x))
    requires AllWellFormed(names) && forall x :: x in names ==> x in unique
    ensures RicherKept(names, listing)
  {
    forall j | 0 <= j < |names| ensures Richer(names[j]) || NoRicherListed(listing, KeyOf(names[j])) {
      var x := names[j];
      assert x in unique;
      RepresentativeRicherOrAlone(cleaned, x);
      if !Richer(x) {
        NoRicherCleaned(listing, cleaned, KeyOf(x));
      }
    }
  }

  /** The names left after deduplicating the cleaned names and removing the
      own name are cleaned listed names, and they cover every cleaned key
      but one the own name carried. */
  lemma DrawnFromCleaned(listing: seq<string>, cleaned: seq<string>, unique: seq<string>,
                         names: seq<string>, myName: string)
    requires AllCleanable(listing) && CleanNames(listing) == Ok(cleaned)
    requires AllWellFormed(unique) && KeysOf(unique) == KeysOf(cleaned)
    requires forall x :: x in unique ==> x in cleaned
    requires forall x :: x in unique ==> WellFormed(x) && x == Representative(cleaned, KeyOf(x))
    requires forall x :: x in names <==> x in unique && (myName == "" || x != myName)
    ensures CleanedFrom(names, listing) && KeysCovered(names, listing, myName)
  {
    forall x | x in names ensures exists i :: 0 <= i < |listing| && CleanName(listing[i]) == Ok(x) {
      var i :| 0 <= i < |cleaned| && cleaned[i] == x;
    }
    forall i | 0 <= i < |listing| ensures Covered(names, CleanName(listing[i]).value, myName, listing) {
      var c := cleaned[i];
      assert c in cleaned;
      assert KeyOf(c) in KeysOf(unique);
      var y :| y in unique && WellFormed(y) && KeyOf(y) == KeyOf(c);
      if myName == "" || y != myName {
        assert y in names;
      } else {
        var j :| 0 <= j < |cleaned| && cleaned[j] == y;
        assert CleanName(listing[j]) == Ok(myName);
        RepresentativeRicherOrAlone(cleaned, y);
        if !Richer(y) {
          NoRicherCleaned(listing, cleaned, KeyOf(c));
        }
      }
    }
  }

  /** Lines 167-173: one lookup per name, in order. */
  method LookupAffiliations(names: seq<string>, lookup: string -> string) returns (affiliations: seq<string>)
    ensures |affiliations| == |names|
    ensures forall j :: 0 <= j < |names| ==> affiliations[j] == lookup(names[j])
  {
    affiliations := [];
    var i := 0;
    while i < |names|
      invariant 0 <= i <= |names|
      invariant |affiliations| == i
      invariant forall j :: 0 <= j < i ==> affiliations[j] == lookup(names[j])
    {
      affiliations := affiliations + [lookup(names[i])];
      i := i + 1;
    }
  }

  /** Lines 141-176 on a given listing of the collected names: the
      normalised names and their cleaned affiliations, looked up one by one
      with `lookup` (standing for `get_scholar_info`). */
  method CoauthorsFromListing(listing: seq<string>, myName: string, lookup: string -> string)
    returns (r: Result<(seq<string>, seq<string>)>)
    ensures r.Ok? ==> Normalise(listing, myName) == Ok(r.value.0)
    ensures r.Ok? ==> var (names, affs) := r.value;
              |affs| == |names| && forall i :: 0 <= i < |names| ==> CleanAffiliation(lookup(names[i])) == Ok(affs[i])
    ensures Normalise(listing, myName).Err? ==> r == Err(Normalise(listing, myName).error)
    ensures Normalise(listing, myName).Ok? && (forall x :: x in Normalise(listing, myName).value ==> CleanAffiliation(lookup(x)).Ok?) ==> r.Ok?
    ensures r.Err? && Normalise(listing, myName).Ok? ==> r.error == IndexError
  {
    var cleaned := CleanNames(listing);
    if cleaned.Err? {
      return Err(cleaned.error);
    }
    var unique := DedupByKey(cleaned.value);
    if unique.Err? {
      return Err(unique.error);
    }
    var names := RemoveSelf(unique.value, myName);
    names := Sort(names);
    var affiliations := LookupAffiliations(names, lookup);
    var cleanedAffs := CleanAffiliations(affiliations);
    if cleanedAffs.Err? {
      return Err(cleanedAffs.error);
    }
    return Ok((names, cleanedAffs.value));
  }

  /** Each affiliation is the cleaned lookup of the name at its index. */
  predicate Aligned(names: seq<string>, affs: seq<string>, lookup: string -> string) {
    |affs| == |names| && forall i :: 0 <= i < |names| ==> CleanAffiliation(lookup(names[i])) == Ok(affs[i])
  }

  /** The conditions on the cleaned names depend only on which names are
      listed, not on their order or repetition. */
  lemma SameNamesCleanable(listing: seq<string>, all: seq<string>)
    requires forall x :: x in listing <==> x in all
    ensures AllCleanable(listing) <==> AllCleanable(all)
    ensures SomeUncleanable(listing) <==> SomeUncleanable(all)
  {
    if AllCleanable(listing) {
      forall i | 0 <= i < |all| ensures CleanName(all[i]).Ok? && WellFormed(CleanName(all[i]).value) {
        assert all[i] in listing;
      }
    }
    if AllCleanable(all) {
      forall i | 0 <= i < |listing| ensures CleanName(listing[i]).Ok? && WellFormed(CleanName(listing[i]).value) {
        assert listing[i] in all;
      }
    }
    if SomeUncleanable(listing) {
      var i :| 0 <= i < |listing| && CleanName(listing[i]).Err?;
      assert listing[i] in all;
    }
    if SomeUncleanable(all) {
      var i :| 0 <= i < |all| && CleanName(all[i]).Err?;
      assert all[i] in listing;
    }
  }

  lemma SameNamesResult(listing: seq<string>, all: seq<string>, names: seq<string>, myName: string)
    requires forall x :: x in listing <==> x in all
    requires AllCleanable(listing) && AllCleanable(all)
    requires AllWellFormed(names)
    requires CleanedFrom(names, listing) && RicherKept(names, listing) && KeysCovered(names, listing, myName)
    ensures CleanedFrom(names, all) && RicherKept(names, all) && KeysCovered(names, all, myName)
  {
    forall j | 0 <= j < |names| ensures Richer(names[j]) || NoRicherListed(all, KeyOf(names[j])) {
      if !Richer(names[j]) {
        NoRicherSameNames(listing, all, KeyOf(names[j]));
      }
    }
    forall x | x in names ensures exists i :: 0 <= i < |all| && CleanName(all[i]) == Ok(x) {
      var i :| 0 <= i < |listing| && CleanName(listing[i]) == Ok(x);
      assert listing[i] in all;
    }
    forall i | 0 <= i < |all| ensures Covered(names, CleanName(all[i]).value, myName, all) {
      assert all[i] in listing;
      var j :| 0 <= j < |listing| && listing[j] == all[i];
      var c := CleanName(listing[j]).value;
      assert Covered(names, c, myName, listing);
      if !(exists x :: x in names && WellFormed(x) && KeyOf(x) == KeyOf(c)) {
        var m :| 0 <= m < |listing| && CleanName(listing[m]) == Ok(myName);
        assert listing[m] in all;
        if !Richer(myName) {
          NoRicherSameNames(listing, all, KeyOf(c));
        }
      }
    }
  }

  /** Whether a richer variant is listed depends only on which names are
      listed. */
  lemma NoRicherSameNames(listing: seq<string>, all: seq<string>, k: Key)
    requires forall x :: x in listing <==> x in all
    requires NoRicherListed(listing, k)
    ensures NoRicherListed(all, k)
  {
    forall i | 0 <= i < |all| && CleanName(all[i]).Ok? ensures !IsRicherVariant(CleanName(all[i]).value, k) {
      assert all[i] in listing;
    }
  }

  /** Every cleaned collected name gets an affiliation that cleans up. */
  predicate AffiliationsCleanable(collected: seq<string>, lookup: string -> string)
    requires AllCleanable(collected)
  {
    forall i :: 0 <= i < |collected| ==> CleanAffiliation(lookup(CleanName(collected[i]).value)).Ok?
  }

  /** What `_get_coauthors_from_pubs` promises of the names and affiliations
      it returns for the collected author names: sorted, one name per key,
      without the own name, each the cleanup of a collected name, a bare
      name only where no richer variant was collected, every collected key
      kept unless the own name was the name kept for it, and the
      affiliations index-aligned with the names. */
  predicate Reported(names: seq<string>, affs: seq<string>, collected: seq<string>, myName: string,
                     lookup: string -> string)
  {
    && Sorted(names) && NoDuplicates(names) && AllWellFormed(names) && KeysDistinct(names)
    && (myName != "" ==> myName !in names)
    && AllCleanable(collected)
    && CleanedFrom(names, collected)
    && RicherKept(names, collected)
    && KeysCovered(names, collected, myName)
    && Aligned(names, affs, lookup)
  }

  /** The author names of the papers the year filter keeps. */
  function Collected(papers: seq<Paper>, cutoff: Option<int>, currentYear: int,
                     authorsOf: Paper -> string): seq<string>
  {
    AuthorsOf(FilterByYear(papers, cutoff, currentYear), authorsOf)
  }

  /** `_get_coauthors_from_pubs`, with `list(set(...))` listing the distinct
      collected names in order of first occurrence. It fails with IndexError
      when a name cleanup fails, else with ValueError when a cleaned name is
      malformed, else only with IndexError from an affiliation; it succeeds
      when every name cleans up and every cleaned name's affiliation does. */
  method GetCoauthorsFromPubs(papers: seq<Paper>, cutoff: Option<int>, myName: string, currentYear: int,
                              authorsOf: Paper -> string, lookup: string -> string)
    returns (r: Result<(seq<string>, seq<string>)>)
    ensures var collected := Collected(papers, cutoff, currentYear, authorsOf);
            r.Ok? ==> Reported(r.value.0, r.value.1, collected, myName, lookup)
    ensures var collected := Collected(papers, cutoff, currentYear, authorsOf);
            SomeUncleanable(collected) ==> r == Err(IndexError)
    ensures var collected := Collected(papers, cutoff, currentYear, authorsOf);
            !SomeUncleanable(collected) && !AllCleanable(collected) ==> r == Err(ValueError)
    ensures var collected := Collected(papers, cutoff, currentYear, authorsOf);
            AllCleanable(collected) && r.Err? ==> r.error == IndexError
    ensures var collected := Collected(papers, cutoff, currentYear, authorsOf);
            AllCleanable(collected) && AffiliationsCleanable(collected, lookup) ==> r.Ok?
  {
    var subset := FilterByYear(papers, cutoff, currentYear);
    var all := CollectCoauthors(subset, authorsOf);
    var listing := Distinct(all);
    r := CoauthorsFromListing(listing, myName, lookup);
    SameNamesCleanable(listing, all);
    if AllCleanable(listing) {
      NormaliseSpec(listing, myName);
      var names := Normalise(listing, myName).value;
      SameNamesResult(listing, all, names, myName);
      if AffiliationsCleanable(all, lookup) {
        forall x | x in names ensures CleanAffiliation(lookup(x)).Ok? {
          var i :| 0 <= i < |all| && CleanName(all[i]) == Ok(x);
        }
      }
    }
  }

  /** `get_coauthors`: the cutoff from `years_back` and today's year, the
      pipeline, and, when a file name is given, the CSV dump, which quotes
      the returned names in place. The names are those of the pipeline for
      the papers of the last `years_back` years, plain or quoted, and the
      lines written pair each with its cleaned affiliation. */
  method GetCoauthors(papers: seq<Paper>, yearsBack: Option<int>, todayYear: int, myName: string,
                      dumpToFile: bool, authorsOf: Paper -> string, lookup: string -> string)
    returns (r: Result<seq<string>>, written: seq<string>)
    ensures var collected := Collected(papers, YearCutoff(yearsBack, todayYear), todayYear, authorsOf);
            r.Ok? ==>
              exists names, affs ::
                && Reported(names, affs, collected, myName, lookup)
                && r.value == (if dumpToFile then QuoteAll(names) else names)
                && written == (if dumpToFile then CsvLines(names, affs) else [])
    ensures var collected := Collected(papers, YearCutoff(yearsBack, todayYear), todayYear, authorsOf);
            SomeUncleanable(collected) ==> r == Err(IndexError)
    ensures var collected := Collected(papers, YearCutoff(yearsBack, todayYear), todayYear, authorsOf);
            !SomeUncleanable(collected) && !AllCleanable(collected) ==> r == Err(ValueError)
    ensures var collected := Collected(papers, YearCutoff(yearsBack, todayYear), todayYear, authorsOf);
            AllCleanable(collected) && r.Err? ==> r.error == IndexError
    ensures var collected := Collected(papers, YearCutoff(yearsBack, todayYear), todayYear, authorsOf);
            AllCleanable(collected) && AffiliationsCleanable(collected, lookup) ==> r.Ok?
    ensures r.Err? ==> written == []
  {
    written := [];
    var cutoff := YearCutoff(yearsBack, todayYear);
    var res := GetCoauthorsFromPubs(papers, cutoff, myName, todayYear, authorsOf, lookup);
    if res.Err? {
      return Err(res.error), [];
    }
    var (names, affs) := res.value;
    assert Reported(names, affs, Collected(papers, cutoff, todayYear, authorsOf), myName, lookup);
    if !dumpToFile {
      return Ok(names), [];
    }
    var coAuthors := new string[|names|](i requires 0 <= i < |names| => names[i]);
    assert coAuthors[..] == names;
    var failure;
    written, failure := DumpToCsv(coAuthors, affs);
    r := Ok(coAuthors[..]);
    assert r.value == QuoteAll(names) && written == CsvLines(names, affs);
  }
}
