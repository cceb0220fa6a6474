/** The affiliation cleaner `_nsf_affiliation_cleanup`: an affiliation that
    mentions an academic title loses the title part, by the first of three
    rules that applies (" at ", "@", ", "); any other affiliation is kept. */
module Affiliations {
  import opened Wrappers
  import opened Strings

  /** The words whose presence, in any letter case, marks a title. */
  const TitleWords: seq<string> :=
    ["professor", "student", "scientist", "researcher", "lecturer", "fellow", "scholar"]

  /** `any(word in affiliation.lower() for word in [...])`: some title word
      occurs somewhere in the lowercased affiliation. */
  predicate HasTitle(a: string)
    ensures HasTitle(a) <==> exists w: nat, j: nat :: w < |TitleWords| && OccursAt(Lower(a), TitleWords[w], j)
  {
    TitleWordsOccur(a);
    exists w :: 0 <= w < |TitleWords| && Contains(Lower(a), TitleWords[w])
  }

  lemma TitleWordsOccur(a: string)
    ensures forall w :: 0 <= w < |TitleWords| ==>
              (Contains(Lower(a), TitleWords[w]) <==> exists j: nat :: OccursAt(Lower(a), TitleWords[w], j))
  {
    forall w | 0 <= w < |TitleWords|
      ensures Contains(Lower(a), TitleWords[w]) <==> exists j: nat :: OccursAt(Lower(a), TitleWords[w], j)
    {
      ContainsOccurs(Lower(a), TitleWords[w]);
    }
  }

  /** One affiliation through the loop body of `_nsf_affiliation_cleanup`.
      The rules test the lowercased text but split the original, so the
      index `[1]` fails when only a differently-cased " at " (or an "@" not
      followed by a space) is present. Only an affiliation with a title word
      can fail; the empty one and any without a title word come back
      unchanged. */
  function CleanAffiliation(a: string): (r: Result<string>)
    ensures r.Err? ==> r.error == IndexError && a != "" && HasTitle(a)
    ensures a == "" || !HasTitle(a) ==> r == Ok(a)
  {
    if a == "" then Ok(a)
    else
      var parts := Split(a, ", ");
      if HasTitle(a) then
        if Contains(Lower(a), " at ") then
          var pieces := Split(a, " at ");
          if |pieces| < 2 then Err(IndexError) else Ok(pieces[1])
        else if Contains(Lower(a), "@") then
          var pieces := Split(a, "@ ");
          if |pieces| < 2 then Err(IndexError) else Ok(pieces[1])
        else if |parts| > 1 then
          if |parts| > 2 then Ok(Join(parts[1..], ", ")) else Ok(parts[1])
        else Ok("")
      else Ok(a)
  }

  /** `_nsf_affiliation_cleanup` over a list: one output per input, in
      order; the first failing affiliation aborts the whole list. */
  function CleanAffiliations(affs: seq<string>): (r: Result<seq<string>>)
    ensures r.Ok? <==> forall i :: 0 <= i < |affs| ==> CleanAffiliation(affs[i]).Ok?
    ensures r.Ok? ==> |r.value| == |affs|
    ensures r.Ok? ==> forall i :: 0 <= i < |affs| ==> r.value[i] == CleanAffiliation(affs[i]).value
    ensures r.Err? ==> r.error == IndexError
  {
    if affs == [] then Ok([])
    else
      match CleanAffiliation(affs[0])
      case Err(e) => Err(e)
      case Ok(first) =>
        match CleanAffiliations(affs[1..])
        case Err(e) => Err(e)
        case Ok(rest) => Ok([first] + rest)
  }

  // ----- helpers on splitting -----

  /** The second piece of a split is the text between the first occurrence
      of the separator and the next one (or the end). */
  lemma SplitSecond(s: string, sep: string)
    requires |sep| > 0 && Contains(s, sep)
    ensures |Split(s, sep)| >= 2
    ensures var rest := s[IndexOf(s, sep).value + |sep|..];
            Split(s, sep)[1] == if Contains(rest, sep) then rest[..IndexOf(rest, sep).value] else rest
  {
  }

  lemma LowerAppend(a: string, b: string)
    ensures Lower(a + b) == Lower(a) + Lower(b)
  {
  }

  /** An occurrence of an exact-case separator survives lowering. */
  lemma LowerContains(a: string, sep: string)
    requires Contains(a, sep) && Lower(sep) == sep
    ensures Contains(Lower(a), sep)
  {
    IndexOfSpec(a, sep);
    LowerKeepsOccurrence(a, sep, IndexOf(a, sep).value);
  }

  /** A title word in a prefix is a title word of the whole. */
  lemma TitleInPrefix(title: string, rest: string)
    requires HasTitle(title)
    ensures HasTitle(title + rest)
  {
    var w :| 0 <= w < |TitleWords| && Contains(Lower(title), TitleWords[w]);
    IndexOfSpec(Lower(title), TitleWords[w]);
    var j := IndexOf(Lower(title), TitleWords[w]).value;
    LowerAppend(title, rest);
    var l := Lower(title + rest);
    assert l[j..j + |TitleWords[w]|] == Lower(title)[j..j + |TitleWords[w]|];
    ContainsAt(l, TitleWords[w], j);
  }

  // ----- the rules -----

  /** The " at " rule: with a title word and an exact-case " at ", the
      result is the text after the first " at " up to the next one (or the
      end), not the whole tail. */
  lemma AtRule(a: string)
    requires HasTitle(a) && Contains(a, " at ")
    ensures var rest := a[IndexOf(a, " at ").value + 4..];
            CleanAffiliation(a) == Ok(if Contains(rest, " at ") then rest[..IndexOf(rest, " at ").value] else rest)
  {
    LowerContains(a, " at ");
    SplitSecond(a, " at ");
  }

  /** The " at " rule fails when " at " occurs only in another letter case
      ("Professor AT Example"). */
  lemma AtRuleFails(a: string)
    requires HasTitle(a) && Contains(Lower(a), " at ") && !Contains(a, " at ")
    ensures CleanAffiliation(a) == Err(IndexError)
  {
    SplitNoSep(a, " at ");
  }

  /** The "@" rule: with a title word, no " at " in any case, and an "@ ",
      the result is the text after the first "@ " up to the next one. */
  lemma AtSignRule(a: string)
    requires HasTitle(a) && !Contains(Lower(a), " at ") && Contains(a, "@ ")
    ensures var rest := a[IndexOf(a, "@ ").value + 2..];
            CleanAffiliation(a) == Ok(if Contains(rest, "@ ") then rest[..IndexOf(rest, "@ ").value] else rest)
  {
    IndexOfSpec(a, "@ ");
    var j := IndexOf(a, "@ ").value;
    assert a[j] == a[j..j + 2][0] == '@';
    OccursAtChar(Lower(a), '@', j);
    ContainsAt(Lower(a), "@", j);
    SplitSecond(a, "@ ");
  }

  /** The "@" rule fails when no "@" is followed by a space
      ("Student @Example"). */
  lemma AtSignRuleFails(a: string)
    requires HasTitle(a) && !Contains(Lower(a), " at ") && '@' in a && !Contains(a, "@ ")
    ensures CleanAffiliation(a) == Err(IndexError)
  {
    var j :| 0 <= j < |a| && a[j] == '@';
    OccursAtChar(Lower(a), '@', j);
    ContainsAt(Lower(a), "@", j);
    SplitNoSep(a, "@ ");
  }

  /** The comma rule: with a title word and neither " at " nor "@", the
      result is everything after the first ", ", or "" when there is none. */
  lemma CommaRule(a: string)
    requires HasTitle(a) && !Contains(Lower(a), " at ") && '@' !in a
    ensures CleanAffiliation(a) == Ok(if Contains(a, ", ") then a[IndexOf(a, ", ").value + 2..] else "")
  {
    forall j: nat ensures !OccursAt(Lower(a), "@", j) {
      OccursAtChar(Lower(a), '@', j);
    }
    NotFound(Lower(a), "@");
    if Contains(a, ", ") {
      SplitSecond(a, ", ");
      SplitTail(a, ", ");
      var parts := Split(a, ", ");
      if |parts| == 2 {
        assert parts[1..] == [parts[1]];
      }
    } else {
      SplitNoSep(a, ", ");
    }
  }

  /** "Professor at Example University" gives "Example University": a
      one-word title, " at ", and a place without " at ". */
  lemma AtExample(title: string, place: string)
    requires HasTitle(title) && ' ' !in title && !Contains(place, " at ")
    ensures CleanAffiliation(title + " at " + place) == Ok(place)
  {
    var a := title + " at " + place;
    TitleInPrefix(title, " at " + place);
    assert title + (" at " + place) == a;
    forall j: nat | j < |title| ensures !OccursAt(a, " at ", j) {
      assert a[j] == title[j];
    }
    SplitAfter(title, " at ", place);
    LowerContains(a, " at ") by {
      assert OccursAt(a, " at ", |title|);
      ContainsAt(a, " at ", |title|);
    }
    SplitNoSep(place, " at ");
  }

  /** "Professor, Dept of Physics, Example University" gives
      "Dept of Physics, Example University". */
  lemma CommaExample(title: string, rest: string)
    requires HasTitle(title) && ',' !in title
    requires !Contains(Lower(title + ", " + rest), " at ") && '@' !in title + ", " + rest
    ensures CleanAffiliation(title + ", " + rest) == Ok(rest)
  {
    var a := title + ", " + rest;
    TitleInPrefix(title, ", " + rest);
    assert title + (", " + rest) == a;
    forall j: nat | j < |title| ensures !OccursAt(a, ", ", j) {
      assert a[j] == title[j];
    }
    assert OccursAt(a, ", ", |title|);
    FoundFirst(a, ", ", |title|);
    CommaRule(a);
    assert a[|title| + 2..] == rest;
  }
}
