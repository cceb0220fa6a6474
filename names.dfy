/** The name canonicaliser `_nsf_name_cleanup`: "First [Middle] Last" becomes
    "Last, First [Middle]", with a bare initial in first position swapped
    behind the next given name. */
module Names {
  import opened Wrappers
  import opened Strings

  /** One name through the loop body of `_nsf_name_cleanup`. The only failure
      is the index `[1]` on the list of given names, reached when the text
      before the first ", " of the given-name part is a single token shorter
      than two characters (a first token "," or "X,"), so only a name of
      three or more tokens can fail. A cleaned name always starts with the
      last token followed by ", ". */
  function CleanName(coauthor: string): (r: Result<string>)
    ensures r.Err? ==> r.error == IndexError && |Split(coauthor, " ")| > 2
    ensures r.Ok? ==>
              var last := Split(coauthor, " ")[|Split(coauthor, " ")| - 1];
              |last| + 2 <= |r.value| && r.value[..|last| + 2] == last + ", "
  {
    var nameParts := Split(coauthor, " ");
    var last := nameParts[|nameParts| - 1];
    var reordered := last + ", " + Join(nameParts[..|nameParts| - 1], " ");
    if |nameParts| > 2 then
      var pieces := Split(reordered, ", ");
      if |pieces| < 2 then Err(IndexError)
      else
        var notLastName := Split(pieces[1], " ");
        if |notLastName[0]| < 2 then
          if |notLastName| < 2 then Err(IndexError)
          else Ok(last + ", " + notLastName[1] + " " + notLastName[0])
        else Ok(reordered)
    else Ok(reordered)
  }

  /** `_nsf_name_cleanup` over a list: one output per input, in order; the
      first failing name aborts the whole list. */
  function CleanNames(coauthors: seq<string>): (r: Result<seq<string>>)
    ensures r.Ok? <==> forall i :: 0 <= i < |coauthors| ==> CleanName(coauthors[i]).Ok?
    ensures r.Ok? ==> |r.value| == |coauthors|
    ensures r.Ok? ==> forall i :: 0 <= i < |coauthors| ==> r.value[i] == CleanName(coauthors[i]).value
    ensures r.Err? ==> r.error == IndexError
  {
    if coauthors == [] then Ok([])
    else
      match CleanName(coauthors[0])
      case Err(e) => Err(e)
      case Ok(first) =>
        match CleanNames(coauthors[1..])
        case Err(e) => Err(e)
        case Ok(rest) => Ok([first] + rest)
  }

  /** The facts about the space-separated tokens of a comma-free name that
      the shape lemmas need. */
  lemma TokensFree(raw: string)
    requires ',' !in raw
    ensures forall k :: 0 <= k < |Split(raw, " ")| ==>
              ',' !in Split(raw, " ")[k] && ' ' !in Split(raw, " ")[k]
  {
    var t := Split(raw, " ");
    forall k | 0 <= k < |t| ensures ',' !in t[k] && ' ' !in t[k] {
      if ',' in t[k] {
        SplitPieceChars(raw, " ", k, ',');
      }
      SplitPiecesFree(raw, " ", k);
      if ' ' in t[k] {
        var m :| 0 <= m < |t[k]| && t[k][m] == ' ';
        OccursAtChar(t[k], ' ', m);
        ContainsAt(t[k], " ", m);
      }
    }
  }

  /** A join of comma-free tokens is comma-free. */
  lemma JoinCommaFree(ts: seq<string>)
    requires forall k :: 0 <= k < |ts| ==> ',' !in ts[k]
    ensures ',' !in Join(ts, " ")
  {
    if ',' in Join(ts, " ") {
      JoinChars(ts, " ", ',');
    }
  }

  /** The canonical form of a comma-free name with tokens t[0..n-1]: the
      last token, ", ", then the earlier tokens joined by spaces; except that
      with three or more tokens and a first token shorter than two characters
      the given part is t[1] + " " + t[0], and any further given names are
      dropped. */
  function Canonical(t: seq<string>): string
    requires |t| >= 1
  {
    var n := |t|;
    if n > 2 && |t[0]| < 2 then t[n - 1] + ", " + t[1] + " " + t[0]
    else t[n - 1] + ", " + Join(t[..n - 1], " ")
  }

  /** `_nsf_name_cleanup` maps a comma-free name to the canonical form of
      its space-separated tokens ("M Ann Johnson" becomes "Johnson, Ann M"). */
  lemma CleanNameShape(raw: string)
    requires ',' !in raw
    ensures CleanName(raw) == Ok(Canonical(Split(raw, " ")))
  {
    var t := Split(raw, " ");
    var n := |t|;
    if n > 2 {
      TokensFree(raw);
      var last := t[n - 1];
      var given := Join(t[..n - 1], " ");
      JoinCommaFree(t[..n - 1]);
      NoCommaNoCommaSpace(last);
      NoCommaNoCommaSpace(given);
      SplitCommaSpacePair(last, given);
      SplitJoinChar(t[..n - 1], ' ');
    }
  }

  /** The canonical form of comma-free tokens has exactly one ", ", with the
      last token on its left and the given names on its right: the form the
      deduplicator unpacks into last name and given names. */
  lemma CanonicalWellFormed(t: seq<string>)
    requires |t| >= 1
    requires forall k :: 0 <= k < |t| ==> ',' !in t[k]
    ensures Split(Canonical(t), ", ") ==
            if |t| > 2 && |t[0]| < 2 then [t[|t| - 1], t[1] + " " + t[0]]
            else [t[|t| - 1], Join(t[..|t| - 1], " ")]
  {
    var n := |t|;
    if n > 2 && |t[0]| < 2 {
      SwappedPair(t[n - 1], t[1], t[0]);
    } else {
      JoinCommaFree(t[..n - 1]);
      CommaFreePair(t[n - 1], Join(t[..n - 1], " "));
    }
  }

  lemma SwappedPair(last: string, a: string, b: string)
    requires ',' !in last && ',' !in a && ',' !in b
    ensures Split(last + ", " + a + " " + b, ", ") == [last, a + " " + b]
  {
    assert last + ", " + a + " " + b == last + ", " + (a + " " + b);
    CommaFreePair(last, a + " " + b);
  }

  lemma CommaFreePair(last: string, given: string)
    requires ',' !in last && ',' !in given
    ensures Split(last + ", " + given, ", ") == [last, given]
  {
    NoCommaNoCommaSpace(last);
    NoCommaNoCommaSpace(given);
    SplitCommaSpacePair(last, given);
  }

  /** "John Smith" becomes "Smith, John". */
  lemma CleanNameTwoTokens(raw: string)
    requires raw == "John Smith"
    ensures CleanName(raw) == Ok("Smith, John")
  {
    var t := ["John", "Smith"];
    JoinCons("John", ["Smith"], " ");
    assert t == ["John"] + ["Smith"];
    assert Join(t, " ") == "John" + " " + "Smith" == raw;
    SplitJoinChar(t, ' ');
    CleanNameShape(raw);
    assert t[..1] == ["John"];
    assert Split(raw, " ") == t;
    assert Canonical(t) == "Smith" + ", " + "John";
    assert "Smith" + ", " + "John" == "Smith, John";
  }

  /** Canonicalising a comma-free name whose tokens are known. */
  lemma CleanNameOfTokens(raw: string, t: seq<string>)
    requires |t| >= 1 && raw == Join(t, " ")
    requires forall k :: 0 <= k < |t| ==> ' ' !in t[k] && ',' !in t[k]
    ensures CleanName(raw) == Ok(Canonical(t))
  {
    SplitJoinChar(t, ' ');
    if ',' in raw {
      JoinChars(t, " ", ',');
    }
    CleanNameShape(raw);
  }

  /** "M Ann Johnson" becomes "Johnson, Ann M": the bare initial moves behind
      the next given name. */
  lemma CleanNameSwapsInitial(raw: string)
    requires raw == "M Ann Johnson"
    ensures CleanName(raw) == Ok("Johnson, Ann M")
  {
    var t := ["M", "Ann", "Johnson"];
    assert Join(t, " ") == "M" + " " + ("Ann" + " " + "Johnson");
    CleanNameOfTokens(raw, t);
    assert Canonical(t) == "Johnson" + ", " + "Ann" + " " + "M";
    assert "Johnson" + ", " + "Ann" + " " + "M" == "Johnson, Ann M";
  }

  /** "M Ann Lee Johnson" becomes "Johnson, Ann M": given names after the
      second are dropped by the swap. */
  lemma CleanNameSwapDropsThirdGiven(raw: string)
    requires raw == "M Ann Lee Johnson"
    ensures CleanName(raw) == Ok("Johnson, Ann M")
  {
    var t := ["M", "Ann", "Lee", "Johnson"];
    JoinFourTokens(t);
    CleanNameOfTokens(raw, t);
    assert Canonical(t) == "Johnson" + ", " + "Ann" + " " + "M";
    assert "Johnson" + ", " + "Ann" + " " + "M" == "Johnson, Ann M";
  }

  lemma JoinFourTokens(t: seq<string>)
    requires t == ["M", "Ann", "Lee", "Johnson"]
    ensures Join(t, " ") == "M Ann Lee Johnson"
  {
    JoinCons("Lee", ["Johnson"], " ");
    JoinCons("Ann", ["Lee", "Johnson"], " ");
    JoinCons("M", ["Ann", "Lee", "Johnson"], " ");
    assert t == ["M"] + ["Ann", "Lee", "Johnson"];
    assert ["Ann", "Lee", "Johnson"] == ["Ann"] + ["Lee", "Johnson"];
    assert ["Lee", "Johnson"] == ["Lee"] + ["Johnson"];
    assert Join(t, " ") == "M" + " " + ("Ann" + " " + ("Lee" + " " + "Johnson"));
  }

  /** A first token "X," (an initial followed by a comma) in a name of three
      or more tokens makes the given-name list a single short token, and the
      index `[1]` raises: "X, Ann Johnson" fails with IndexError. */
  lemma CleanNameInitialWithCommaFails(raw: string)
    requires raw == "X, Ann Johnson"
    ensures CleanName(raw) == Err(IndexError)
  {
    var t := ["X,", "Ann", "Johnson"];
    InitialWithCommaTokens(raw);
    var reordered := "Johnson" + ", " + Join(t[..2], " ");
    InitialWithCommaPieces(reordered, t);
    NoCharNoSep("X", ' ');
    assert Split("X", " ") == ["X"];
  }

  lemma InitialWithCommaTokens(raw: string)
    requires raw == "X, Ann Johnson"
    ensures Split(raw, " ") == ["X,", "Ann", "Johnson"]
  {
    var t := ["X,", "Ann", "Johnson"];
    assert Join(t, " ") == "X," + " " + ("Ann" + " " + "Johnson") == raw;
    SplitJoinChar(t, ' ');
  }

  lemma InitialWithCommaPieces(reordered: string, t: seq<string>)
    requires t == ["X,", "Ann", "Johnson"] && reordered == "Johnson" + ", " + Join(t[..2], " ")
    ensures Split(reordered, ", ") == ["Johnson", "X", "Ann"]
  {
    assert t[..2] == ["X,", "Ann"];
    var given := Join(t[..2], " ");
    assert given == Join(["X,", "Ann"], " ");
    assert given == "X," + " " + Join(["Ann"], " ");
    assert "X," + " " + "Ann" == "X" + ", " + "Ann";
    assert given == "X" + ", " + "Ann";
    NoCommaNoCommaSpace("Johnson");
    NoCommaNoCommaSpace("X");
    NoCommaNoCommaSpace("Ann");
    SplitAfterCommaSpace("Johnson", given);
    SplitCommaSpacePair("X", "Ann");
  }
}
