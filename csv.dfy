/** The output side of `_dump_to_csv`: each name is overwritten in place by
    its quoted form, and one line per name is written. The file itself is
    the sequence of lines written. */
module Csv {
  import opened Wrappers
  import opened Strings

  /** `f'"{s}"'`: the string between one double quote on each side. */
  function Quote(s: string): (r: string)
    ensures |r| == |s| + 2
    ensures r[0] == '"' && r[|r| - 1] == '"'
    ensures r[1..|r| - 1] == s
  {
    "\"" + s + "\""
  }

  /** `f' {co_authors[i]},"{affiliations[i]}" \n'`, where `co_authors[i]`
      has already been quoted. */
  function CsvLine(name: string, affiliation: string): string {
    " " + Quote(name) + "," + Quote(affiliation) + " \n"
  }

  /** Every name wrapped in double quotes, in order. */
  function QuoteAll(names: seq<string>): (r: seq<string>)
    ensures |r| == |names|
    ensures forall i :: 0 <= i < |names| ==>
              && |r[i]| == |names[i]| + 2
              && r[i][0] == '"' && r[i][|r[i]| - 1] == '"'
              && r[i][1..|r[i]| - 1] == names[i]
  {
    seq(|names|, i requires 0 <= i < |names| => Quote(names[i]))
  }

  function CsvLines(names: seq<string>, affiliations: seq<string>): (r: seq<string>)
    requires |names| <= |affiliations|
    ensures |r| == |names|
  {
    seq(|names|, i requires 0 <= i < |names| => CsvLine(names[i], affiliations[i]))
  }

  /** Reads one line back: the text between `' "'` and the first `'","'`
      is the name, the rest up to `'" \n'` the affiliation. */
  function ParseCsvLine(line: string): Option<(string, string)> {
    if |line| < 5 || line[..2] != " \"" || line[|line| - 3..] != "\" \n" then None
    else
      var body := line[2..|line| - 3];
      match IndexOf(body, "\",\"")
      case None => None
      case Some(i) => Some((body[..i], body[i + 3..]))
  }

  /** A line reads back as the name and affiliation it was written from, as
      long as the name holds no double quote. */
  lemma ParseCsvLineRoundTrip(name: string, affiliation: string)
    requires '"' !in name
    ensures ParseCsvLine(CsvLine(name, affiliation)) == Some((name, affiliation))
  {
    var line := CsvLine(name, affiliation);
    var body := name + "\",\"" + affiliation;
    assert line == " \"" + body + "\" \n";
    assert line[2..|line| - 3] == body;
    assert line[..2] == " \"" && line[|line| - 3..] == "\" \n";
    forall j: nat | j < |name| ensures !OccursAt(body, "\",\"", j) {
      assert body[j] == name[j];
    }
    assert OccursAt(body, "\",\"", |name|);
    FoundFirst(body, "\",\"", |name|);
    assert body[..|name|] == name && body[|name| + 3..] == affiliation;
  }

  /** `_dump_to_csv`: the loop quotes `co_authors[i]` in place and writes its
      line. With fewer affiliations than names, `affiliations[i]` raises an
      IndexError at the first missing index, after that name has already
      been quoted; the lines before it have been written. */
  method DumpToCsv(coAuthors: array<string>, affiliations: seq<string>)
    returns (written: seq<string>, failure: Option<Error>)
    modifies coAuthors
    ensures coAuthors.Length <= |affiliations| ==>
              failure == None
              && coAuthors[..] == QuoteAll(old(coAuthors[..]))
              && written == CsvLines(old(coAuthors[..]), affiliations)
    ensures |affiliations| < coAuthors.Length ==>
              var k := |affiliations|;
              failure == Some(IndexError)
              && coAuthors[..] == QuoteAll(old(coAuthors[..k + 1])) + old(coAuthors[k + 1..])
              && written == CsvLines(old(coAuthors[..k]), affiliations)
  {
    written := [];
    var i := 0;
    while i < coAuthors.Length
      invariant 0 <= i <= coAuthors.Length && i <= |affiliations|
      invariant coAuthors[..i] == QuoteAll(old(coAuthors[..i]))
      invariant coAuthors[i..] == old(coAuthors[i..])
      invariant written == CsvLines(old(coAuthors[..i]), affiliations)
    {
      assert coAuthors[i] == coAuthors[i..][0] == old(coAuthors[i..])[0] == old(coAuthors[i]);
      ghost var quotedBefore := coAuthors[..i];
      var name := coAuthors[i];
      coAuthors[i] := "\"" + name + "\"";
      assert coAuthors[i + 1..] == old(coAuthors[i + 1..]);
      assert coAuthors[..i + 1] == quotedBefore + [Quote(old(coAuthors[i]))];
      assert old(coAuthors[..i + 1]) == old(coAuthors[..i]) + [old(coAuthors[i])];
      assert coAuthors[..i + 1] == QuoteAll(old(coAuthors[..i + 1]));
      if i >= |affiliations| {
        assert coAuthors[..] == coAuthors[..i + 1] + coAuthors[i + 1..];
        failure := Some(IndexError);
        return;
      }
      written := written + [" " + coAuthors[i] + ",\"" + affiliations[i] + "\" \n"];
      assert "," + Quote(affiliations[i]) + " \n" == ",\"" + affiliations[i] + "\" \n";
      assert written[i] == CsvLine(name, affiliations[i]);
      assert written == CsvLines(old(coAuthors[..i + 1]), affiliations);
      i := i + 1;
    }
    assert coAuthors[..] == coAuthors[..i];
    failure := None;
  }
}
