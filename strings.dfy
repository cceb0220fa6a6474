/** The few Python `str` operations the pipeline relies on: `sub in s`,
    `s.split(sep)` with an explicit separator,
    `sep.join(parts)` and `s.lower()`, together with the facts about them that
    the rest of the model uses. Both `in` and `split` rest on a search for
    the first occurrence of a substring, which promises only that a
    match lies inside the string; what they find is stated by the lemmas
    below, so that a proof pays for it only where it asks. */
module Strings {
  import opened Wrappers

  /** `sub` occurs in `s` starting at index `j`. */
  predicate OccursAt(s: string, sub: string, j: nat) {
    j + |sub| <= |s| && s[j..j + |sub|] == sub
  }

  /** The search behind `sub in s` and `s.split(sep)`: the first occurrence
      of `sub` at or after `from`, or `None`. */
  function IndexOfFrom(s: string, sub: string, from: nat): (r: Option<nat>)
    decreases |s| - from
    ensures r.Some? ==> from <= r.value && r.value + |sub| <= |s|
  {
    if from + |sub| > |s| then None
    else if s[from..from + |sub|] == sub then Some(from)
    else IndexOfFrom(s, sub, from + 1)
  }

  /** The first occurrence of `sub` in `s`, or `None`. */
  function IndexOf(s: string, sub: string): (r: Option<nat>)
    ensures r.Some? ==> r.value + |sub| <= |s|
  {
    IndexOfFrom(s, sub, 0)
  }

  /** Python's `sub in s`. */
  predicate Contains(s: string, sub: string) {
    IndexOf(s, sub).Some?
  }

  /** Python's `s.split(sep)` for a non-empty separator: the pieces between
      the non-overlapping occurrences of `sep`, scanned from the left. There
      is always at least one piece; `SplitMany` says when there are more. */
  function Split(s: string, sep: string): (parts: seq<string>)
    requires |sep| > 0
    decreases |s|
    ensures |parts| >= 1
  {
    match IndexOf(s, sep)
    case None => [s]
    case Some(i) => [s[..i]] + Split(s[i + |sep|..], sep)
  }

  /** `s.split(sep)` gives more than one piece exactly when `sep` occurs. */
  lemma SplitMany(s: string, sep: string)
    requires |sep| > 0
    ensures |Split(s, sep)| > 1 <==> Contains(s, sep)
  {
  }

  /** Python's `sep.join(parts)`. */
  function Join(parts: seq<string>, sep: string): string {
    if |parts| == 0 then ""
    else if |parts| == 1 then parts[0]
    else parts[0] + sep + Join(parts[1..], sep)
  }

  function LowerChar(c: char): char {
    if 'A' <= c <= 'Z' then (c as int + 32) as char else c
  }

  /** Python's `s.lower()`, restricted to ASCII letters; it keeps the
      length, and `LowerSpec` states what happens to each character. */
  function Lower(s: string): (r: string)
    ensures |r| == |s|
  {
    seq(|s|, i requires 0 <= i < |s| => LowerChar(s[i]))
  }

  /** No ASCII capital is left, every other character is unchanged, and
      a capital becomes its small letter. */
  lemma LowerSpec(s: string)
    ensures forall i :: 0 <= i < |s| ==> !('A' <= Lower(s)[i] <= 'Z')
    ensures forall i :: 0 <= i < |s| && !('A' <= s[i] <= 'Z') ==> Lower(s)[i] == s[i]
    ensures forall i :: 0 <= i < |s| && 'A' <= s[i] <= 'Z' ==> Lower(s)[i] as int == s[i] as int + 32
  {
  }

  /** The search from `from` finds the first occurrence at or after `from`,
      and finds nothing only when there is none. */
  lemma {:induction false} IndexOfFromSpec(s: string, sub: string, from: nat)
    ensures var r := IndexOfFrom(s, sub, from);
            (r.Some? ==> from <= r.value && OccursAt(s, sub, r.value)) &&
            (r.Some? ==> forall j: nat :: from <= j < r.value ==> !OccursAt(s, sub, j)) &&
            (r.None? ==> forall j: nat :: from <= j ==> !OccursAt(s, sub, j))
    decreases |s| - from
  {
    if from + |sub| <= |s| && s[from..from + |sub|] != sub {
      IndexOfFromSpec(s, sub, from + 1);
    }
  }

  /** The search behind `sub in s` finds the first occurrence of `sub`, and
      finds nothing only when there is none. */
  lemma IndexOfSpec(s: string, sub: string)
    ensures var r := IndexOf(s, sub);
            (r.Some? ==> OccursAt(s, sub, r.value)) &&
            (r.Some? ==> forall j: nat :: j < r.value ==> !OccursAt(s, sub, j)) &&
            (r.None? ==> forall j: nat :: !OccursAt(s, sub, j))
  {
    IndexOfFromSpec(s, sub, 0);
  }

  /** `sub in s` holds exactly when `sub` occurs somewhere in `s`. */
  lemma ContainsOccurs(s: string, sub: string)
    ensures Contains(s, sub) <==> exists j: nat :: OccursAt(s, sub, j)
  {
    IndexOfSpec(s, sub);
  }

  /** An occurrence at `j` is found, at `j` or earlier. */
  lemma ContainsAt(s: string, sub: string, j: nat)
    requires OccursAt(s, sub, j)
    ensures Contains(s, sub)
    ensures IndexOf(s, sub).value <= j
  {
    IndexOfSpec(s, sub);
  }

  /** The search result is pinned down by an occurrence with none before it. */
  lemma FoundFirst(s: string, sub: string, i: nat)
    requires OccursAt(s, sub, i)
    requires forall j: nat :: j < i ==> !OccursAt(s, sub, j)
    ensures IndexOf(s, sub) == Some(i)
  {
    IndexOfSpec(s, sub);
  }

  /** Without any occurrence, nothing is found. */
  lemma NotFound(s: string, sub: string)
    requires forall j: nat :: !OccursAt(s, sub, j)
    ensures !Contains(s, sub)
  {
    IndexOfSpec(s, sub);
  }

  lemma SliceAround(s: string, i: nat, n: nat)
    requires i + n <= |s|
    ensures s == s[..i] + s[i..i + n] + s[i + n..]
  {
  }

  lemma JoinCons(head: string, rest: seq<string>, sep: string)
    requires |rest| >= 1
    ensures Join([head] + rest, sep) == head + sep + Join(rest, sep)
  {
    assert ([head] + rest)[1..] == rest;
  }

  /** Joining the pieces of a split gives back the original string. */
  lemma {:induction false} JoinSplit(s: string, sep: string)
    requires |sep| > 0
    ensures Join(Split(s, sep), sep) == s
    decreases |s|
  {
    var idx := IndexOf(s, sep);
    if idx.None? {
      assert Split(s, sep) == [s];
    } else {
      IndexOfSpec(s, sep);
      var i := idx.value;
      var tail := s[i + |sep|..];
      calc {
        Join(Split(s, sep), sep);
        Join([s[..i]] + Split(tail, sep), sep);
        { JoinCons(s[..i], Split(tail, sep), sep); }
        s[..i] + sep + Join(Split(tail, sep), sep);
        { JoinSplit(tail, sep); }
        s[..i] + sep + tail;
        { SliceAround(s, i, |sep|); }
        s;
      }
    }
  }

  /** Every piece of a split is free of the separator. */
  lemma {:induction false} SplitPiecesFree(s: string, sep: string, k: nat)
    requires |sep| > 0
    requires k < |Split(s, sep)|
    ensures !Contains(Split(s, sep)[k], sep)
    decreases |s|
  {
    IndexOfSpec(s, sep);
    match IndexOf(s, sep)
    case None =>
    case Some(i) =>
      if k == 0 {
        var head := s[..i];
        forall j: nat ensures !OccursAt(head, sep, j) {
          if j + |sep| <= |head| {
            assert !OccursAt(s, sep, j);
            assert head[j..j + |sep|] == s[j..j + |sep|];
          }
        }
        NotFound(head, sep);
      } else {
        SplitPiecesFree(s[i + |sep|..], sep, k - 1);
      }
  }

  /** No piece of a split holds the separator, all pieces at once. */
  lemma SplitAllPiecesFree(s: string, sep: string)
    requires |sep| > 0
    ensures forall k :: 0 <= k < |Split(s, sep)| ==> !Contains(Split(s, sep)[k], sep)
  {
    forall k | 0 <= k < |Split(s, sep)| ensures !Contains(Split(s, sep)[k], sep) {
      SplitPiecesFree(s, sep, k);
    }
  }

  /** Every character of a piece of a split comes from the split string. */
  lemma {:induction false} SplitPieceChars(s: string, sep: string, k: nat, c: char)
    requires |sep| > 0
    requires k < |Split(s, sep)|
    requires c in Split(s, sep)[k]
    ensures c in s
    decreases |s|
  {
    match IndexOf(s, sep)
    case None =>
    case Some(i) =>
      IndexOfSpec(s, sep);
      if k == 0 {
        assert s[..i] == Split(s, sep)[0];
        var m :| 0 <= m < i && s[..i][m] == c;
        assert s[m] == c;
      } else {
        var tail := s[i + |sep|..];
        SplitPieceChars(tail, sep, k - 1, c);
        var m :| 0 <= m < |tail| && tail[m] == c;
        assert s[i + |sep| + m] == c;
      }
  }

  /** Splitting `a + sep + b`, when `sep` is first found right after `a`,
      peels off `a`. */
  lemma SplitAfter(a: string, sep: string, b: string)
    requires |sep| > 0
    requires forall j: nat :: j < |a| ==> !OccursAt(a + sep + b, sep, j)
    ensures Split(a + sep + b, sep) == [a] + Split(b, sep)
  {
    var s := a + sep + b;
    assert s[|a|..|a| + |sep|] == sep;
    FoundFirst(s, sep, |a|);
    assert s[..|a|] == a;
    assert s[|a| + |sep|..] == b;
  }

  /** A string without the separator splits into itself alone. */
  lemma SplitNoSep(s: string, sep: string)
    requires |sep| > 0
    requires !Contains(s, sep)
    ensures Split(s, sep) == [s]
  {
  }

  /** The pieces after the first one, joined back, are exactly the text after
      the first separator (`sep.join(s.split(sep)[1:])`). */
  lemma SplitTail(s: string, sep: string)
    requires |sep| > 0
    requires |Split(s, sep)| > 1
    ensures Contains(s, sep)
    ensures Join(Split(s, sep)[1..], sep) == s[IndexOf(s, sep).value + |sep|..]
  {
    var i := IndexOf(s, sep).value;
    JoinSplit(s[i + |sep|..], sep);
  }

  /** A one-character separator is found exactly where the character is. */
  lemma OccursAtChar(s: string, c: char, j: nat)
    ensures OccursAt(s, [c], j) <==> j < |s| && s[j] == c
  {
    if j < |s| {
      assert s[j..j + 1] == [s[j]];
    }
  }

  lemma NoCharNoSep(s: string, c: char)
    requires c !in s
    ensures !Contains(s, [c])
  {
    forall j: nat ensures !OccursAt(s, [c], j) {
      OccursAtChar(s, c, j);
    }
    NotFound(s, [c]);
  }

  /** With a one-character separator that occurs in none of the parts,
      splitting their join gives the parts back. */
  lemma {:induction false} SplitJoinChar(ts: seq<string>, c: char)
    requires |ts| >= 1
    requires forall k :: 0 <= k < |ts| ==> c !in ts[k]
    ensures Split(Join(ts, [c]), [c]) == ts
    decreases |ts|
  {
    if |ts| == 1 {
      NoCharNoSep(ts[0], c);
    } else {
      var rest := Join(ts[1..], [c]);
      forall j: nat | j < |ts[0]| ensures !OccursAt(ts[0] + [c] + rest, [c], j) {
        OccursAtChar(ts[0] + [c] + rest, c, j);
        assert (ts[0] + [c] + rest)[j] == ts[0][j];
      }
      SplitAfter(ts[0], [c], rest);
      SplitJoinChar(ts[1..], c);
    }
  }

  /** An exact-case occurrence survives lowering both strings, so
      `sub in s` implies `sub.lower() in s.lower()`. */
  lemma LowerKeepsOccurrence(s: string, sub: string, j: nat)
    requires OccursAt(s, sub, j)
    ensures OccursAt(Lower(s), Lower(sub), j)
    ensures Contains(Lower(s), Lower(sub))
  {
    var ls, lsub := Lower(s), Lower(sub);
    assert ls[j..j + |sub|] == lsub by {
      forall k | 0 <= k < |sub| ensures ls[j + k] == lsub[k] {
        assert s[j + k] == s[j..j + |sub|][k];
      }
    }
    ContainsAt(ls, lsub, j);
  }

  /** Every character of a join comes from a part or from the separator. */
  lemma {:induction false} JoinChars(parts: seq<string>, sep: string, c: char)
    requires c in Join(parts, sep)
    ensures c in sep || exists k :: 0 <= k < |parts| && c in parts[k]
    decreases |parts|
  {
    if |parts| > 1 {
      var rest := Join(parts[1..], sep);
      if c !in parts[0] && c !in sep {
        assert c in rest;
        JoinChars(parts[1..], sep, c);
        var k :| 0 <= k < |parts| - 1 && c in parts[1..][k];
        assert c in parts[k + 1];
      }
    }
  }

  /** The separator ", " can only start at a comma followed by a space. */
  lemma OccursAtCommaSpace(s: string, j: nat)
    requires OccursAt(s, ", ", j)
    ensures j + 1 < |s| && s[j] == ',' && s[j + 1] == ' '
  {
    assert s[j..j + 2][0] == s[j] && s[j..j + 2][1] == s[j + 1];
  }

  /** A string without a comma does not contain ", ". */
  lemma NoCommaNoCommaSpace(s: string)
    requires ',' !in s
    ensures !Contains(s, ", ")
  {
    forall j: nat ensures !OccursAt(s, ", ", j) {
      if OccursAt(s, ", ", j) {
        OccursAtCommaSpace(s, j);
      }
    }
    NotFound(s, ", ");
  }

  /** `(a + ", " + b).split(", ")` starts with `a` when `a` has no ", ". */
  lemma SplitAfterCommaSpace(a: string, b: string)
    requires !Contains(a, ", ")
    ensures Split(a + ", " + b, ", ") == [a] + Split(b, ", ")
  {
    IndexOfSpec(a, ", ");
    var s := a + ", " + b;
    forall j: nat | j < |a| ensures !OccursAt(s, ", ", j) {
      if j + 1 < |a| {
        assert !OccursAt(a, ", ", j);
        assert s[j..j + 2] == a[j..j + 2];
      } else {
        assert s[j + 1] == ',';
      }
    }
    SplitAfter(a, ", ", b);
  }

  /** `(a + ", " + b).split(", ") == [a, b]` when neither side contains ", ". */
  lemma SplitCommaSpacePair(a: string, b: string)
    requires !Contains(a, ", ") && !Contains(b, ", ")
    ensures Split(a + ", " + b, ", ") == [a, b]
  {
    SplitAfterCommaSpace(a, b);
    SplitNoSep(b, ", ");
  }
}
