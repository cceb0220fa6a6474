/** The list operations of `_get_coauthors_from_pubs` after deduplication:
    `list.remove` for the author's own name and `list.sort` on strings. */
module Listing {

  /** The first index of `x` in `s`. */
  function FirstIndex(s: seq<string>, x: string): (i: nat)
    requires x in s
    ensures i < |s| && s[i] == x
    ensures forall j :: 0 <= j < i ==> s[j] != x
  {
    if s[0] == x then 0 else 1 + FirstIndex(s[1..], x)
  }

  /** Python's `s.remove(x)` for an `x` that is present: drops its first
      occurrence, so one copy of `x` goes and everything else stays. */
  function RemoveFirst(s: seq<string>, x: string): (r: seq<string>)
    requires x in s
    ensures |r| == |s| - 1
    ensures multiset(r) == multiset(s) - multiset{x}
  {
    var i := FirstIndex(s, x);
    assert s == s[..i] + [x] + s[i + 1..];
    assert multiset(s) == multiset(s[..i]) + multiset{x} + multiset(s[i + 1..]);
    s[..i] + s[i + 1..]
  }

  predicate NoDuplicates(s: seq<string>) {
    forall i, j :: 0 <= i < j < |s| ==> s[i] != s[j]
  }

  /** Lines 158-159: `if my_name and my_name in all_coauthors:
      all_coauthors.remove(my_name)`; the empty name is falsy. */
  function RemoveSelf(names: seq<string>, myName: string): (r: seq<string>)
    ensures multiset(r) ==
              if myName != "" && myName in names then multiset(names) - multiset{myName} else multiset(names)
  {
    if myName != "" && myName in names then RemoveFirst(names, myName) else names
  }

  /** Removing one's own name from a duplicate-free list leaves exactly the
      other names, and the own name no longer occurs. */
  lemma RemoveSelfSpec(names: seq<string>, myName: string)
    requires NoDuplicates(names)
    ensures myName != "" ==> myName !in RemoveSelf(names, myName)
    ensures forall x :: x in RemoveSelf(names, myName) <==> x in names && (myName == "" || x != myName)
    ensures NoDuplicates(RemoveSelf(names, myName))
  {
    if myName != "" && myName in names {
      RemoveFirstMembers(names, myName);
    }
  }

  /** In a duplicate-free list, `remove(x)` takes away exactly `x`. */
  lemma RemoveFirstMembers(s: seq<string>, x: string)
    requires NoDuplicates(s) && x in s
    ensures forall y :: y in RemoveFirst(s, x) <==> y in s && y != x
    ensures NoDuplicates(RemoveFirst(s, x))
  {
    var i := FirstIndex(s, x);
    var r := RemoveFirst(s, x);
    forall a | 0 <= a < |r| ensures r[a] == s[Skip(a, i)] && Skip(a, i) != i {
    }
    forall y | y in s && y != x ensures y in r {
      var b :| 0 <= b < |s| && s[b] == y;
      if b < i {
        assert r[b] == y;
      } else {
        assert r[b - 1] == y;
      }
    }
    forall y | y in r ensures y in s && y != x {
      var a :| 0 <= a < |r| && r[a] == y;
      assert s[Skip(a, i)] != s[i];
    }
    forall a, c | 0 <= a < c < |r| ensures r[a] != r[c] {
      assert Skip(a, i) < Skip(c, i);
    }
  }

  /** The index in the original list of index `a` after removing index `i`. */
  function Skip(a: nat, i: nat): nat {
    if a < i then a else a + 1
  }

  /** Entry `a` of `s.remove(x)` is entry `Skip(a, i)` of `s`, where `i` is
      the first index of `x`, and never entry `i` itself. */
  lemma RemoveFirstAt(s: seq<string>, x: string, a: nat)
    requires x in s && a < |s| - 1
    ensures RemoveFirst(s, x)[a] == s[Skip(a, FirstIndex(s, x))]
    ensures Skip(a, FirstIndex(s, x)) != FirstIndex(s, x)
  {
  }

  // ----- `list.sort()` on strings -----

  /** Python's string comparison `a <= b`: lexicographic on code points. */
  predicate LessEq(a: string, b: string) {
    |a| == 0 || (|b| > 0 && (a[0] < b[0] || (a[0] == b[0] && LessEq(a[1..], b[1..]))))
  }

  lemma {:induction false} LessEqTotal(a: string, b: string)
    ensures LessEq(a, b) || LessEq(b, a)
  {
    if |a| > 0 && |b| > 0 && a[0] == b[0] {
      LessEqTotal(a[1..], b[1..]);
    }
  }

  lemma {:induction false} LessEqTransitive(a: string, b: string, c: string)
    requires LessEq(a, b) && LessEq(b, c)
    ensures LessEq(a, c)
  {
    if |a| > 0 && a[0] == b[0] && b[0] == c[0] {
      LessEqTransitive(a[1..], b[1..], c[1..]);
    }
  }

  lemma {:induction false} LessEqAntisymmetric(a: string, b: string)
    requires LessEq(a, b) && LessEq(b, a)
    ensures a == b
  {
    if |a| > 0 {
      LessEqAntisymmetric(a[1..], b[1..]);
      assert a == [a[0]] + a[1..] && b == [b[0]] + b[1..];
    }
  }

  predicate Sorted(s: seq<string>) {
    forall i, j :: 0 <= i < j < |s| ==> LessEq(s[i], s[j])
  }

  /** Inserts `x` before the first element it does not exceed. */
  function Insert(x: string, s: seq<string>): seq<string> {
    if s == [] then [x]
    else if LessEq(x, s[0]) then [x] + s
    else [s[0]] + Insert(x, s[1..])
  }

  /** `list.sort()`: an insertion sort standing for Python's sort, which
      on a total order yields the same list. The result is in ascending
      order and a permutation of the input. */
  function Sort(s: seq<string>): (r: seq<string>)
    ensures Sorted(r)
    ensures multiset(r) == multiset(s) && |r| == |s|
  {
    if s == [] then []
    else
      var rest := Sort(s[1..]);
      InsertIntoSorted(s, rest);
      Insert(s[0], rest)
  }

  /** Inserting the head of `s` into a sorted permutation of its tail
      gives a sorted permutation of `s`. */
  lemma InsertIntoSorted(s: seq<string>, rest: seq<string>)
    requires s != [] && Sorted(rest) && multiset(rest) == multiset(s[1..])
    ensures Sorted(Insert(s[0], rest))
    ensures multiset(Insert(s[0], rest)) == multiset(s) && |Insert(s[0], rest)| == |s|
  {
    InsertSorted(s[0], rest);
    InsertMultiset(s[0], rest);
    assert s == [s[0]] + s[1..];
    assert |multiset(Insert(s[0], rest))| == |multiset(s)|;
  }

  lemma {:induction false} InsertMultiset(x: string, s: seq<string>)
    ensures multiset(Insert(x, s)) == multiset(s) + multiset{x}
  {
    if s != [] {
      assert s == [s[0]] + s[1..];
      if !LessEq(x, s[0]) {
        InsertMultiset(x, s[1..]);
      }
    }
  }

  lemma {:induction false} InsertSorted(x: string, s: seq<string>)
    requires Sorted(s)
    ensures Sorted(Insert(x, s))
  {
    if s != [] && !LessEq(x, s[0]) {
      LessEqTotal(x, s[0]);
      InsertSorted(x, s[1..]);
      InsertMultiset(x, s[1..]);
      var r := Insert(x, s[1..]);
      forall j | 0 <= j < |r| ensures LessEq(s[0], r[j]) {
        assert r[j] in multiset(r);
        if r[j] != x {
          assert r[j] in multiset(s[1..]);
          var k :| 0 <= k < |s[1..]| && s[1..][k] == r[j];
          assert s[k + 1] == r[j];
        }
      }
    } else if s != [] {
      forall j | 0 < j < |s| ensures LessEq(x, s[j]) {
        LessEqTransitive(x, s[0], s[j]);
      }
    }
  }

  /** A sorted permutation is unique: any ascending arrangement of the same
      strings is the one `Sort` gives, so the model is not tied to the
      insertion sort that defines it. */
  lemma {:induction false} SortedUnique(a: seq<string>, b: seq<string>)
    requires Sorted(a) && Sorted(b) && multiset(a) == multiset(b)
    ensures a == b
    decreases |a|
  {
    assert |a| == |multiset(a)| == |multiset(b)| == |b|;
    if a != [] {
      HeadsEqual(a, b);
      assert a == [a[0]] + a[1..] && b == [b[0]] + b[1..];
      assert multiset(a) == multiset{a[0]} + multiset(a[1..]);
      assert multiset(b) == multiset{b[0]} + multiset(b[1..]);
      assert multiset(a[1..]) == multiset(a) - multiset{a[0]};
      assert multiset(b[1..]) == multiset(b) - multiset{b[0]};
      assert Sorted(a[1..]) && Sorted(b[1..]);
      SortedUnique(a[1..], b[1..]);
    }
  }

  /** The least element of a sorted list is its head. */
  lemma HeadIsLeast(a: seq<string>, x: string)
    requires Sorted(a) && x in a
    ensures LessEq(a[0], x)
  {
    var j :| 0 <= j < |a| && a[j] == x;
    if j == 0 {
      LessEqReflexive(x);
    }
  }

  lemma HeadsEqual(a: seq<string>, b: seq<string>)
    requires Sorted(a) && Sorted(b) && multiset(a) == multiset(b) && a != [] && b != []
    ensures a[0] == b[0]
  {
    assert a[0] in multiset(b);
    assert b[0] in multiset(a);
    HeadIsLeast(a, b[0]);
    HeadIsLeast(b, a[0]);
    LessEqAntisymmetric(a[0], b[0]);
  }

  lemma {:induction false} LessEqReflexive(a: string)
    ensures LessEq(a, a)
  {
    if |a| > 0 {
      LessEqReflexive(a[1..]);
    }
  }

  // ----- `list(set(xs))` -----

  /** A duplicate-free listing of the distinct strings of `xs`, in order of
      first occurrence: the order in which the set is iterated is left to
      CPython, and this is one such order. Each string of `xs` is listed
      exactly once and nothing else is. */
  function Distinct(xs: seq<string>): (r: seq<string>)
    ensures NoDuplicates(r)
    ensures forall x :: x in r <==> x in xs
    decreases |xs|
  {
    if xs == [] then []
    else
      var init := xs[..|xs| - 1];
      var d := Distinct(init);
      assert xs == init + [xs[|xs| - 1]];
      if xs[|xs| - 1] in d then d else d + [xs[|xs| - 1]]
  }

  // ----- duplicate-freedom survives a permutation -----

  lemma {:induction false} NoDuplicatesCount(s: seq<string>, x: string)
    requires NoDuplicates(s)
    ensures multiset(s)[x] <= 1
  {
    if s != [] {
      assert s == [s[0]] + s[1..];
      assert multiset(s) == multiset{s[0]} + multiset(s[1..]);
      NoDuplicatesCount(s[1..], x);
      if s[0] == x {
        assert x !in s[1..];
      }
    }
  }

  lemma DuplicateCount(s: seq<string>, i: nat, j: nat)
    requires i < j < |s| && s[i] == s[j]
    ensures multiset(s)[s[i]] >= 2
  {
    assert s == s[..i] + [s[i]] + s[i + 1..j] + [s[j]] + s[j + 1..];
    assert multiset(s) == multiset(s[..i]) + multiset{s[i]} + multiset(s[i + 1..j]) + multiset{s[j]} + multiset(s[j + 1..]);
  }

  /** A permutation of a duplicate-free list is duplicate-free. */
  lemma PermutationNoDuplicates(s: seq<string>, t: seq<string>)
    requires NoDuplicates(s) && multiset(s) == multiset(t)
    ensures NoDuplicates(t)
  {
    forall i, j | 0 <= i < j < |t| ensures t[i] != t[j] {
      NoDuplicatesCount(s, t[i]);
      if t[i] == t[j] {
        DuplicateCount(t, i, j);
      }
    }
  }
}
