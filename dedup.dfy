/** The key-based deduplicator of `_get_coauthors_from_pubs`: canonical names
    "Last, Given" are merged by the key (last name, first given-name token),
    keeping the richer variant ("Smith, John A") over the bare one
    ("Smith, John"). */
module Dedup {
  import opened Wrappers
  import opened Strings
  import opened Listing

  /** The identity of a person for merging: `(last_name, first_name)` with
      `first_name` cut to its first space-separated token. */
  datatype Key = Key(last: string, first: string)

  /** `last_name, first_name = coauthor.split(", ")` unpacks without a
      ValueError exactly when the name holds exactly one ", ". */
  predicate WellFormed(name: string) {
    |Split(name, ", ")| == 2
  }

  predicate AllWellFormed(names: seq<string>) {
    forall i :: 0 <= i < |names| ==> WellFormed(names[i])
  }

  /** Everything after the comma: `coauthor.split(", ")[1]`. */
  function Given(name: string): string
    requires WellFormed(name)
  {
    Split(name, ", ")[1]
  }

  function KeyOf(name: string): Key
    requires WellFormed(name)
  {
    var parts := Split(name, ", ");
    Key(parts[0], Split(parts[1], " ")[0])
  }

  /** The after-comma part is more than the bare first token, so the name is
      a variant carrying extra given names or initials. */
  predicate Richer(name: string)
    requires WellFormed(name)
  {
    Given(name) != KeyOf(name).first
  }

  /** The bare variant `last_name + ", " + first_name` of a key. */
  function Bare(k: Key): string {
    k.last + ", " + k.first
  }

  /** The loop state: the `seen_names` set and the `unique_coauthors` list. */
  datatype State = State(seen: set<Key>, unique: seq<string>)

  /** One iteration of the loop over `all_coauthors`: a malformed name
      raises ValueError; otherwise the name's key is seen afterwards, the
      list grows only for a new key, and it gains no name but this one. */
  function Step(st: State, coauthor: string): (r: Result<State>)
    ensures r.Err? <==> !WellFormed(coauthor)
    ensures r.Err? ==> r.error == ValueError
    ensures r.Ok? ==> r.value.seen == st.seen + {KeyOf(coauthor)}
    ensures r.Ok? ==> |r.value.unique| == |st.unique| + (if KeyOf(coauthor) in st.seen then 0 else 1)
    ensures r.Ok? ==> forall x :: x in r.value.unique ==> x in st.unique || x == coauthor
  {
    if !WellFormed(coauthor) then Err(ValueError)
    else
      var k := KeyOf(coauthor);
      if k !in st.seen then Ok(State(st.seen + {k}, st.unique + [coauthor]))
      else if Given(coauthor) != k.first then
        if Bare(k) in st.unique then
          var rest := RemoveFirst(st.unique, Bare(k));
          assert forall x :: x in rest ==> x in multiset(rest);
          Ok(State(st.seen, rest + [coauthor]))
        else Ok(st)
      else Ok(st)
  }

  /** The loop run over `names` from the empty state; the first malformed name
      aborts it, so it fails exactly when some name does not hold exactly
      one ", ", and then with a ValueError. */
  function Fold(names: seq<string>): (r: Result<State>)
    ensures r.Ok? <==> AllWellFormed(names)
    ensures r.Err? ==> r.error == ValueError
    decreases |names|
  {
    if names == [] then Ok(State({}, []))
    else
      var p := names[..|names| - 1];
      assert AllWellFormed(names) <==> AllWellFormed(p) && WellFormed(names[|names| - 1]);
      match Fold(p)
      case Err(e) => Err(e)
      case Ok(st) => Step(st, names[|names| - 1])
  }

  /** The keys occurring in a list of well-formed names. */
  function KeysOf(names: seq<string>): set<Key> {
    set x | x in names && WellFormed(x) :: KeyOf(x)
  }

  /** No two entries share a key. */
  predicate KeysDistinct(u: seq<string>)
    requires AllWellFormed(u)
  {
    forall i, j :: 0 <= i < j < |u| ==> KeyOf(u[i]) != KeyOf(u[j])
  }

  predicate IsRicherVariant(x: string, k: Key) {
    WellFormed(x) && KeyOf(x) == k && Given(x) != k.first
  }

  /** The index of the first richer variant of key `k` in `names`, if any. */
  function FirstRicher(names: seq<string>, k: Key): (r: Option<nat>)
    decreases |names|
    ensures r.Some? ==> r.value < |names| && IsRicherVariant(names[r.value], k)
    ensures r.Some? ==> forall j :: 0 <= j < r.value ==> !IsRicherVariant(names[j], k)
    ensures r.None? ==> forall j :: 0 <= j < |names| ==> !IsRicherVariant(names[j], k)
  {
    if names == [] then None
    else
      var init := names[..|names| - 1];
      match FirstRicher(init, k)
      case Some(i) => Some(i)
      case None => if IsRicherVariant(names[|names| - 1], k) then Some(|names| - 1) else None
  }

  /** The entry the deduplicator keeps for key `k`: the first richer variant
      if there is one, otherwise the bare "Last, First". */
  function Representative(names: seq<string>, k: Key): (r: string)
    ensures (exists i :: 0 <= i < |names| && IsRicherVariant(names[i], k)) ==>
              r in names && IsRicherVariant(r, k)
    ensures (forall i :: 0 <= i < |names| ==> !IsRicherVariant(names[i], k)) ==> r == Bare(k)
  {
    match FirstRicher(names, k)
    case Some(i) => names[i]
    case None => Bare(k)
  }

  /** A representative is a richer variant, unless no name is a richer
      variant of its key: a bare "Last, First" is kept only when nothing
      richer occurs. */
  lemma RepresentativeRicherOrAlone(names: seq<string>, x: string)
    requires WellFormed(x) && x == Representative(names, KeyOf(x))
    ensures Richer(x) || forall i :: 0 <= i < |names| ==> !IsRicherVariant(names[i], KeyOf(x))
  {
    if exists i :: 0 <= i < |names| && IsRicherVariant(names[i], KeyOf(x)) {
      assert IsRicherVariant(x, KeyOf(x));
    }
  }

  /** What the loop keeps true about the names processed so far. */
  ghost predicate Inv(names: seq<string>, st: State) {
    && AllWellFormed(names)
    && AllWellFormed(st.unique)
    && st.seen == KeysOf(names)
    && (forall x :: x in st.unique ==> x in names)
    && KeysDistinct(st.unique)
    && (forall k :: k in st.seen ==> Representative(names, k) in st.unique)
  }

  // ----- facts about keys -----

  /** The last name holds no ", " and the first token no space. */
  lemma KeyParts(name: string)
    requires WellFormed(name)
    ensures !Contains(KeyOf(name).last, ", ")
    ensures !Contains(KeyOf(name).first, ", ")
  {
    var parts := Split(name, ", ");
    SplitPiecesFree(name, ", ", 0);
    var words := Split(parts[1], " ");
    SplitPiecesFree(parts[1], " ", 0);
    var first := words[0];
    forall j: nat ensures !OccursAt(first, ", ", j) {
      if OccursAt(first, ", ", j) {
        OccursAtCommaSpace(first, j);
        OccursAtChar(first, ' ', j + 1);
        ContainsAt(first, " ", j + 1);
      }
    }
    NotFound(first, ", ");
  }

  /** The bare variant of a key that occurs is well formed, has that key
      and is not richer. */
  lemma BareKey(name: string)
    requires WellFormed(name)
    ensures WellFormed(Bare(KeyOf(name)))
    ensures KeyOf(Bare(KeyOf(name))) == KeyOf(name)
    ensures Given(Bare(KeyOf(name))) == KeyOf(name).first
  {
    var k := KeyOf(name);
    KeyParts(name);
    SplitCommaSpacePair(k.last, k.first);
    var words := Split(Split(name, ", ")[1], " ");
    SplitPiecesFree(Split(name, ", ")[1], " ", 0);
    SplitNoSep(k.first, " ");
  }

  /** A name that is not richer is the bare variant of its own key. */
  lemma NotRicherIsBare(name: string)
    requires WellFormed(name) && !Richer(name)
    ensures name == Bare(KeyOf(name))
  {
    var parts := Split(name, ", ");
    JoinSplit(name, ", ");
    assert parts == [parts[0], parts[1]];
    assert Join(parts, ", ") == parts[0] + ", " + parts[1];
  }

  /** The representative of a key that occurs is a well-formed input name (or
      the bare variant, which then occurs) carrying that key. */
  lemma RepresentativeOf(names: seq<string>, k: Key)
    requires AllWellFormed(names) && k in KeysOf(names)
    ensures var r := Representative(names, k);
            WellFormed(r) && KeyOf(r) == k && r in names
  {
    var x :| x in names && WellFormed(x) && KeyOf(x) == k;
    match FirstRicher(names, k)
    case Some(i) =>
    case None =>
      var i :| 0 <= i < |names| && names[i] == x;
      assert !IsRicherVariant(names[i], k);
      NotRicherIsBare(x);
  }

  // ----- the loop invariant -----

  lemma KeysOfSnoc(p: seq<string>, n: string)
    requires WellFormed(n)
    ensures KeysOf(p + [n]) == KeysOf(p) + {KeyOf(n)}
  {
    forall x ensures x in p + [n] <==> x in p || x == n {}
  }

  lemma RepresentativeSnoc(p: seq<string>, n: string, k: Key)
    ensures Representative(p + [n], k) ==
            if FirstRicher(p, k).None? && IsRicherVariant(n, k) then n else Representative(p, k)
  {
    assert (p + [n])[..|p|] == p;
  }

  /** Replacing entry `b` by `n` with the same key keeps the keys distinct. */
  lemma ReplaceKeepsDistinct(u: seq<string>, b: string, n: string)
    requires AllWellFormed(u) && KeysDistinct(u) && b in u
    requires WellFormed(n) && WellFormed(b) && KeyOf(n) == KeyOf(b)
    ensures var v := RemoveFirst(u, b) + [n];
            && AllWellFormed(v) && KeysDistinct(v)
            && (forall y :: y in v ==> y in u || y == n)
            && (forall y :: y in u && KeyOf(y) != KeyOf(b) ==> y in v)
  {
    var i := FirstIndex(u, b);
    var v := RemoveFirst(u, b) + [n];
    ReplaceDrawsFrom(u, b, n);
    forall a, c | 0 <= a < c < |v| ensures KeyOf(v[a]) != KeyOf(v[c]) {
      RemoveFirstAt(u, b, a);
      if c == |u| - 1 {
        assert KeyOf(u[Skip(a, i)]) != KeyOf(u[i]);
      } else {
        RemoveFirstAt(u, b, c);
        assert Skip(a, i) < Skip(c, i);
      }
    }
    forall y | y in u && KeyOf(y) != KeyOf(b) ensures y in v {
      var a :| 0 <= a < |u| && u[a] == y;
      assert a != i;
      var a' := if a < i then a else a - 1;
      RemoveFirstAt(u, b, a');
      assert v[a'] == y;
    }
  }

  /** After replacing entry `b` by `n`, every entry is well-formed and is
      an old entry or `n`. */
  lemma ReplaceDrawsFrom(u: seq<string>, b: string, n: string)
    requires AllWellFormed(u) && b in u && WellFormed(n)
    ensures var v := RemoveFirst(u, b) + [n];
            && |v| == |u| && v[|u| - 1] == n
            && AllWellFormed(v)
            && (forall y :: y in v ==> y in u || y == n)
  {
    var v := RemoveFirst(u, b) + [n];
    forall a | 0 <= a < |v| - 1 ensures v[a] in u {
      RemoveFirstAt(u, b, a);
    }
  }

  lemma AppendKeepsDistinct(u: seq<string>, n: string)
    requires AllWellFormed(u) && KeysDistinct(u) && WellFormed(n)
    requires forall y :: y in u ==> KeyOf(y) != KeyOf(n)
    ensures AllWellFormed(u + [n]) && KeysDistinct(u + [n])
  {
    var v := u + [n];
    forall a, c | 0 <= a < c < |v| ensures KeyOf(v[a]) != KeyOf(v[c]) {
      if c == |u| {
        assert v[a] in u;
      }
    }
  }

  /** Two entries of a key-distinct list with the same key are equal. */
  lemma SameKeySame(u: seq<string>, x: string, y: string)
    requires AllWellFormed(u) && KeysDistinct(u)
    requires x in u && y in u && KeyOf(x) == KeyOf(y)
    ensures x == y
  {
    var a :| 0 <= a < |u| && u[a] == x;
    var c :| 0 <= c < |u| && u[c] == y;
    assert forall i, j :: 0 <= i < |u| && 0 <= j < |u| && KeyOf(u[i]) == KeyOf(u[j]) ==> i == j;
  }

  /** A name with a key not seen yet is appended. */
  lemma StepNewKey(p: seq<string>, st: State, n: string)
    requires Inv(p, st) && WellFormed(n) && KeyOf(n) !in st.seen
    ensures Inv(p + [n], State(st.seen + {KeyOf(n)}, st.unique + [n]))
  {
    var k := KeyOf(n);
    var names := p + [n];
    var st' := State(st.seen + {k}, st.unique + [n]);
    KeysOfSnoc(p, n);
    forall x | x in st.unique ensures KeyOf(x) != k {
      assert x in p;
    }
    AppendKeepsDistinct(st.unique, n);
    forall k' | k' in st'.seen ensures Representative(names, k') in st'.unique {
      RepresentativeSnoc(p, n, k');
      if k' == k {
        forall j | 0 <= j < |p| ensures !IsRicherVariant(p[j], k) {
          assert p[j] in p;
        }
        if !IsRicherVariant(n, k) {
          NotRicherIsBare(n);
        }
      }
    }
  }

  /** A richer variant of a seen key replaces the bare variant when that one
      is present. */
  lemma StepReplace(p: seq<string>, st: State, n: string)
    requires Inv(p, st) && WellFormed(n) && KeyOf(n) in st.seen && Richer(n)
    requires Bare(KeyOf(n)) in st.unique
    ensures Inv(p + [n], State(st.seen, RemoveFirst(st.unique, Bare(KeyOf(n))) + [n]))
  {
    var k := KeyOf(n);
    var names := p + [n];
    var u := st.unique;
    var st' := State(st.seen, RemoveFirst(u, Bare(k)) + [n]);
    KeysOfSnoc(p, n);
    RepresentativeOf(p, k);
    var r := Representative(p, k);
    BareKey(r);
    SameKeySame(u, r, Bare(k));
    assert FirstRicher(p, k).None?;
    ReplaceKeepsDistinct(u, Bare(k), n);
    forall k' | k' in st'.seen ensures Representative(names, k') in st'.unique {
      RepresentativeSnoc(p, n, k');
      if k' != k {
        RepresentativeOf(p, k');
      }
    }
  }

  /** A richer variant of a seen key whose bare variant is absent is
      dropped: an earlier richer variant is already kept. */
  lemma StepKeepRicher(p: seq<string>, st: State, n: string)
    requires Inv(p, st) && WellFormed(n) && KeyOf(n) in st.seen && Richer(n)
    requires Bare(KeyOf(n)) !in st.unique
    ensures Inv(p + [n], st)
  {
    var k := KeyOf(n);
    KeysOfSnoc(p, n);
    assert Representative(p, k) in st.unique;
    assert FirstRicher(p, k).Some?;
    forall k' | k' in st.seen ensures Representative(p + [n], k') in st.unique {
      RepresentativeSnoc(p, n, k');
    }
  }

  /** A bare variant of a seen key changes nothing. */
  lemma StepKeepBare(p: seq<string>, st: State, n: string)
    requires Inv(p, st) && WellFormed(n) && KeyOf(n) in st.seen && !Richer(n)
    ensures Inv(p + [n], st)
  {
    KeysOfSnoc(p, n);
    forall k' | k' in st.seen ensures Representative(p + [n], k') in st.unique {
      RepresentativeSnoc(p, n, k');
    }
  }

  /** One step of the loop preserves the invariant. */
  lemma StepPreserves(p: seq<string>, st: State, n: string)
    requires Inv(p, st) && WellFormed(n)
    ensures Step(st, n).Ok? && Inv(p + [n], Step(st, n).value)
  {
    var k := KeyOf(n);
    if k !in st.seen {
      StepNewKey(p, st, n);
    } else if Given(n) != k.first {
      if Bare(k) in st.unique {
        StepReplace(p, st, n);
      } else {
        StepKeepRicher(p, st, n);
      }
    } else {
      StepKeepBare(p, st, n);
    }
  }

  /** Over well-formed names the loop never fails and ends in a state
      satisfying the invariant. */
  lemma {:induction false} FoldInvariant(names: seq<string>)
    requires AllWellFormed(names)
    ensures Fold(names).Ok? && Inv(names, Fold(names).value)
  {
    if names != [] {
      var p := names[..|names| - 1];
      var n := names[|names| - 1];
      assert AllWellFormed(p) && WellFormed(n);
      assert names == p + [n];
      FoldInvariant(p);
      FoldOneMore(p, n);
    }
  }

  /** The invariant after the loop over `p` carries over to one more name. */
  lemma FoldOneMore(p: seq<string>, n: string)
    requires Fold(p).Ok? && Inv(p, Fold(p).value) && WellFormed(n)
    ensures Fold(p + [n]).Ok? && Inv(p + [n], Fold(p + [n]).value)
  {
    var st := Fold(p).value;
    StepPreserves(p, st, n);
    FoldSnoc(p, n);
  }

  // ----- what the deduplicator computes -----

  /** `unique_coauthors` after the loop, or the ValueError raised by the first
      malformed name. On success no two kept names share a key and every
      kept name is an input name. */
  function Deduplicate(names: seq<string>): (r: Result<seq<string>>)
    ensures r.Ok? <==> AllWellFormed(names)
    ensures r.Err? ==> r.error == ValueError
    ensures r.Ok? ==> AllWellFormed(r.value) && KeysDistinct(r.value)
    ensures r.Ok? ==> forall x :: x in r.value ==> x in names
  {
    match Fold(names)
    case Ok(st) =>
      FoldInvariant(names);
      Ok(st.unique)
    case Err(e) => Err(e)
  }

  /** The result of deduplicating well-formed names: the input names that
      are the representative of their own key, one per key, every key of the
      input present. */
  lemma DedupSpec(names: seq<string>)
    requires AllWellFormed(names)
    ensures Deduplicate(names).Ok?
    ensures var u := Deduplicate(names).value;
            && AllWellFormed(u) && KeysDistinct(u)
            && KeysOf(u) == KeysOf(names)
            && (forall x :: x in u <==> x in names && WellFormed(x) && x == Representative(names, KeyOf(x)))
  {
    FoldInvariant(names);
    var st := Fold(names).value;
    var u := st.unique;
    forall x | x in u ensures x == Representative(names, KeyOf(x)) {
      assert KeyOf(x) in st.seen;
      RepresentativeOf(names, KeyOf(x));
      SameKeySame(u, x, Representative(names, KeyOf(x)));
    }
    forall k | k in KeysOf(names) ensures k in KeysOf(u) {
      RepresentativeOf(names, k);
      assert Representative(names, k) in u;
    }
  }

  /** When a richer variant of a name occurs anywhere, the bare "Last, First"
      of that key is not in the result. */
  lemma DedupDropsBare(names: seq<string>, i: nat)
    requires AllWellFormed(names) && i < |names| && Richer(names[i])
    ensures Deduplicate(names).Ok?
    ensures Bare(KeyOf(names[i])) !in Deduplicate(names).value
  {
    var k := KeyOf(names[i]);
    DedupSpec(names);
    BareKey(names[i]);
    assert IsRicherVariant(names[i], k);
    var f := FirstRicher(names, k).value;
    assert Given(Representative(names, k)) != Given(Bare(k));
  }

  /** The loop over one more name is one more step. */
  lemma FoldSnoc(p: seq<string>, n: string)
    ensures Fold(p + [n]) == match Fold(p) case Err(e) => Err(e) case Ok(st) => Step(st, n)
  {
    assert (p + [n])[..|p|] == p;
  }

  lemma FoldSingle(a: string)
    requires WellFormed(a)
    ensures Fold([a]) == Ok(State({KeyOf(a)}, [a]))
  {
    var empty := State({}, []);
    assert Fold([]) == Ok(empty);
    FoldSnoc([], a);
    assert [] + [a] == [a];
    assert empty.seen + {KeyOf(a)} == {KeyOf(a)};
    assert empty.unique + [a] == [a];
    assert Step(empty, a) == Ok(State({KeyOf(a)}, [a]));
  }

  /** The bare and the richer variant, in either order, leave only the
      richer one ("Smith, John" and "Smith, John A" give "Smith, John A"). */
  lemma DedupBareAndRicher(bare: string, richer: string)
    requires WellFormed(richer) && Richer(richer) && bare == Bare(KeyOf(richer))
    ensures Deduplicate([bare, richer]) == Ok([richer])
    ensures Deduplicate([richer, bare]) == Ok([richer])
  {
    var k := KeyOf(richer);
    BareKey(richer);
    FoldSingle(bare);
    FoldSnoc([bare], richer);
    assert [bare] + [richer] == [bare, richer];
    assert RemoveFirst([bare], bare) == [];
    FoldSingle(richer);
    FoldSnoc([richer], bare);
    assert [richer] + [bare] == [richer, bare];
  }

  /** Two richer variants of one key: whichever comes first is kept, so the
      result depends on the input order. */
  lemma DedupFirstRicherWins(a: string, b: string)
    requires WellFormed(a) && WellFormed(b) && KeyOf(a) == KeyOf(b)
    requires Richer(a) && Richer(b)
    ensures Deduplicate([a, b]) == Ok([a])
    ensures Deduplicate([b, a]) == Ok([b])
  {
    LaterRicherDropped(a, b);
    LaterRicherDropped(b, a);
  }

  lemma LaterRicherDropped(a: string, b: string)
    requires WellFormed(a) && WellFormed(b) && KeyOf(a) == KeyOf(b)
    requires Richer(a) && Richer(b)
    ensures Deduplicate([a, b]) == Ok([a])
  {
    var k := KeyOf(a);
    BareKey(a);
    assert Given(Bare(k)) != Given(a);
    FoldSingle(a);
    FoldSnoc([a], b);
    assert [a] + [b] == [a, b];
    assert Step(State({k}, [a]), b) == Ok(State({k}, [a]));
  }

  /** Names with different keys ("Smith, John" and "Smith, Jane") are both
      kept, in input order. */
  lemma DedupDistinctKeys(a: string, b: string)
    requires WellFormed(a) && WellFormed(b) && KeyOf(a) != KeyOf(b)
    ensures Deduplicate([a, b]) == Ok([a, b])
  {
    FoldSingle(a);
    FoldSnoc([a], b);
    assert [a] + [b] == [a, b];
  }

  /** The loop of `_get_coauthors_from_pubs` that builds `unique_coauthors`
      with the `seen_names` set. */
  method DedupByKey(coauthors: seq<string>) returns (r: Result<seq<string>>)
    ensures r == Deduplicate(coauthors)
    ensures r.Ok? <==> AllWellFormed(coauthors)
    ensures r.Err? ==> r.error == ValueError
    ensures r.Ok? ==> AllWellFormed(r.value) && KeysDistinct(r.value)
    ensures r.Ok? ==> forall x :: x in r.value <==>
              x in coauthors && WellFormed(x) && x == Representative(coauthors, KeyOf(x))
  {
    var seenNames: set<Key> := {};
    var unique: seq<string> := [];
    var i := 0;
    while i < |coauthors|
      invariant 0 <= i <= |coauthors|
      invariant Fold(coauthors[..i]) == Ok(State(seenNames, unique))
    {
      var coauthor := coauthors[i];
      assert coauthors[..i + 1] == coauthors[..i] + [coauthor];
      FoldSnoc(coauthors[..i], coauthor);
      var parts := Split(coauthor, ", ");
      if |parts| != 2 {
        assert !WellFormed(coauthors[i]);
        return Err(ValueError);
      }
      var lastName := parts[0];
      var firstName := Split(parts[1], " ")[0];
      var key := Key(lastName, firstName);
      if key !in seenNames {
        seenNames := seenNames + {key};
        unique := unique + [coauthor];
      } else if Split(coauthor, ", ")[1] != firstName {
        var bare := lastName + ", " + firstName;
        if bare in unique {
          unique := RemoveFirst(unique, bare);
          unique := unique + [coauthor];
        }
      }
      i := i + 1;
    }
    assert coauthors[..i] == coauthors;
    DedupSpec(coauthors);
    return Ok(unique);
  }

  /** Distinct keys mean distinct names. */
  lemma KeysDistinctNoDuplicates(u: seq<string>)
    requires AllWellFormed(u) && KeysDistinct(u)
    ensures NoDuplicates(u)
  {
  }

  /** A duplicate-free list drawn from a key-distinct list is key-distinct,
      which covers both removing the own name and sorting. */
  lemma KeysDistinctSublist(s: seq<string>, t: seq<string>)
    requires AllWellFormed(s) && KeysDistinct(s)
    requires NoDuplicates(t) && forall x :: x in t ==> x in s
    ensures AllWellFormed(t) && KeysDistinct(t)
  {
    forall i | 0 <= i < |t| ensures WellFormed(t[i]) {
      assert t[i] in s;
    }
    forall i, j | 0 <= i < j < |t| ensures KeyOf(t[i]) != KeyOf(t[j]) {
      assert t[i] in s && t[j] in s;
      if KeyOf(t[i]) == KeyOf(t[j]) {
        SameKeySame(s, t[i], t[j]);
      }
    }
  }
}

