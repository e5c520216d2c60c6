/** Canonical order of crawl output lists, and the chunks they are staged in. */
module Outputs {
  import opened Outcomes
  import opened Ordering

  const MAX_OUTLINKS: nat := 256
  const MAX_DISCOVERIES: nat := 128
  const MAX_IMAGES: nat := 64
  const MAX_ALIASES: nat := 5
  const MAX_CHUNK: nat := 64

  //////////////////////////////////////////////////////////////////////////////
  // Sets as lists
  //////////////////////////////////////////////////////////////////////////////

  /** No two items, at two places, have one key. */
  ghost predicate DistinctKeys<T>(items: multiset<T>, key: T -> string) {
    && (forall x :: x in items ==> items[x] == 1)
    && (forall x, y :: x in items && y in items && key(x) == key(y) ==> x == y)
  }

  /** What an accepted list is, whatever its order. */
  ghost predicate Acceptable<T>(items: multiset<T>, key: T -> string, valid: T -> bool, max: nat) {
    |items| <= max && (forall x :: x in items ==> valid(x)) && DistinctKeys(items, key)
  }

  lemma {:induction false} AscendingDistinct<T>(s: seq<T>, key: T -> string)
    requires Ascending(s, key)
    ensures DistinctKeys(multiset(s), key)
  {
    hide Less;
    if s != [] {
      var front, last := s[..|s| - 1], s[|s| - 1];
      assert s == front + [last];
      AscendingDistinct(front, key);
      forall x | x in front ensures key(x) != key(last) && x != last {
        var k :| 0 <= k < |front| && front[k] == x;
        assert Less(key(s[k]), key(s[|s| - 1]));
        LessTotal(key(x), key(last));
      }
    }
  }

  lemma EqualKeys<T>(s: seq<T>, key: T -> string, i: nat, j: nat)
    requires i < j < |s| && key(s[i]) == key(s[j])
    ensures !DistinctKeys(multiset(s), key)
  {
    assert s[i] in multiset(s) && s[j] in multiset(s);
    if s[i] == s[j] {
      Twice(s, i, j);
    }
  }

  lemma Twice<T>(s: seq<T>, i: nat, j: nat)
    requires i < j < |s| && s[i] == s[j]
    ensures multiset(s)[s[i]] >= 2
  {
    var a, b := s[..j], s[j..];
    assert a[i] in multiset(a) && b[0] in multiset(b);
    assert s == a + b;
  }

  lemma Cancel<T>(a: multiset<T>, b: multiset<T>, x: T)
    requires a + multiset{x} == b + multiset{x}
    ensures a == b
  {
    assert a == a + multiset{x} - multiset{x};
  }

  lemma WithoutLast<T>(s: seq<T>)
    requires s != []
    ensures multiset(s) == multiset(s[..|s| - 1]) + multiset{s[|s| - 1]}
  {
    assert s == s[..|s| - 1] + [s[|s| - 1]];
  }

  lemma SameLast<T>(s: seq<T>, t: seq<T>, key: T -> string)
    requires Ascending(s, key) && Ascending(t, key) && multiset(s) == multiset(t) && s != [] && t != []
    ensures s[|s| - 1] == t[|t| - 1]
  {
    hide Less, Ascending;
    var x, y := s[|s| - 1], t[|t| - 1];
    assert x in multiset(s) && y in multiset(t);
    LastIsGreatest(s, key, y);
    LastIsGreatest(t, key, x);
    LessTotal(key(x), key(y));
  }

  /** An ascending list is determined by its elements. */
  lemma {:induction false} AscendingUnique<T>(s: seq<T>, t: seq<T>, key: T -> string)
    requires Ascending(s, key) && Ascending(t, key) && multiset(s) == multiset(t)
    ensures s == t
  {
    hide Less;
    SameLength(s, t);
    if s != [] {
      SameLast(s, t, key);
      WithoutLast(s);
      WithoutLast(t);
      var front, rest := s[..|s| - 1], t[..|t| - 1];
      Cancel(multiset(front), multiset(rest), s[|s| - 1]);
      AscendingUnique(front, rest, key);
      assert s == front + [s[|s| - 1]] && t == rest + [t[|t| - 1]];
    }
  }

  lemma SameLength<T>(s: seq<T>, t: seq<T>)
    requires multiset(s) == multiset(t)
    ensures |s| == |t|
  {
    assert |multiset(s)| == |s| && |multiset(t)| == |t|;
  }

  lemma LastIsGreatest<T>(s: seq<T>, key: T -> string, x: T)
    requires Ascending(s, key) && x in s
    ensures x == s[|s| - 1] || Less(key(x), key(s[|s| - 1]))
  {
    hide Less;
  }

  /** The loop that outlinks, images and discoveries share: sort, check each, refuse a repeated key. */
  method CanonicalList<T(==)>(items: seq<T>, key: T -> string, valid: T -> bool, max: nat)
    returns (r: Result<seq<T>>)
    ensures r.Ok? <==> Acceptable(multiset(items), key, valid, max)
    ensures r.Ok? ==> CanonicalOf(r.value, items, key)
  {
    if |items| > max {
      assert |multiset(items)| == |items|;
      return Err("OUTPUT_COUNT_LIMIT");
    }
    var ordered := SortByKey(items, key);
    SortByKeyOk(items, key);
    var previous: Option<string> := None;
    NothingAscends(ordered, key);
    hide *;
    for n := 0 to |ordered|
      invariant previous == if n == 0 then None else Some(key(ordered[n - 1]))
      invariant forall i :: 0 <= i < n ==> valid(ordered[i])
      invariant Ascending(ordered[..n], key)
    {
      var item := ordered[n];
      if !valid(item) {
        InvalidRefused(ordered, key, valid, max, n);
        return Err("INVALID_ITEM");
      }
      if previous == Some(key(item)) {
        EqualKeys(ordered, key, n - 1, n);
        DuplicateRefused(ordered, key, valid, max);
        return Err("DUPLICATE_ITEM");
      }
      ExtendAscending(ordered, key, n);
      previous := Some(key(item));
    }
    SameLength(items, ordered);
    AllAccepted(ordered, items, key, valid, max);
    return Ok(ordered);
  }

  lemma NothingAscends<T>(s: seq<T>, key: T -> string)
    ensures Ascending(s[..0], key)
  {
  }

  lemma InvalidRefused<T>(s: seq<T>, key: T -> string, valid: T -> bool, max: nat, n: nat)
    requires n < |s| && !valid(s[n])
    ensures !Acceptable(multiset(s), key, valid, max)
  {
    assert s[n] in multiset(s);
    hide DistinctKeys;
  }

  lemma DuplicateRefused<T>(s: seq<T>, key: T -> string, valid: T -> bool, max: nat)
    requires !DistinctKeys(multiset(s), key)
    ensures !Acceptable(multiset(s), key, valid, max)
  {
    hide DistinctKeys;
  }

  lemma AllAccepted<T>(s: seq<T>, items: seq<T>, key: T -> string, valid: T -> bool, max: nat)
    requires |s| <= max && Ascending(s[..|s|], key) && (forall i :: 0 <= i < |s| ==> valid(s[i]))
    requires multiset(s) == multiset(items)
    ensures Acceptable(multiset(items), key, valid, max) && CanonicalOf(s, items, key)
  {
    assert s[..|s|] == s;
    AscendingDistinct(s, key);
    hide DistinctKeys, Ascending;
    assert |multiset(s)| == |s|;
    forall x | x in multiset(s) ensures valid(x) {
      assert x in s;
    }
  }

  lemma ExtendAscending<T>(s: seq<T>, key: T -> string, n: nat)
    requires n < |s| && NotDescending(s, key) && Ascending(s[..n], key)
    requires n > 0 ==> key(s[n - 1]) != key(s[n])
    ensures Ascending(s[..n + 1], key)
  {
    hide Less;
    forall i | 0 <= i < n ensures Less(key(s[i]), key(s[n])) {
      LessTotal(key(s[n - 1]), key(s[n]));
      if i < n - 1 {
        assert Less(key(s[..n][i]), key(s[..n][n - 1]));
        LessTransitive(key(s[i]), key(s[n - 1]), key(s[n]));
      }
    }
  }

  /** What CanonicalList returns for an accepted list. */
  ghost predicate CanonicalOf<T>(r: seq<T>, items: seq<T>, key: T -> string) {
    Ascending(r, key) && multiset(r) == multiset(items)
  }

  //////////////////////////////////////////////////////////////////////////////
  // Chunks
  //////////////////////////////////////////////////////////////////////////////

  /** Consecutive pieces of 64. */
  function Chunks<T>(s: seq<T>): seq<seq<T>> {
    if s == [] then []
    else if |s| <= MAX_CHUNK then [s]
    else [s[..MAX_CHUNK]] + Chunks(s[MAX_CHUNK..])
  }

  function Flatten<T>(parts: seq<seq<T>>): seq<T> {
    if parts == [] then [] else parts[0] + Flatten(parts[1..])
  }

  /** The chunks put end to end are the list. */
  lemma {:induction false} ChunksFlatten<T>(s: seq<T>)
    ensures Flatten(Chunks(s)) == s
  {
    if |s| > MAX_CHUNK {
      ChunksFlatten(s[MAX_CHUNK..]);
      assert Chunks(s)[1..] == Chunks(s[MAX_CHUNK..]);
      assert s == s[..MAX_CHUNK] + s[MAX_CHUNK..];
    } else if s != [] {
      assert Flatten([s][1..]) == [];
      assert s + [] == s;
    }
  }

  /** Chunk number i is the slice from 64 * i. */
  lemma {:induction false} ChunkIs<T>(s: seq<T>, i: nat)
    ensures 64 * |Chunks(s)| - 64 < |s| <= 64 * |Chunks(s)| || (s == [] && Chunks(s) == [])
    ensures i < |Chunks(s)| ==>
      64 * i < |s| && Chunks(s)[i] == s[64 * i..if |s| < 64 * i + 64 then |s| else 64 * i + 64]
    decreases |s|
  {
    if |s| > MAX_CHUNK {
      var rest := s[MAX_CHUNK..];
      ChunkIs(rest, if i == 0 then 0 else i - 1);
    }
  }

  /** The check of one keyed chunk. */
  ghost predicate ChunkOk<T>(ordinal: nat, records: seq<T>, key: T -> string, valid: T -> bool, chunks: nat, max: nat) {
    && ordinal < chunks && 1 <= |records| <= max
    && (forall x :: x in records ==> valid(x)) && Ascending(records, key)
  }

  /** validate_stage_chunk for a list kind: each record is compared with the one before it. */
  method ValidateChunk<T>(ordinal: nat, records: seq<T>, key: T -> string, valid: T -> bool, chunks: nat, max: nat)
    returns (ok: bool)
    ensures ok <==> ChunkOk(ordinal, records, key, valid, chunks, max)
  {
    if ordinal >= chunks || !(1 <= |records| <= max) {
      return false;
    }
    hide Less;
    var previous: Option<string> := None;
    for n := 0 to |records|
      invariant previous == if n == 0 then None else Some(key(records[n - 1]))
      invariant forall i :: 0 <= i < n ==> valid(records[i])
      invariant Ascending(records[..n], key)
    {
      assert records[n] in records;
      if !valid(records[n]) {
        return false;
      }
      if previous.Some? && !Less(previous.value, key(records[n])) {
        return false;
      }
      GrowAscending(records, key, n);
      previous := Some(key(records[n]));
    }
    assert records[..|records|] == records;
    return true;
  }

  lemma GrowAscending<T>(s: seq<T>, key: T -> string, n: nat)
    requires n < |s| && Ascending(s[..n], key) && (n > 0 ==> Less(key(s[n - 1]), key(s[n])))
    ensures Ascending(s[..n + 1], key)
  {
    hide Less;
    forall i | 0 <= i < n ensures Less(key(s[i]), key(s[n])) {
      if i < n - 1 {
        assert Less(key(s[..n][i]), key(s[..n][n - 1]));
        LessTransitive(key(s[i]), key(s[n - 1]), key(s[n]));
      }
    }
  }

  /** Every chunk of a canonical list passes: 256 outlinks in four chunks, 128 discoveries in two. */
  lemma ChunksPass<T>(s: seq<T>, key: T -> string, valid: T -> bool, chunks: nat, i: nat)
    requires Ascending(s, key) && (forall x :: x in s ==> valid(x)) && |s| <= 64 * chunks
    requires i < |Chunks(s)|
    ensures ChunkOk(i, Chunks(s)[i], key, valid, chunks, MAX_CHUNK)
  {
    hide Less, Chunks;
    ChunkIs(s, i);
  }

  //////////////////////////////////////////////////////////////////////////////
  // Aliases
  //////////////////////////////////////////////////////////////////////////////

  datatype Target = Target(urlId: string, url: string)
  datatype Alias = Alias(urlId: string, url: string, depth: nat)

  function AliasKey(a: Alias): string { a.urlId }

  /** The names of the aliases, in whatever order the set of names gives them. */
  predicate AliasNames(names: seq<string>, targets: map<string, Target>) {
    && 1 <= |names| <= 5
    && (forall i, j :: 0 <= i < j < |names| ==> names[i] != names[j])
    && forall n :: n in names ==> n in targets
  }

  function AliasOf(targets: map<string, Target>, depth: nat, name: string): Alias
    requires name in targets
  {
    Alias(targets[name].urlId, targets[name].url, depth)
  }

  function AliasRecords(names: seq<string>, targets: map<string, Target>, depth: nat): seq<Alias>
    requires forall n :: n in names ==> n in targets
  {
    SortByKey(AliasesOf(names, targets, depth), AliasKey)
  }

  /** The alias chunk check also wants one depth. */
  ghost predicate AliasChunkOk(records: seq<Alias>, identified: Alias -> bool) {
    ChunkOk(0, records, AliasKey, identified, 1, 5)
    && forall x, y :: x in records && y in records ==> x.depth == y.depth
  }

  function AliasesOf(names: seq<string>, targets: map<string, Target>, depth: nat): seq<Alias>
    requires forall n :: n in names ==> n in targets
  {
    seq(|names|, i requires 0 <= i < |names| => AliasOf(targets, depth, names[i]))
  }

  /** The alias chunk passes exactly when the aliases have distinct URL identifiers. */
  lemma AliasChunkPasses(names: seq<string>, targets: map<string, Target>, depth: nat, identified: Alias -> bool)
    requires AliasNames(names, targets)
    requires forall n :: n in names ==> identified(AliasOf(targets, depth, n))
    ensures AliasChunkOk(AliasRecords(names, targets, depth), identified) <==>
      forall i, j :: 0 <= i < j < |names| ==> targets[names[i]].urlId != targets[names[j]].urlId
  {
    hide *;
    AliasCount(names, targets);
    var raw, sorted := AliasesOf(names, targets, depth), AliasRecords(names, targets, depth);
    AliasesLength(names, targets, depth);
    AliasesSorted(names, targets, depth);
    SameLength(raw, sorted);
    AliasesIdentified(names, targets, depth, identified, sorted);
    SortedAscends(sorted, AliasKey);
    AliasPairs(names, targets, depth);
    AliasChunkIs(sorted, depth, identified);
  }

  lemma AliasesSorted(names: seq<string>, targets: map<string, Target>, depth: nat)
    requires forall n :: n in names ==> n in targets
    ensures var sorted := AliasRecords(names, targets, depth);
      NotDescending(sorted, AliasKey) && multiset(sorted) == multiset(AliasesOf(names, targets, depth))
  {
    SortByKeyOk(AliasesOf(names, targets, depth), AliasKey);
    hide Less, SortByKey, NotDescending, AliasesOf;
  }

  lemma AliasCount(names: seq<string>, targets: map<string, Target>)
    requires AliasNames(names, targets)
    ensures 1 <= |names| <= MAX_ALIASES && forall n :: n in names ==> n in targets
  {
  }

  lemma AliasesLength(names: seq<string>, targets: map<string, Target>, depth: nat)
    requires forall n :: n in names ==> n in targets
    ensures |AliasesOf(names, targets, depth)| == |names|
  {
  }

  lemma AliasChunkIs(records: seq<Alias>, depth: nat, identified: Alias -> bool)
    requires 1 <= |records| <= MAX_ALIASES && forall x :: x in records ==> identified(x) && x.depth == depth
    ensures AliasChunkOk(records, identified) <==> Ascending(records, AliasKey)
  {
    hide Ascending;
  }

  lemma AliasPairs(names: seq<string>, targets: map<string, Target>, depth: nat)
    requires forall n :: n in names ==> n in targets
    ensures DistinctKeys(multiset(AliasesOf(names, targets, depth)), AliasKey) <==>
      forall i, j :: 0 <= i < j < |names| ==> targets[names[i]].urlId != targets[names[j]].urlId
  {
    var raw := AliasesOf(names, targets, depth);
    DistinctPairs(raw, AliasKey);
    hide DistinctKeys;
    assert forall i :: 0 <= i < |names| ==> AliasKey(raw[i]) == targets[names[i]].urlId;
  }

  lemma AliasesIdentified(names: seq<string>, targets: map<string, Target>, depth: nat, identified: Alias -> bool,
                          sorted: seq<Alias>)
    requires forall n :: n in names ==> n in targets && identified(AliasOf(targets, depth, n))
    requires multiset(sorted) == multiset(AliasesOf(names, targets, depth))
    ensures forall x :: x in sorted ==> identified(x) && x.depth == depth
  {
    var raw := AliasesOf(names, targets, depth);
    forall x | x in sorted ensures identified(x) && x.depth == depth {
      assert x in multiset(sorted) && x in multiset(raw);
      var i :| 0 <= i < |raw| && raw[i] == x;
      assert names[i] in names;
    }
  }

  lemma SortedAscends<T>(s: seq<T>, key: T -> string)
    requires NotDescending(s, key)
    ensures Ascending(s, key) <==> DistinctKeys(multiset(s), key)
  {
    hide Less, DistinctKeys, NotDescending, Ascending;
    if Ascending(s, key) { AscendingDistinct(s, key); }
    if DistinctKeys(multiset(s), key) {
      SortedDistinct(s, key, |s|);
      assert s[..|s|] == s;
    }
  }

  lemma DistinctPairs<T>(s: seq<T>, key: T -> string)
    ensures DistinctKeys(multiset(s), key) <==> forall i, j :: 0 <= i < j < |s| ==> key(s[i]) != key(s[j])
  {
    hide DistinctKeys;
    if DistinctKeys(multiset(s), key) { DistinctIndices(s, key); }
    if forall i, j :: 0 <= i < j < |s| ==> key(s[i]) != key(s[j]) { IndicesDistinct(s, key); }
  }

  lemma {:induction false} SortedDistinct<T>(s: seq<T>, key: T -> string, n: nat)
    requires NotDescending(s, key) && DistinctKeys(multiset(s), key) && n <= |s|
    ensures Ascending(s[..n], key)
  {
    hide Less, DistinctKeys;
    if n > 0 {
      SortedDistinct(s, key, n - 1);
      if n > 1 && key(s[n - 2]) == key(s[n - 1]) {
        EqualKeys(s, key, n - 2, n - 1);
      }
      ExtendAscending(s, key, n - 1);
    }
  }

  lemma DistinctIndices<T>(s: seq<T>, key: T -> string)
    requires DistinctKeys(multiset(s), key)
    ensures forall i, j :: 0 <= i < j < |s| ==> key(s[i]) != key(s[j])
  {
    hide DistinctKeys;
    forall i, j | 0 <= i < j < |s| ensures key(s[i]) != key(s[j]) {
      if key(s[i]) == key(s[j]) {
        EqualKeys(s, key, i, j);
      }
    }
  }

  lemma {:induction false} IndicesDistinct<T>(s: seq<T>, key: T -> string)
    requires forall i, j :: 0 <= i < j < |s| ==> key(s[i]) != key(s[j])
    ensures DistinctKeys(multiset(s), key)
  {
    if s != [] {
      var front, last := s[..|s| - 1], s[|s| - 1];
      assert s == front + [last];
      IndicesDistinct(front, key);
      forall x | x in front ensures key(x) != key(last) {
        var k :| 0 <= k < |front| && front[k] == x;
        assert s[k] == x;
      }
    }
  }
}
