/** Which paths the resolver starts on, and how many links it follows. */
module ResolverLimits {
  import opened Outcomes
  import opened Resolver

  //////////////////////////////////////////////////////////////////////////////
  // Paths
  //////////////////////////////////////////////////////////////////////////////

  function Ups(parts: seq<string>): nat {
    if parts == [] then 0 else (if parts[0] == ".." then 1 else 0) + Ups(parts[1..])
  }

  function Downs(parts: seq<string>): nat {
    if parts == [] then 0 else (if parts[0] in ["", ".", ".."] then 0 else 1) + Downs(parts[1..])
  }

  lemma {:induction false} InsideExactly(parts: seq<string>, depth: nat)
    ensures StaysInside(parts, depth) <==>
              forall k :: 0 <= k <= |parts| ==> Ups(parts[..k]) <= depth + Downs(parts[..k])
  {
    hide StaysInside;
    InsideStep(parts, depth);
    if parts != [] {
      var rest := parts[1..];
      var next := if parts[0] in ["", "."] then depth else if parts[0] == ".." then depth - 1 else depth + 1;
      if next >= 0 { InsideExactly(rest, next); }
      forall k | 0 <= k <= |rest|
        ensures Ups(parts[..k + 1]) <= depth + Downs(parts[..k + 1]) <==> Ups(rest[..k]) <= next + Downs(rest[..k])
      {
        assert parts[..k + 1][1..] == rest[..k];
      }
      assert parts[..0] == [] && rest[..0] == [];
      if forall k :: 0 <= k <= |parts| ==> Ups(parts[..k]) <= depth + Downs(parts[..k]) {
        assert Ups(rest[..0]) <= next + Downs(rest[..0]);
        forall k | 0 <= k <= |rest| ensures Ups(rest[..k]) <= next + Downs(rest[..k]) {
          assert Ups(parts[..k + 1]) <= depth + Downs(parts[..k + 1]);
        }
      }
      if next >= 0 && forall k :: 0 <= k <= |rest| ==> Ups(rest[..k]) <= next + Downs(rest[..k]) {
        forall k | 0 <= k <= |parts| ensures Ups(parts[..k]) <= depth + Downs(parts[..k]) {
          if k > 0 { assert Ups(rest[..k - 1]) <= next + Downs(rest[..k - 1]); }
        }
      }
    }
  }

  lemma InsideStep(parts: seq<string>, depth: nat)
    ensures parts == [] ==> StaysInside(parts, depth)
    ensures parts != [] && parts[0] in ["", "."] ==> (StaysInside(parts, depth) <==> StaysInside(parts[1..], depth))
    ensures parts != [] && parts[0] == ".." ==>
              (StaysInside(parts, depth) <==> depth > 0 && StaysInside(parts[1..], depth - 1))
    ensures parts != [] && parts[0] !in ["", ".", ".."] ==>
              (StaysInside(parts, depth) <==> StaysInside(parts[1..], depth + 1))
  {
  }

  /** A path is taken up exactly when it has 1 to 4,096 characters, none of them NUL, LF or CR, and no beginning of it
      goes up more often than down. */
  lemma TakenExactly(path: string)
    ensures Normalized(path).Ok? <==>
      && 1 <= |path| <= 4096 && (forall c :: c in path ==> c as int !in {0, 10, 13})
      && forall k :: 0 <= k <= |Split(path)| ==> Ups(Split(path)[..k]) <= Downs(Split(path)[..k])
  {
    hide StaysInside, Split;
    InsideExactly(Split(path), 0);
  }

  //////////////////////////////////////////////////////////////////////////////
  // Links
  //////////////////////////////////////////////////////////////////////////////

  function Named(k: nat): string { "/" + seq(k, i => 'a') }

  /** n links in a row, each to the next, and a file at the end. */
  ghost predicate Chained(entries: Entries, n: nat) {
    && (forall k :: 1 <= k <= n ==> Named(k) in entries && entries[Named(k)] == Row(Link, Named(k + 1)))
    && Named(n + 1) in entries && entries[Named(n + 1)].kind.File?
  }

  /** A row of links resolves exactly when there are at most 40. */
  lemma FortyLinks(entries: Entries, n: nat)
    requires Chained(entries, n) && n <= 4094
    ensures Resolve(entries, "/a") == if n <= 40 then Ok(Named(n + 1)) else Err("IMAGE_LINK_DEPTH")
  {
    hide Walk, Split;
    assert Named(1) == "/a" && Named(1)[1..] == "a";
    SplitNamed(1);
    assert Split("/a")[1..][1..] == [] && StaysInside(Split("/a"), 0);
    ChainWalk(entries, n, 1);
  }

  lemma SplitNamed(k: nat)
    requires k >= 1
    ensures Split(Named(k)) == ["", Named(k)[1..]] && Named(k)[1..] !in ["", ".", ".."]
    ensures PathOf([Named(k)[1..]]) == Named(k)
  {
    hide Split;
    var a := Named(k)[1..];
    assert SlashFree(a) && a[0] == 'a';
    SplitSlash(Named(k));
    SplitSlashFree(a);
  }

  lemma {:induction false} ChainWalk(entries: Entries, n: nat, k: nat)
    requires Chained(entries, n) && n <= 4094 && 1 <= k <= n + 1 && k <= 41
    ensures Walk(entries, [], Split(Named(k)), k - 1) ==
              if n <= 40 then Ok([Named(n + 1)[1..]]) else Err("IMAGE_LINK_DEPTH")
    decreases n + 1 - k
  {
    hide Walk, Split;
    SplitNamed(k);
    var a := Named(k)[1..];
    if k <= n { assert entries[Named(k)] == Row(Link, Named(k + 1)) && |Named(k + 1)| <= 4096; }
    WalkStep(entries, a, k - 1);
    assert ["", a][1..] == [a];
    if k <= n && k <= 40 {
      SplitNamed(k + 1);
      ChainWalk(entries, n, k + 1);
    }
  }

  lemma WalkStep(entries: Entries, a: string, links: nat)
    requires links <= 40 && a !in ["", ".", ".."] && PathOf([a]) in entries
    requires entries[PathOf([a])].kind.Link? ==> |entries[PathOf([a])].target| <= 4096
    ensures var row := entries[PathOf([a])];
      Walk(entries, [], ["", a], links) ==
        if !row.kind.Link? then Ok([a])
        else if links == 40 then Err("IMAGE_LINK_DEPTH")
        else Walk(entries, [], Split(row.target), links + 1)
  {
    hide Split;
    var row := entries[PathOf([a])];
    assert ["", a][1..] == [a] && [a][1..] == [] && [] + [a] == [a];
    assert row.target + "" == row.target;
    assert Walk(entries, [], [a], links) ==
      if !row.kind.Link? then Walk(entries, [a], [], links)
      else if links == 40 then Err("IMAGE_LINK_DEPTH")
      else Walk(entries, [], Split(row.target), links + 1);
  }
}
