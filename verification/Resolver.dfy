/** The image-local path resolver: a worklist over path components that follows stored links. */
module Resolver {
  import opened Outcomes

  const MAX_PATH: nat := 4096
  const MAX_LINKS: nat := 40

  //////////////////////////////////////////////////////////////////////////////
  // Splitting and joining at slashes
  //////////////////////////////////////////////////////////////////////////////

  predicate SlashFree(s: string) {
    '/' !in s
  }

  predicate Components(s: seq<string>) {
    forall i :: 0 <= i < |s| ==> SlashFree(s[i])
  }

  function Split(s: string): (r: seq<string>)
    ensures |r| >= 1 && Components(r)
  {
    if s == "" then [""]
    else
      var r := Split(s[1..]);
      if s[0] == '/' then [""] + r
      else
        assert SlashFree(r[0]);
        [[s[0]] + r[0]] + r[1..]
  }

  function Join(s: seq<string>): string {
    if s == [] then "" else if |s| == 1 then s[0] else s[0] + "/" + Join(s[1..])
  }

  lemma {:induction false} SplitSlashFree(s: string)
    requires SlashFree(s)
    ensures Split(s) == [s]
  {
    if s != "" {
      assert s[0] in s;
      assert SlashFree(s[1..]) by { assert forall c :: c in s[1..] ==> c in s; }
      SplitSlashFree(s[1..]);
      assert [s[0]] + s[1..] == s;
    }
  }

  lemma {:induction false} SplitAppend(a: string, b: string)
    ensures Split(a + "/" + b) == Split(a) + Split(b)
  {
    hide Components, Split;
    if a == "" {
      SplitNothing();
      SplitSlash("/" + b);
      assert a + "/" + b == "/" + b && ("/" + b)[1..] == b;
    } else {
      var rest, whole := a[1..] + "/" + b, a + "/" + b;
      assert whole[0] == a[0] && whole[1..] == rest;
      SplitAppend(a[1..], b);
      var r, t := Split(a[1..]), Split(b);
      if a[0] != '/' {
        SplitFirst(whole);
        SplitFirst(a);
        assert (r + t)[0] == r[0] && (r + t)[1..] == r[1..] + t;
      } else {
        SplitSlash(whole);
        SplitSlash(a);
      }
    }
  }

  lemma SplitNothing()
    ensures Split("") == [""]
  {
  }

  lemma SplitSlash(s: string)
    requires s != "" && s[0] == '/'
    ensures Split(s) == [""] + Split(s[1..])
  {
  }

  lemma SplitFirst(s: string)
    requires s != "" && s[0] != '/'
    ensures Split(s) == [[s[0]] + Split(s[1..])[0]] + Split(s[1..])[1..]
  {
  }

  lemma {:induction false} SplitJoin(s: seq<string>)
    requires s != [] && Components(s)
    ensures Split(Join(s)) == s
  {
    if |s| == 1 {
      SplitSlashFree(s[0]);
    } else {
      SplitSlashFree(s[0]);
      SplitJoin(s[1..]);
      SplitAppend(s[0], Join(s[1..]));
      assert s == [s[0]] + s[1..];
    }
  }

  //////////////////////////////////////////////////////////////////////////////
  // The image tree
  //////////////////////////////////////////////////////////////////////////////

  datatype Kind = File | Directory | Link

  datatype Row = Row(kind: Kind, target: string)

  type Entries = map<string, Row>

  function PathOf(resolved: seq<string>): string {
    "/" + Join(resolved)
  }

  predicate GoodChar(c: char) { c != '\0' && c != '\r' && c != '\n' }

  predicate PathOk(path: string) {
    0 < |path| <= 4096 && forall c :: c in path ==> GoodChar(c)
  }

  /** The lexical check: dot-dot never leaves the root. */
  predicate StaysInside(parts: seq<string>, depth: nat) {
    parts == []
    || if parts[0] == "" || parts[0] == "." then StaysInside(parts[1..], depth)
       else if parts[0] == ".." then depth > 0 && StaysInside(parts[1..], depth - 1)
       else StaysInside(parts[1..], depth + 1)
  }

  function Normalized(path: string): Result<()> {
    if !PathOk(path) then Err("IMAGE_PATH")
    else if !StaysInside(Split(path), 0) then Err("IMAGE_PATH_ESCAPE")
    else Ok(())
  }

  function Suffix(pending: seq<string>): string {
    if pending == [] then "" else "/" + Join(pending)
  }

  /** The worklist: resolved is the link-free prefix reached so far. */
  function Walk(entries: Entries, resolved: seq<string>, pending: seq<string>, links: nat): Result<seq<string>>
    requires links <= MAX_LINKS
    decreases MAX_LINKS - links, |pending|
  {
    if pending == [] then Ok(resolved)
    else
      var part, rest := pending[0], pending[1..];
      if part == "" || part == "." then Walk(entries, resolved, rest, links)
      else if part == ".." then
        if resolved == [] then Err("IMAGE_PATH_ESCAPE") else Walk(entries, resolved[..|resolved| - 1], rest, links)
      else
        var prefix := PathOf(resolved + [part]);
        if prefix !in entries then Err("IMAGE_FILE_MISSING")
        else
          var row := entries[prefix];
          if row.kind.Link? then
            if links + 1 > 40 then Err("IMAGE_LINK_DEPTH")
            else
              var combined := row.target + Suffix(rest);
              if |combined| > 4096 then Err("IMAGE_PATH")
              else Walk(entries, [], Split(combined), links + 1)
          else if rest != [] && !row.kind.Directory? then Err("IMAGE_PATH_PARENT")
          else Walk(entries, resolved + [part], rest, links)
  }

  function Resolve(entries: Entries, path: string): Result<string> {
    if Normalized(path).Err? then Err(Normalized(path).code)
    else
      match Walk(entries, [], Split(path), 0)
      case Err(code) => Err(code)
      case Ok(r) => if PathOf(r) in entries then Ok(PathOf(r)) else Err("IMAGE_FILE_MISSING")
  }

  /** The loop as written.  It terminates on every link graph: each link followed uses up one of the
      forty, and otherwise a component is consumed. */
  method ResolveComponents(entries: Entries, path: string) returns (r: Result<string>)
    ensures r == Resolve(entries, path)
  {
    var check := Normalized(path);
    if check.Err? {
      return Err(check.code);
    }
    var pending, resolved: seq<string>, links := Split(path), [], 0;
    while pending != []
      invariant links <= MAX_LINKS
      invariant Walk(entries, [], Split(path), 0) == Walk(entries, resolved, pending, links)
      decreases MAX_LINKS - links, |pending|
    {
      var part := pending[0];
      pending := pending[1..];
      if part == "" || part == "." {
        continue;
      }
      if part == ".." {
        if resolved == [] {
          return Err("IMAGE_PATH_ESCAPE");
        }
        resolved := resolved[..|resolved| - 1];
        continue;
      }
      var prefix := PathOf(resolved + [part]);
      if prefix !in entries {
        return Err("IMAGE_FILE_MISSING");
      }
      var row := entries[prefix];
      if row.kind.Link? {
        links := links + 1;
        if links > MAX_LINKS {
          return Err("IMAGE_LINK_DEPTH");
        }
        var combined := row.target + Suffix(pending);
        if |combined| > MAX_PATH {
          return Err("IMAGE_PATH");
        }
        pending, resolved := Split(combined), [];
      } else {
        if pending != [] && !row.kind.Directory? {
          return Err("IMAGE_PATH_PARENT");
        }
        resolved := resolved + [part];
      }
    }
    var result := PathOf(resolved);
    if result !in entries {
      return Err("IMAGE_FILE_MISSING");
    }
    return Ok(result);
  }

  //////////////////////////////////////////////////////////////////////////////
  // What a resolved path is
  //////////////////////////////////////////////////////////////////////////////

  predicate Plain(c: string) {
    c != "" && c != "." && c != ".." && SlashFree(c)
  }

  /** Every prefix is an entry and no link, and every proper prefix a directory (last: whether the
      whole path must be one too). */
  ghost predicate LinkFree(entries: Entries, r: seq<string>, last: bool) {
    && (forall i :: 0 <= i < |r| ==> Plain(r[i]))
    && (forall k :: 1 <= k <= |r| ==>
          var p := PathOf(r[..k]);
          && p in entries && !entries[p].kind.Link?
          && (k < |r| || last ==> entries[p].kind.Directory?))
  }

  lemma LinkFreePush(entries: Entries, r: seq<string>, part: string, last: bool)
    requires LinkFree(entries, r, true) && Plain(part)
    requires var p := PathOf(r + [part]);
             p in entries && !entries[p].kind.Link? && (last ==> entries[p].kind.Directory?)
    ensures LinkFree(entries, r + [part], last)
  {
    var r' := r + [part];
    assert r'[..|r'|] == r';
    assert forall k :: 1 <= k <= |r| ==> r'[..k] == r[..k];
  }

  lemma LinkFreePop(entries: Entries, r: seq<string>)
    requires LinkFree(entries, r, true) && r != []
    ensures LinkFree(entries, r[..|r| - 1], true)
  {
    var r' := r[..|r| - 1];
    assert forall k :: 1 <= k <= |r'| ==> r'[..k] == r[..k];
  }

  /** A successful walk ends in a link-free path without dot-dot whose proper prefixes are directories. */
  lemma {:induction false} WalkLinkFree(entries: Entries, resolved: seq<string>, pending: seq<string>, links: nat)
    requires links <= MAX_LINKS && Components(pending)
    requires LinkFree(entries, resolved, pending != [])
    requires Walk(entries, resolved, pending, links).Ok?
    ensures LinkFree(entries, Walk(entries, resolved, pending, links).value, false)
    decreases MAX_LINKS - links, |pending|
  {
    hide PathOf, Split;
    if pending != [] {
      var part, rest := pending[0], pending[1..];
      if part == "" || part == "." {
        LinkFreeWeaken(entries, resolved, rest != []);
        WalkLinkFree(entries, resolved, rest, links);
      } else if part == ".." {
        LinkFreePop(entries, resolved);
        LinkFreeWeaken(entries, resolved[..|resolved| - 1], rest != []);
        WalkLinkFree(entries, resolved[..|resolved| - 1], rest, links);
      } else if entries[PathOf(resolved + [part])].kind.Link? {
        WalkLinkFree(entries, [], Split(entries[PathOf(resolved + [part])].target + Suffix(rest)), links + 1);
      } else {
        LinkFreePush(entries, resolved, part, rest != []);
        WalkLinkFree(entries, resolved + [part], rest, links);
      }
    }
  }

  lemma LinkFreeWeaken(entries: Entries, r: seq<string>, last: bool)
    requires LinkFree(entries, r, true)
    ensures LinkFree(entries, r, last)
  {
  }

  lemma ResolvedIsLinkFree(entries: Entries, path: string)
    requires Resolve(entries, path).Ok?
    ensures exists r :: Resolve(entries, path) == Ok(PathOf(r)) && LinkFree(entries, r, false)
    ensures Resolve(entries, path).value in entries
  {
    WalkLinkFree(entries, [], Split(path), 0);
    var r := Walk(entries, [], Split(path), 0).value;
    assert Resolve(entries, path) == Ok(PathOf(r)) && LinkFree(entries, r, false);
  }

  //////////////////////////////////////////////////////////////////////////////
  // Resolving a resolved path
  //////////////////////////////////////////////////////////////////////////////

  lemma {:induction false} WalkPlain(entries: Entries, r: seq<string>, n: nat)
    requires LinkFree(entries, r, false) && n <= |r|
    ensures Walk(entries, r[..n], r[n..], 0) == Ok(r)
    decreases |r| - n
  {
    hide PathOf;
    if n == |r| {
      assert r[..n] == r;
    } else {
      assert r[n..][0] == r[n] && r[n..][1..] == r[n + 1..];
      assert r[..n] + [r[n]] == r[..n + 1];
      WalkPlain(entries, r, n + 1);
    }
  }

  lemma {:induction false} PlainStaysInside(r: seq<string>, depth: nat)
    requires forall i :: 0 <= i < |r| ==> Plain(r[i])
    ensures StaysInside(r, depth)
  {
    if r != [] {
      PlainStaysInside(r[1..], depth + 1);
    }
  }

  lemma SplitPath(r: seq<string>)
    requires Components(r)
    ensures Split(PathOf(r)) == [""] + if r == [] then [""] else r
  {
    assert PathOf(r)[1..] == Join(r);
    if r != [] { SplitJoin(r); }
  }

  /** Resolving is idempotent exactly as far as the result is itself an acceptable path: a relative
      input of maximal length resolves to a path that is one character too long to be resolved again. */
  lemma ResolveIdempotent(entries: Entries, path: string)
    requires Resolve(entries, path).Ok?
    ensures var result := Resolve(entries, path).value;
            Resolve(entries, result) == if PathOk(result) then Ok(result) else Err("IMAGE_PATH")
  {
    ResolvedIsLinkFree(entries, path);
    var r :| Resolve(entries, path) == Ok(PathOf(r)) && LinkFree(entries, r, false);
    assert Components(r);
    SplitPath(r);
    PlainStaysInside(r, 0);
    WalkPlain(entries, r, 0);
    assert r[..0] == [] && r[0..] == r;
    var parts := Split(PathOf(r));
    assert parts[1..] == if r == [] then [""] else r;
    if r == [] {
      assert [""][1..] == [] && StaysInside([""], 0);
      assert Walk(entries, [], [""], 0) == Walk(entries, [], [], 0);
    }
  }

  //////////////////////////////////////////////////////////////////////////////
  // When resolving is idempotent, by the input
  //////////////////////////////////////////////////////////////////////////////

  /** What a stored link target is. */
  predicate StoredTarget(target: string) {
    target != "" && target[0] == '/' && forall c :: c in target ==> GoodChar(c)
  }

  /** absolute_link_target, for the entry at the given components. */
  function AbsoluteLinkTarget(name: seq<string>, target: string, symbolic: bool): (r: Result<string>)
    requires name != []
    ensures r.Ok? ==> StoredTarget(r.value)
  {
    if target == "" then Err("IMAGE_LINK")
    else
      var base := if symbolic && target[0] != '/' then PathOf(name[..|name| - 1]) + "/" else "/";
      var raw := base + target;
      match Normalized(raw)
      case Err(code) => Err(code)
      case Ok(_) => Ok(raw)
  }

  predicate StoredLinks(entries: Entries) {
    forall k :: k in entries && entries[k].kind.Link? ==> StoredTarget(entries[k].target)
  }

  /** The characters that components take up in a path, each with its slash. */
  function Weight(parts: seq<string>): nat {
    if parts == [] then 0 else |parts[0]| + 1 + Weight(parts[1..])
  }

  lemma {:induction false} WeightConcat(a: seq<string>, b: seq<string>)
    ensures Weight(a + b) == Weight(a) + Weight(b)
  {
    if a == [] {
      assert a + b == b;
    } else {
      assert (a + b)[1..] == a[1..] + b;
      WeightConcat(a[1..], b);
    }
  }

  lemma {:induction false} SplitWeight(s: string)
    ensures Weight(Split(s)) == |s| + 1
  {
    if s == "" {
      assert [""][1..] == [];
    } else {
      SplitWeight(s[1..]);
      var r := Split(s[1..]);
      if s[0] == '/' {
        assert ([""] + r)[1..] == r;
      } else {
        assert ([[s[0]] + r[0]] + r[1..])[1..] == r[1..];
      }
    }
  }

  lemma {:induction false} JoinWeight(s: seq<string>)
    requires s != []
    ensures |Join(s)| + 1 == Weight(s)
  {
    if |s| > 1 {
      JoinWeight(s[1..]);
    } else {
      assert s[1..] == [];
    }
  }

  lemma WeightPush(parts: seq<string>, part: string)
    ensures Weight(parts + [part]) == Weight(parts) + |part| + 1
  {
    assert [part][1..] == [];
    WeightConcat(parts, [part]);
  }

  lemma WeightPop(parts: seq<string>)
    requires parts != []
    ensures Weight(parts[..|parts| - 1]) < Weight(parts)
  {
    var front, last := parts[..|parts| - 1], parts[|parts| - 1];
    assert parts == front + [last];
    WeightPush(front, last);
  }

  lemma WeightRest(pending: seq<string>)
    requires pending != []
    ensures Weight(pending) == |pending[0]| + 1 + Weight(pending[1..])
  {
  }

  /** The walk never grows a path beyond the limit, except that it may keep a relative one as it is. */
  lemma {:induction false} WalkWeight(entries: Entries, resolved: seq<string>, pending: seq<string>, links: nat)
    requires links <= MAX_LINKS && StoredLinks(entries)
    requires Weight(resolved) + Weight(pending) <= MAX_PATH + 1
    requires Walk(entries, resolved, pending, links).Ok?
    ensures var r := Walk(entries, resolved, pending, links).value;
      Weight(r) <= MAX_PATH || r == resolved + pending
    decreases MAX_LINKS - links, |pending|
  {
    hide PathOf, Split, Join, Weight;
    if pending == [] {
      assert resolved + pending == resolved;
    } else {
      var part, rest := pending[0], pending[1..];
      WeightRest(pending);
      if part == "" || part == "." {
        WalkWeight(entries, resolved, rest, links);
        WeightConcat(resolved, rest);
      } else if part == ".." {
        var popped := resolved[..|resolved| - 1];
        WeightPop(resolved);
        WalkWeight(entries, popped, rest, links);
        WeightConcat(popped, rest);
      } else if entries[PathOf(resolved + [part])].kind.Link? {
        LinkWeight(entries, resolved, pending, links);
      } else {
        WeightPush(resolved, part);
        WalkWeight(entries, resolved + [part], rest, links);
        assert resolved + [part] + rest == resolved + pending;
      }
    }
  }

  /** Behind a link the path is absolute, so it loses a component at once. */
  lemma {:induction false} LinkWeight(entries: Entries, resolved: seq<string>, pending: seq<string>, links: nat)
    requires links <= MAX_LINKS && StoredLinks(entries) && pending != [] && pending[0] !in ["", ".", ".."]
    requires var p := PathOf(resolved + [pending[0]]); p in entries && entries[p].kind.Link?
    requires Walk(entries, resolved, pending, links).Ok?
    ensures Weight(Walk(entries, resolved, pending, links).value) <= MAX_PATH
    decreases MAX_LINKS - links, |pending|, 0
  {
    hide PathOf, Split, Join, Weight;
    var combined := entries[PathOf(resolved + [pending[0]])].target + Suffix(pending[1..]);
    SplitWeight(combined);
    SplitSlash(combined);
    var next := Split(combined);
    WeightRest(next);
    WeightOfNothing();
    WalkWeight(entries, [], next[1..], links + 1);
    WeightConcat([], next[1..]);
  }

  /** Every component is plain and no prefix is a link. */
  ghost predicate Straight(entries: Entries, parts: seq<string>) {
    && (forall i :: 0 <= i < |parts| ==> Plain(parts[i]))
    && (forall k :: 1 <= k <= |parts| && PathOf(parts[..k]) in entries ==> !entries[PathOf(parts[..k])].kind.Link?)
  }

  /** A straight path is its own resolution. */
  lemma {:induction false} WalkStraight(entries: Entries, parts: seq<string>, n: nat)
    requires n <= |parts| && Straight(entries, parts) && Walk(entries, parts[..n], parts[n..], 0).Ok?
    ensures Walk(entries, parts[..n], parts[n..], 0) == Ok(parts)
    decreases |parts| - n
  {
    hide PathOf;
    if n == |parts| {
      assert parts[..n] == parts;
    } else {
      assert parts[n..][0] == parts[n] && parts[n..][1..] == parts[n + 1..];
      assert parts[..n] + [parts[n]] == parts[..n + 1];
      WalkStraight(entries, parts, n + 1);
    }
  }

  lemma LinkFreeStraight(entries: Entries, r: seq<string>)
    requires LinkFree(entries, r, false)
    ensures Straight(entries, r)
  {
  }

  predicate GoodText(parts: seq<string>) {
    forall i, c :: 0 <= i < |parts| && c in parts[i] ==> GoodChar(c)
  }

  lemma {:induction false} SplitGood(s: string)
    requires forall c :: c in s ==> GoodChar(c)
    ensures GoodText(Split(s))
  {
    if s != "" {
      assert s[0] in s && forall c :: c in s[1..] ==> c in s;
      SplitGood(s[1..]);
      hide GoodChar;
    }
  }

  lemma {:induction false} JoinGood(parts: seq<string>)
    requires GoodText(parts)
    ensures forall c :: c in Join(parts) ==> GoodChar(c)
  {
    if |parts| > 1 {
      JoinGood(parts[1..]);
    }
  }

  lemma {:induction false} WalkGood(entries: Entries, resolved: seq<string>, pending: seq<string>, links: nat)
    requires links <= MAX_LINKS && StoredLinks(entries) && GoodText(resolved) && GoodText(pending)
    requires Walk(entries, resolved, pending, links).Ok?
    ensures GoodText(Walk(entries, resolved, pending, links).value)
    decreases MAX_LINKS - links, |pending|
  {
    hide PathOf, Split, Join, GoodChar;
    if pending != [] {
      var part, rest := pending[0], pending[1..];
      assert GoodText(rest);
      if part == "" || part == "." {
        WalkGood(entries, resolved, rest, links);
      } else if part == ".." {
        WalkGood(entries, resolved[..|resolved| - 1], rest, links);
      } else if entries[PathOf(resolved + [part])].kind.Link? {
        var target := entries[PathOf(resolved + [part])].target;
        SuffixGood(rest);
        assert forall c :: c in target + Suffix(rest) ==> c in target || c in Suffix(rest);
        SplitGood(target + Suffix(rest));
        WalkGood(entries, [], Split(target + Suffix(rest)), links + 1);
      } else {
        WalkGood(entries, resolved + [part], rest, links);
      }
    }
  }

  lemma SuffixGood(rest: seq<string>)
    requires GoodText(rest)
    ensures forall c :: c in Suffix(rest) ==> GoodChar(c)
  {
    JoinGood(rest);
    hide Join;
  }

  lemma PathLength(r: seq<string>)
    ensures |PathOf(r)| == if r == [] then 1 else Weight(r)
  {
    if r != [] { JoinWeight(r); } else { assert Join(r) == ""; }
  }

  /** The inputs whose resolution is too long to be resolved again: relative, of the full length, of plain
      components, and through no link. */
  ghost predicate FullAndStraight(entries: Entries, path: string) {
    path != "" && path[0] != '/' && |path| == 4096 && Straight(entries, Split(path))
  }

  lemma TooLongExactly(entries: Entries, path: string)
    requires StoredLinks(entries) && Resolve(entries, path).Ok?
    ensures |Resolve(entries, path).value| > 4096 <==> FullAndStraight(entries, path)
  {
    hide Walk, Straight, PathOf, Split, StoredLinks, LinkFree, Weight;
    var parts := Split(path);
    var r := Walk(entries, [], parts, 0).value;
    SplitWeight(path);
    WeightOfNothing();
    WalkWeight(entries, [], parts, 0);
    WalkLinkFreeFrom(entries, parts);
    LinkFreeStraight(entries, r);
    PathLength(r);
    assert [] + parts == parts;
    if path[0] == '/' {
      SplitSlash(path);
      NotPlain(entries, parts);
    }
    if FullAndStraight(entries, path) {
      assert parts[..0] == [] && parts[0..] == parts;
      WalkStraight(entries, parts, 0);
    }
  }

  lemma WeightOfNothing()
    ensures Weight([]) == 0
  {
  }

  lemma NotPlain(entries: Entries, parts: seq<string>)
    requires parts != [] && parts[0] == ""
    ensures !Straight(entries, parts)
  {
  }

  lemma WalkLinkFreeFrom(entries: Entries, parts: seq<string>)
    requires Components(parts) && Walk(entries, [], parts, 0).Ok?
    ensures LinkFree(entries, Walk(entries, [], parts, 0).value, false)
  {
    WalkLinkFree(entries, [], parts, 0);
  }

  /** With links stored by absolute_link_target, resolving again gives the same path unless the input is
      relative, of the full length, of plain components, and through no link; then it is refused. */
  lemma IdempotentExactly(entries: Entries, path: string)
    requires StoredLinks(entries) && Resolve(entries, path).Ok?
    ensures var result := Resolve(entries, path).value;
      Resolve(entries, result) == if FullAndStraight(entries, path) then Err("IMAGE_PATH") else Ok(result)
  {
    ResolveIdempotent(entries, path);
    TooLongExactly(entries, path);
    ResultGood(entries, path);
    hide Resolve, FullAndStraight;
  }

  lemma ResultGood(entries: Entries, path: string)
    requires StoredLinks(entries) && Resolve(entries, path).Ok?
    ensures Resolve(entries, path).value != "" && forall c :: c in Resolve(entries, path).value ==> GoodChar(c)
  {
    hide Walk, StoredLinks, Split, Join;
    SplitGood(path);
    assert GoodText([]);
    WalkGood(entries, [], Split(path), 0);
    JoinGood(Walk(entries, [], Split(path), 0).value);
  }

  const LONG_NAME: string := seq(MAX_PATH, _ => 'a')

  /** The boundary: a relative path of 4096 characters that resolves, and whose result does not. */
  lemma IdempotenceBoundary()
    ensures var entries: Entries := map["/" + LONG_NAME := Row(File, "")];
            && Resolve(entries, LONG_NAME) == Ok("/" + LONG_NAME)
            && Resolve(entries, "/" + LONG_NAME) == Err("IMAGE_PATH")
  {
    var name := LONG_NAME;
    assert |name| == MAX_PATH && name[0] == 'a' && SlashFree(name) && PathOk(name);
    hide LONG_NAME, PathOk;
    SplitSlashFree(name);
    var entries: Entries := map["/" + name := Row(File, "")];
    assert [name][1..] == [] && [] + [name] == [name];
    assert Join([name]) == name;
    assert StaysInside([name], 0);
    assert Walk(entries, [], [name], 0) == Walk(entries, [name], [], 0);
    TooLong("/" + name);
  }

  lemma TooLong(path: string)
    requires |path| > MAX_PATH
    ensures !PathOk(path)
  {
  }

  //////////////////////////////////////////////////////////////////////////////
  // The recursive left-to-right resolver
  //////////////////////////////////////////////////////////////////////////////

  datatype Reached = Reached(at: seq<string>, links: nat)

  /** Resolve the components of one path completely, following each link by resolving its whole target
      first.  after is what the caller will resolve next; it matters only for the length and parent checks. */
  function Follow(entries: Entries, at: seq<string>, parts: seq<string>, after: seq<string>, links: nat):
    (r: Result<Reached>)
    requires links <= MAX_LINKS
    ensures r.Ok? ==> links <= r.value.links <= MAX_LINKS
    decreases MAX_LINKS - links, |parts|
  {
    if parts == [] then Ok(Reached(at, links))
    else
      var part, rest := parts[0], parts[1..];
      if part == "" || part == "." then Follow(entries, at, rest, after, links)
      else if part == ".." then
        if at == [] then Err("IMAGE_PATH_ESCAPE") else Follow(entries, at[..|at| - 1], rest, after, links)
      else
        var here := at + [part];
        if PathOf(here) !in entries then Err("IMAGE_FILE_MISSING")
        else
          var row := entries[PathOf(here)];
          if row.kind.Link? then
            if links + 1 > MAX_LINKS then Err("IMAGE_LINK_DEPTH")
            else if |row.target + Suffix(rest + after)| > MAX_PATH then Err("IMAGE_PATH")
            else
              match Follow(entries, [], Split(row.target), rest + after, links + 1)
              case Err(code) => Err(code)
              case Ok(target) => Follow(entries, target.at, rest, after, target.links)
          else if rest + after != [] && !row.kind.Directory? then Err("IMAGE_PATH_PARENT")
          else Follow(entries, here, rest, after, links)
  }

  function Continue(entries: Entries, r: Result<Reached>, after: seq<string>): Result<seq<string>>
    requires r.Ok? ==> r.value.links <= MAX_LINKS
  {
    if r.Err? then Err(r.code) else Walk(entries, r.value.at, after, r.value.links)
  }

  lemma SplitCombined(target: string, pending: seq<string>)
    requires Components(pending)
    ensures Split(target + Suffix(pending)) == Split(target) + pending
  {
    if pending == [] {
      assert target + "" == target && Split(target) + [] == Split(target);
    } else {
      SplitJoin(pending);
      SplitAppend(target, Join(pending));
      assert target + ("/" + Join(pending)) == target + "/" + Join(pending);
    }
  }

  /** Walking a list of components is following its first part and walking on from where that led. */
  lemma {:induction false} WalkIsFollow(entries: Entries, at: seq<string>, parts: seq<string>, after: seq<string>,
                                        links: nat)
    requires links <= MAX_LINKS && Components(parts) && Components(after)
    ensures Walk(entries, at, parts + after, links)
            == Continue(entries, Follow(entries, at, parts, after, links), after)
    decreases MAX_LINKS - links, |parts|
  {
    hide PathOf, Split, Suffix;
    if parts == [] {
      assert parts + after == after;
    } else {
      var part, rest := parts[0], parts[1..];
      assert (parts + after)[0] == part && (parts + after)[1..] == rest + after;
      if part == "" || part == "." {
        WalkIsFollow(entries, at, rest, after, links);
      } else if part == ".." {
        if at != [] { WalkIsFollow(entries, at[..|at| - 1], rest, after, links); }
      } else if PathOf(at + [part]) in entries {
        var row := entries[PathOf(at + [part])];
        if !row.kind.Link? {
          WalkIsFollow(entries, at + [part], rest, after, links);
        } else if links + 1 <= MAX_LINKS && |row.target + Suffix(rest + after)| <= MAX_PATH {
          LinkIsFollow(entries, at, parts, after, links, row);
        }
      }
    }
  }

  lemma LinkIsFollow(entries: Entries, at: seq<string>, parts: seq<string>, after: seq<string>, links: nat, row: Row)
    requires links + 1 <= MAX_LINKS && Components(parts) && Components(after) && parts != []
    requires var rest := parts[1..];
             && parts[0] != "" && parts[0] != "." && parts[0] != ".." && PathOf(at + [parts[0]]) in entries
             && row == entries[PathOf(at + [parts[0]])] && row.kind.Link?
             && |row.target + Suffix(rest + after)| <= MAX_PATH
    ensures Walk(entries, at, parts + after, links)
            == Continue(entries, Follow(entries, at, parts, after, links), after)
    decreases MAX_LINKS - links, |parts|, 0
  {
    hide PathOf, Split, Suffix;
    var rest := parts[1..];
    assert (parts + after)[0] == parts[0] && (parts + after)[1..] == rest + after;
    assert Components(rest + after);
    SplitCombined(row.target, rest + after);
    WalkIsFollow(entries, [], Split(row.target), rest + after, links + 1);
    var target := Follow(entries, [], Split(row.target), rest + after, links + 1);
    if target.Ok? {
      WalkIsFollow(entries, target.value.at, rest, after, target.value.links);
    }
  }

  /** The worklist and the recursive resolver agree on every path, in results and in rejections. */
  lemma AgreesWithRecursive(entries: Entries, path: string)
    ensures Walk(entries, [], Split(path), 0)
            == match Follow(entries, [], Split(path), [], 0)
               case Err(code) => Err(code)
               case Ok(reached) => Ok(reached.at)
  {
    hide Split;
    WalkIsFollow(entries, [], Split(path), [], 0);
    assert Split(path) + [] == Split(path);
  }
}
