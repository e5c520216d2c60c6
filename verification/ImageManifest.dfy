/** Image keys in base64url (RFC 4648 section 5, without padding), and the manifest that lists them. */
module ImageManifest {
  import opened Outcomes
  import opened Ordering
  import opened Texts
  import UrlParse
  import opened Outputs

  const MAX_MANIFEST_BYTES: nat := 393216

  //////////////////////////////////////////////////////////////////////////////
  // Base64url
  //////////////////////////////////////////////////////////////////////////////

  /** A string of bytes, one character each. */
  predicate Bytes(s: string) { forall c :: c in s ==> c as int < 256 }

  function Char64(n: nat): char
    requires n < 64
  {
    if n < 26 then ('A' as int + n) as char
    else if n < 52 then ('a' as int + n - 26) as char
    else if n < 62 then ('0' as int + n - 52) as char
    else if n == 62 then '-' else '_'
  }

  predicate Alphabet(c: char) { Alnum(c) || c == '-' || c == '_' }

  function Value64(c: char): (n: nat)
    ensures n < 64
  {
    if Upper(c) then c as int - 'A' as int
    else if LowerLetter(c) then c as int - 'a' as int + 26
    else if Digit(c) then c as int - '0' as int + 52
    else if c == '-' then 62
    else 63
  }

  lemma Char64Value(n: nat)
    requires n < 64
    ensures Value64(Char64(n)) == n && Alphabet(Char64(n))
  {
  }

  /** The two, three or four characters of one, two or three bytes. */
  function EncodeGroup(g: string): (r: string)
    requires 1 <= |g| <= 3 && Bytes(g)
    ensures |r| == |g| + 1
  {
    assert forall i :: 0 <= i < |g| ==> g[i] in g;
    var a := g[0] as int;
    var b := if |g| > 1 then g[1] as int else 0;
    var c := if |g| > 2 then g[2] as int else 0;
    [Char64(a / 4), Char64(a % 4 * 16 + b / 16)]
    + (if |g| > 1 then [Char64(b % 16 * 4 + c / 64)] else [])
    + (if |g| > 2 then [Char64(c % 64)] else [])
  }

  function DecodeGroup(r: string): (g: string)
    requires 2 <= |r| <= 4
    ensures |g| == |r| - 1 && Bytes(g)
  {
    var a, b := Value64(r[0]), Value64(r[1]);
    var c := if |r| > 2 then Value64(r[2]) else 0;
    var d := if |r| > 3 then Value64(r[3]) else 0;
    [(a * 4 + b / 16) as char]
    + (if |r| > 2 then [(b % 16 * 16 + c / 4) as char] else [])
    + (if |r| > 3 then [(c % 4 * 64 + d) as char] else [])
  }

  /** Regrouping three bytes as four sixes, and back. */
  lemma Regroup(a: nat, b: nat, c: nat)
    requires a < 256 && b < 256 && c < 256
    ensures var x, y := a % 4 * 16 + b / 16, b % 16 * 4 + c / 64;
      && a / 4 < 64 && x < 64 && y < 64 && c % 64 < 64
      && a / 4 * 4 + x / 16 == a && x % 16 * 16 + y / 4 == b && y % 4 * 64 + c % 64 == c
  {
    var x, y := a % 4 * 16 + b / 16, b % 16 * 4 + c / 64;
    assert x / 16 == a % 4 && x % 16 == b / 16;
    assert y / 4 == b % 16 && y % 4 == c / 64;
  }

  function ByteAt(g: string, i: nat): (n: nat)
    requires Bytes(g)
    ensures n < 256
  {
    if i < |g| then
      assert g[i] in g;
      g[i] as int
    else 0
  }

  /** The four sixes of a group, of which |g| + 1 are written. */
  lemma GroupChars(g: string)
    requires 1 <= |g| <= 3 && Bytes(g)
    ensures var a, b, c, r := ByteAt(g, 0), ByteAt(g, 1), ByteAt(g, 2), EncodeGroup(g);
      && a / 4 < 64 && a % 4 * 16 + b / 16 < 64 && b % 16 * 4 + c / 64 < 64
      && r[0] == Char64(a / 4) && r[1] == Char64(a % 4 * 16 + b / 16)
      && (|g| > 1 ==> r[2] == Char64(b % 16 * 4 + c / 64))
      && (|g| > 2 ==> r[3] == Char64(c % 64))
  {
    hide Char64;
    Regroup(ByteAt(g, 0), ByteAt(g, 1), ByteAt(g, 2));
  }

  lemma GroupRoundTrip(g: string)
    requires 1 <= |g| <= 3 && Bytes(g)
    ensures DecodeGroup(EncodeGroup(g)) == g
    ensures forall c :: c in EncodeGroup(g) ==> Alphabet(c)
  {
    hide Char64, Value64, Alphabet, EncodeGroup, DecodeGroup;
    var a, b, c, r := ByteAt(g, 0), ByteAt(g, 1), ByteAt(g, 2), EncodeGroup(g);
    GroupChars(g);
    Regroup(a, b, c);
    Char64Value(a / 4);
    Char64Value(a % 4 * 16 + b / 16);
    Char64Value(b % 16 * 4 + c / 64);
    Char64Value(c % 64);
    DecodedBytes(r);
    forall i | 0 <= i < |r| ensures Alphabet(r[i]) {
      assert i == 0 || i == 1 || i == 2 || i == 3;
    }
    var d := DecodeGroup(r);
    assert forall i :: 0 <= i < |g| ==> ByteAt(g, i) as char == g[i];
    assert d[0] == g[0];
    assert |g| > 1 ==> d[1] == g[1];
    assert |g| > 2 ==> d[2] == g[2];
  }

  /** The bytes that the sixes of a group stand for. */
  lemma DecodedBytes(r: string)
    requires 2 <= |r| <= 4
    ensures var d := DecodeGroup(r);
      && d[0] as int == Value64(r[0]) * 4 + Value64(r[1]) / 16
      && (|r| > 2 ==> d[1] as int == Value64(r[1]) % 16 * 16 + Value64(r[2]) / 4)
      && (|r| > 3 ==> d[2] as int == Value64(r[2]) % 4 * 64 + Value64(r[3]))
  {
    hide Value64;
  }

  function Encode64(s: string): string
    requires Bytes(s)
  {
    if s == "" then ""
    else if |s| <= 3 then EncodeGroup(s)
    else
      assert forall c :: c in s[..3] || c in s[3..] ==> c in s;
      EncodeGroup(s[..3]) + Encode64(s[3..])
  }

  /** b64decode of the padded text; a length of one more than a multiple of four cannot be padded. */
  function Decode64(r: string): (s: Option<string>)
    ensures s.Some? ==> Bytes(s.value)
  {
    if r == "" then Some("")
    else if |r| == 1 || exists c :: c in r && !Alphabet(c) then None
    else if |r| <= 4 then Some(DecodeGroup(r))
    else
      match Decode64(r[4..])
      case None => None
      case Some(rest) => Some(DecodeGroup(r[..4]) + rest)
  }

  lemma {:induction false} Base64RoundTrip(s: string)
    requires Bytes(s)
    ensures Decode64(Encode64(s)) == Some(s)
    ensures forall c :: c in Encode64(s) ==> Alphabet(c)
    ensures s != "" ==> Encode64(s) != ""
  {
    hide EncodeGroup, DecodeGroup, Alphabet;
    if 0 < |s| <= 3 {
      GroupRoundTrip(s);
    } else if s != "" {
      var first, rest := s[..3], s[3..];
      assert forall c :: c in first || c in rest ==> c in s;
      GroupRoundTrip(first);
      Base64RoundTrip(rest);
      var e, f := EncodeGroup(first), Encode64(rest);
      assert (e + f)[..4] == e && (e + f)[4..] == f && s == first + rest;
    }
  }

  lemma {:induction false} Base64Length(s: string)
    requires Bytes(s)
    ensures 3 * |Encode64(s)| <= 4 * |s| + 2
  {
    hide EncodeGroup;
    if |s| > 3 {
      assert forall c :: c in s[3..] ==> c in s;
      Base64Length(s[3..]);
    }
  }

  //////////////////////////////////////////////////////////////////////////////
  // Compact JSON arrays of plain strings
  //////////////////////////////////////////////////////////////////////////////

  function Items(keys: seq<string>): string
    requires keys != []
  {
    "\"" + keys[0] + "\"" + (if |keys| == 1 then "]" else "," + Items(keys[1..]))
  }

  /** json.dumps with compact separators, for strings that need no escapes */
  function ManifestJson(keys: seq<string>): string {
    if keys == [] then "[]" else "[" + Items(keys)
  }

  function ParseItems(s: string): Option<seq<string>>
    decreases |s|
  {
    if s == "" || s[0] != '"' then None
    else
      var n := Until(s[1..], {'"'});
      if n == |s| - 1 then None
      else
        var key, after := s[1..][..n], s[1..][n + 1..];
        if after == "]" then Some([key])
        else if after == "" || after[0] != ',' then None
        else
          match ParseItems(after[1..])
          case None => None
          case Some(rest) => Some([key] + rest)
  }

  function ParseJson(s: string): Option<seq<string>> {
    if s == "[]" then Some([])
    else if s == "" || s[0] != '[' then None
    else ParseItems(s[1..])
  }

  lemma ParseFirst(key: string, after: string)
    requires '"' !in key
    ensures var s := "\"" + key + "\"" + after;
      && Until(s[1..], {'"'}) == |key| && s[1..][..|key|] == key && s[1..][|key| + 1..] == after
      && |s| == |key| + |after| + 2
  {
    var s := "\"" + key + "\"" + after;
    assert s[1..] == key + "\"" + after;
    UrlParse.UntilIs(s[1..], {'"'}, |key|);
  }

  lemma ParseStep(key: string, after: string)
    requires '"' !in key && after != ""
    ensures var r := ParseItems("\"" + key + "\"" + after);
      && (after == "]" ==> r == Some([key]))
      && (after != "]" && after[0] == ',' && ParseItems(after[1..]).Some? ==>
            r == Some([key] + ParseItems(after[1..]).value))
  {
    hide Until;
    ParseFirst(key, after);
    assert ("\"" + key + "\"" + after)[0] == '"';
  }

  lemma {:induction false} ParseItemsRoundTrip(keys: seq<string>)
    requires keys != [] && forall k :: k in keys ==> '"' !in k
    ensures ParseItems(Items(keys)) == Some(keys)
  {
    hide ParseItems;
    var key := keys[0];
    assert key in keys;
    if |keys| == 1 {
      ParseStep(key, "]");
      assert keys == [key];
    } else {
      var rest := keys[1..];
      assert forall k :: k in rest ==> k in keys;
      ParseItemsRoundTrip(rest);
      var after := "," + Items(rest);
      assert after[1..] == Items(rest) && after[0] == ',';
      ParseStep(key, after);
      assert keys == [key] + rest;
    }
  }

  lemma ParseJsonRoundTrip(keys: seq<string>)
    requires forall k :: k in keys ==> '"' !in k
    ensures ParseJson(ManifestJson(keys)) == Some(keys)
  {
    if keys != [] {
      ParseItemsRoundTrip(keys);
      var s := ManifestJson(keys);
      assert s[1..] == Items(keys);
      assert s[1] == '"';
      hide Items, ParseItems;
    }
  }

  //////////////////////////////////////////////////////////////////////////////
  // The manifest
  //////////////////////////////////////////////////////////////////////////////

  /** A canonical URL test: it passes short, nonempty ASCII texts only. */
  type UrlCheck = valid: string -> bool | forall s :: valid(s) ==> ShortText(s) witness (s: string) => false

  predicate ShortText(s: string) {
    s != "" && |s| <= 2048 && Bytes(s) && forall c :: c in s ==> Ascii(c)
  }

  function Prefix(publication: string, page: string): string
    requires Bytes(page)
  {
    "image_data:" + publication + ":" + Encode64(page) + ":"
  }

  /** image_data_key */
  function ImageKey(publication: string, page: string, source: string): string
    requires Bytes(page) && Bytes(source)
  {
    Prefix(publication, page) + Encode64(source)
  }

  /** The parts of a key. */
  lemma KeyParts(publication: string, page: string, source: string)
    requires ':' !in publication && Bytes(page) && Bytes(source)
    ensures SplitOn(ImageKey(publication, page, source), ':')
            == ["image_data", publication, Encode64(page), Encode64(source)]
  {
    hide Encode64, SplitOn, Alphabet, Bytes;
    var p, s := Encode64(page), Encode64(source);
    Base64RoundTrip(page);
    Base64RoundTrip(source);
    NoColon(p);
    NoColon(s);
    SplitFour("image_data", publication, p, s, ':');
    assert "image_data:" == "image_data" + [':'] && ":" == [':'];
  }

  function ImageKeys(publication: string, page: string, sources: seq<string>): seq<string>
    requires Bytes(page) && forall s :: s in sources ==> Bytes(s)
  {
    seq(|sources|, i requires 0 <= i < |sources| => ImageKey(publication, page, sources[i]))
  }

  function Itself(s: string): string { s }

  /** Canonical URLs in strictly ascending order. */
  ghost predicate SourceList(valid: UrlCheck, sources: seq<string>) {
    (forall s :: s in sources ==> valid(s)) && Ascending(sources, Itself)
  }

  lemma SourceBytes(valid: UrlCheck, sources: seq<string>)
    requires SourceList(valid, sources)
    ensures forall s :: s in sources ==> Bytes(s)
  {
    hide Bytes, Ascending;
    forall s | s in sources ensures Bytes(s) { assert ShortText(s); }
  }

  /** The check of one manifest key: the source it names, if it passes. */
  function KeySource(valid: UrlCheck, prefix: string, key: string): Option<string> {
    if !(prefix <= key) || key == prefix || ':' in key[|prefix|..] then None
    else
      var encoded := key[|prefix|..];
      match Decode64(encoded)
      case None => None
      case Some(source) =>
        if Encode64(source) != encoded || !valid(source) then None else Some(source)
  }

  /** A key passes exactly when it is the key of a valid source. */
  lemma KeySourceIs(valid: UrlCheck, publication: string, page: string, key: string, source: string)
    requires Bytes(page)
    ensures KeySource(valid, Prefix(publication, page), key) == Some(source) <==>
      valid(source) && Bytes(source) && key == ImageKey(publication, page, source)
  {
    hide Alphabet;
    var prefix := Prefix(publication, page);
    if valid(source) {
      assert ShortText(source);
      Base64RoundTrip(source);
      NoColon(Encode64(source));
      var made := prefix + Encode64(source);
      assert made[|prefix|..] == Encode64(source);
      assert KeySource(valid, prefix, made) == Some(source);
    }
    hide Encode64, Decode64;
    if KeySource(valid, prefix, key) == Some(source) {
      assert key == prefix + key[|prefix|..];
    }
  }

  lemma NoColon(s: string)
    requires forall c :: c in s ==> Alphabet(c)
    ensures ':' !in s && '"' !in s
  {
  }

  /** The text lists the keys of exactly these sources. */
  ghost predicate Manifests(valid: UrlCheck, publication: string, page: string, text: string,
                            sources: seq<string>)
    requires Bytes(page)
  {
    && SourceList(valid, sources)
    && (forall s :: s in sources ==> Bytes(s))
    && text == ManifestJson(ImageKeys(publication, page, sources))
  }

  ghost predicate ManifestOk(valid: UrlCheck, publication: string, page: string, count: nat, text: string) {
    && Hex64(publication) && valid(page) && Bytes(page) && count <= 64
    && Utf8Length(text) <= 393_216
    && exists sources :: |sources| == count && Manifests(valid, publication, page, text, sources)
  }

  lemma KeysArePlain(valid: UrlCheck, publication: string, page: string, sources: seq<string>)
    requires Hex64(publication) && Bytes(page) && SourceList(valid, sources) && forall s :: s in sources ==> Bytes(s)
    ensures forall k :: k in ImageKeys(publication, page, sources) ==> '"' !in k
    ensures forall i :: 0 <= i < |sources| ==>
              KeySource(valid, Prefix(publication, page), ImageKeys(publication, page, sources)[i]) == Some(sources[i])
  {
    hide KeySource, Ascending, Encode64, Bytes;
    PrefixPlain(publication, page);
    var keys := ImageKeys(publication, page, sources);
    forall i | 0 <= i < |sources|
      ensures '"' !in keys[i] && KeySource(valid, Prefix(publication, page), keys[i]) == Some(sources[i])
    {
      assert sources[i] in sources;
      KeySourceIs(valid, publication, page, keys[i], sources[i]);
      Base64RoundTrip(sources[i]);
      NoColon(Encode64(sources[i]));
    }
  }

  lemma PrefixPlain(publication: string, page: string)
    requires Hex64(publication) && Bytes(page)
    ensures '"' !in Prefix(publication, page)
  {
    Base64RoundTrip(page);
    NoColon(Encode64(page));
    hide Encode64;
    forall c | c in Prefix(publication, page) ensures c != '"' {
      assert c in "image_data:" || c in publication || c == ':' || c in Encode64(page);
    }
  }

  /** The keys read from a manifest are those of its sources. */
  lemma ManifestKeys(valid: UrlCheck, publication: string, page: string, text: string, sources: seq<string>)
    requires Hex64(publication) && Bytes(page) && Manifests(valid, publication, page, text, sources)
    ensures ParseJson(text) == Some(ImageKeys(publication, page, sources))
  {
    KeysArePlain(valid, publication, page, sources);
    hide KeySource, Hex64, SourceList, ManifestJson, ParseJson, ImageKeys;
    ParseJsonRoundTrip(ImageKeys(publication, page, sources));
  }

  /** The image_manifest check of validate_stage_chunk. */
  method ValidateManifest(valid: UrlCheck, publication: string, page: string, count: nat, text: string)
    returns (ok: bool)
    ensures ok <==> ManifestOk(valid, publication, page, count, text)
  {
    hide KeySource, ParseJson, ManifestJson, Hex64, ImageKeys, Ascending, Prefix, Less;
    if !Hex64(publication) || !valid(page) {
      return false;
    }
    assert ShortText(page);
    if count > MAX_IMAGES || Utf8Length(text) > MAX_MANIFEST_BYTES {
      return false;
    }
    var parsed := ParseJson(text);
    ParsedKeys(valid, publication, page, count, text);
    if parsed.None? || |parsed.value| != count || ManifestJson(parsed.value) != text {
      return false;
    }
    var keys, prefix := parsed.value, Prefix(publication, page);
    var previous: Option<string> := None;
    ghost var found: seq<string> := [];
    NothingAscends(found, Itself);
    for n := 0 to count
      invariant |found| == n && previous == if n == 0 then None else Some(found[n - 1])
      invariant forall i :: 0 <= i < n ==> KeySource(valid, prefix, keys[i]) == Some(found[i])
      invariant Ascending(found, Itself)
    {
      var source := KeySource(valid, prefix, keys[n]);
      if source.None? {
        return false;
      }
      if previous.Some? && !Less(previous.value, source.value) {
        OutOfOrder(valid, publication, page, count, text, n);
        return false;
      }
      GrowFound(found, source.value);
      found, previous := found + [source.value], source;
    }
    FoundManifest(valid, publication, page, keys, found);
    return true;
  }

  lemma GrowFound(found: seq<string>, source: string)
    requires Ascending(found, Itself) && (found != [] ==> Less(found[|found| - 1], source))
    ensures Ascending(found + [source], Itself)
  {
    hide Less;
    var s := found + [source];
    assert s[..|found|] == found;
    GrowAscending(s, Itself, |found|);
    assert s[..|found| + 1] == s;
  }

  /** In a good manifest every key passes, and the sources ascend. */
  lemma ParsedKeys(valid: UrlCheck, publication: string, page: string, count: nat, text: string)
    requires Bytes(page)
    ensures ManifestOk(valid, publication, page, count, text) ==>
      ParseJson(text).Some? && |ParseJson(text).value| == count && ManifestJson(ParseJson(text).value) == text
      && KeysAscend(valid, Prefix(publication, page), ParseJson(text).value)
  {
    hide KeySource, ParseJson, ManifestJson, Hex64, SourceList, Less, Prefix;
    if ManifestOk(valid, publication, page, count, text) {
      var sources :| |sources| == count && Manifests(valid, publication, page, text, sources);
      ManifestKeys(valid, publication, page, text, sources);
      KeysArePlain(valid, publication, page, sources);
      SourcesAscend(valid, sources);
    }
  }

  lemma SourcesAscend(valid: UrlCheck, sources: seq<string>)
    requires SourceList(valid, sources)
    ensures forall i :: 0 < i < |sources| ==> Less(sources[i - 1], sources[i])
  {
    hide Less;
    forall i | 0 < i < |sources| ensures Less(sources[i - 1], sources[i]) {
      assert Less(Itself(sources[i - 1]), Itself(sources[i]));
    }
  }

  ghost predicate KeysAscend(valid: UrlCheck, prefix: string, keys: seq<string>) {
    && (forall i :: 0 <= i < |keys| ==> KeySource(valid, prefix, keys[i]).Some?)
    && (forall i :: 0 < i < |keys| ==>
          Less(KeySource(valid, prefix, keys[i - 1]).value, KeySource(valid, prefix, keys[i]).value))
  }

  lemma OutOfOrder(valid: UrlCheck, publication: string, page: string, count: nat, text: string, n: nat)
    requires Bytes(page) && ParseJson(text).Some? && 0 < n < |ParseJson(text).value|
    requires var keys, prefix := ParseJson(text).value, Prefix(publication, page);
      KeySource(valid, prefix, keys[n]).Some? && KeySource(valid, prefix, keys[n - 1]).Some?
      && !Less(KeySource(valid, prefix, keys[n - 1]).value, KeySource(valid, prefix, keys[n]).value)
    ensures !ManifestOk(valid, publication, page, count, text)
  {
    hide ManifestOk, KeySource, ParseJson, Prefix, Less;
    ParsedKeys(valid, publication, page, count, text);
  }

  lemma FoundManifest(valid: UrlCheck, publication: string, page: string, keys: seq<string>, found: seq<string>)
    requires Bytes(page) && |keys| == |found| && Ascending(found, Itself)
    requires forall i :: 0 <= i < |keys| ==> KeySource(valid, Prefix(publication, page), keys[i]) == Some(found[i])
    ensures Manifests(valid, publication, page, ManifestJson(keys), found)
  {
    hide KeySource, ManifestJson, Ascending, Bytes, Prefix, Encode64;
    forall i | 0 <= i < |keys|
      ensures valid(found[i]) && Bytes(found[i]) && keys[i] == ImageKey(publication, page, found[i])
    {
      KeySourceIs(valid, publication, page, keys[i], found[i]);
    }
    assert ImageKeys(publication, page, found) == keys;
  }

  //////////////////////////////////////////////////////////////////////////////
  // The manifest of an accepted output
  //////////////////////////////////////////////////////////////////////////////

  lemma {:induction false} JsonLength(keys: seq<string>, n: nat)
    requires forall k :: k in keys ==> |k| <= n
    ensures |ManifestJson(keys)| <= 2 + Total(|keys|, n + 3)
  {
    if keys != [] {
      var rest := keys[1..];
      assert keys[0] in keys && forall k :: k in rest ==> k in keys;
      JsonLength(rest, n);
    }
  }

  /** k times n */
  function Total(k: nat, n: nat): nat { if k == 0 then 0 else n + Total(k - 1, n) }

  lemma {:induction false} TotalBound(k: nat, n: nat)
    requires k <= 64 && n <= 5542
    ensures Total(k, n) <= 5542 * k
  {
    if k > 0 { TotalBound(k - 1, n); }
  }

  lemma ShortKeys(valid: UrlCheck, publication: string, page: string, sources: seq<string>)
    requires Hex64(publication) && valid(page) && Bytes(page) && SourceList(valid, sources)
    requires forall s :: s in sources ==> Bytes(s)
    ensures forall k :: k in ImageKeys(publication, page, sources) ==> |k| <= 5539
  {
    hide Ascending, Encode64, Bytes;
    assert ShortText(page);
    Base64Length(page);
    forall k | k in ImageKeys(publication, page, sources) ensures |k| <= 5539 {
      var i :| 0 <= i < |sources| && ImageKeys(publication, page, sources)[i] == k;
      assert sources[i] in sources;
      assert ShortText(sources[i]);
      Base64Length(sources[i]);
    }
  }

  lemma {:induction false} ItemsAscii(keys: seq<string>, c: char)
    requires keys != [] && c in Items(keys)
    ensures c in "\",]" || exists k :: k in keys && c in k
  {
    var key := keys[0];
    assert key in keys;
    if |keys| > 1 && c in Items(keys[1..]) {
      ItemsAscii(keys[1..], c);
      assert forall k :: k in keys[1..] ==> k in keys;
    }
  }

  lemma AlphabetAscii(c: char)
    ensures Alphabet(c) ==> Ascii(c)
  {
  }

  lemma KeyAscii(publication: string, page: string, source: string, c: char)
    requires Hex64(publication) && Bytes(page) && Bytes(source) && c in ImageKey(publication, page, source)
    ensures Ascii(c)
  {
    hide Encode64, Decode64, Alphabet;
    Base64RoundTrip(page);
    Base64RoundTrip(source);
    AlphabetAscii(c);
    assert c in "image_data:" || c in publication || c == ':' || c in Encode64(page) || c in Encode64(source);
  }

  lemma JsonAscii(publication: string, page: string, sources: seq<string>)
    requires Hex64(publication) && Bytes(page) && forall s :: s in sources ==> Bytes(s)
    ensures forall c :: c in ManifestJson(ImageKeys(publication, page, sources)) ==> Ascii(c)
  {
    hide Bytes, ImageKey, Hex64, Items;
    var keys := ImageKeys(publication, page, sources);
    forall c | c in ManifestJson(keys) ensures Ascii(c) {
      if keys != [] && c in Items(keys) {
        ItemsAscii(keys, c);
        if c !in "\",]" {
          var k :| k in keys && c in k;
          var i :| 0 <= i < |sources| && keys[i] == k;
          assert sources[i] in sources;
          KeyAscii(publication, page, sources[i], c);
        }
      }
    }
  }

  /** The manifest built for at most 64 canonical images stays below its limit and passes its check. */
  lemma BuiltManifestPasses(valid: UrlCheck, publication: string, page: string, sources: seq<string>)
    requires Hex64(publication) && valid(page) && Bytes(page) && |sources| <= MAX_IMAGES
    requires SourceList(valid, sources) && forall s :: s in sources ==> Bytes(s)
    ensures var text := ManifestJson(ImageKeys(publication, page, sources));
      ManifestOk(valid, publication, page, |sources|, text) && Utf8Length(text) < 393_216
  {
    hide ManifestJson, Bytes, Prefix, Hex64, SourceList, Total, ImageKeys;
    var keys := ImageKeys(publication, page, sources);
    KeyCount(publication, page, sources);
    ShortKeys(valid, publication, page, sources);
    JsonLength(keys, 5539);
    TotalBound(|keys|, 5542);
    JsonAscii(publication, page, sources);
    AsciiLength(ManifestJson(keys));
    assert Manifests(valid, publication, page, ManifestJson(keys), sources);
  }

  lemma KeyCount(publication: string, page: string, sources: seq<string>)
    requires Bytes(page) && forall s :: s in sources ==> Bytes(s)
    ensures |ImageKeys(publication, page, sources)| == |sources|
  {
  }

  /** A manifest decodes to one list of sources only. */
  lemma ManifestInjective(valid: UrlCheck, publication: string, page: string, text: string,
                          sources: seq<string>, other: seq<string>)
    requires Hex64(publication) && Bytes(page)
    requires Manifests(valid, publication, page, text, sources) && Manifests(valid, publication, page, text, other)
    ensures sources == other
  {
    hide KeySource, ManifestJson, Bytes, Prefix, Hex64, SourceList, ParseJson, ImageKeys;
    ManifestKeys(valid, publication, page, text, sources);
    ManifestKeys(valid, publication, page, text, other);
    KeyCount(publication, page, sources);
    KeyCount(publication, page, other);
    KeysArePlain(valid, publication, page, sources);
    KeysArePlain(valid, publication, page, other);
    var keys := ImageKeys(publication, page, sources);
    forall i | 0 <= i < |sources| ensures sources[i] == other[i] {
      assert KeySource(valid, Prefix(publication, page), keys[i]) == Some(sources[i]);
    }
  }
}
