/** String order by code point, and sorting by string keys. */
module Ordering {
  predicate Less(a: string, b: string) {
    b != "" && (a == "" || a[0] < b[0] || (a[0] == b[0] && Less(a[1..], b[1..])))
  }

  lemma LessTotal(a: string, b: string)
    ensures Less(a, b) || Less(b, a) || a == b
    ensures !(Less(a, b) && Less(b, a)) && !Less(a, a)
  {
    if a != "" && b != "" {
      assert a == [a[0]] + a[1..] && b == [b[0]] + b[1..];
      LessTotal(a[1..], b[1..]);
    }
    if a != "" { LessTotal(a[1..], a[1..]); }
  }

  lemma LessTransitive(a: string, b: string, c: string)
    requires Less(a, b) && Less(b, c)
    ensures Less(a, c)
  {
    if a != "" && a[0] == b[0] && b[0] == c[0] {
      LessTransitive(a[1..], b[1..], c[1..]);
    }
  }

  /** Strictly increasing: sorted and free of duplicates. */
  ghost predicate Increasing(s: seq<string>) {
    forall i, j :: 0 <= i < j < |s| ==> Less(s[i], s[j])
  }

  function InsertString(x: string, s: seq<string>): seq<string> {
    if s == [] then [x]
    else if Less(x, s[0]) then [x] + s
    else if x == s[0] then s
    else [s[0]] + InsertString(x, s[1..])
  }

  lemma {:induction false} InsertStringSorted(x: string, s: seq<string>)
    requires Increasing(s)
    ensures Increasing(InsertString(x, s))
    ensures forall y :: y in InsertString(x, s) <==> y == x || y in s
  {
    if s != [] {
      LessTotal(x, s[0]);
      if Less(x, s[0]) {
        forall i | 0 <= i < |s| ensures Less(x, s[i]) {
          if i > 0 { LessTransitive(x, s[0], s[i]); }
        }
      } else if x != s[0] {
        InsertStringSorted(x, s[1..]);
        assert forall y :: y in s <==> y == s[0] || y in s[1..];
        var r := InsertString(x, s[1..]);
        forall i | 0 <= i < |r| ensures Less(s[0], r[i]) {
          assert r[i] in r;
          if r[i] != x {
            var k :| 0 <= k < |s[1..]| && s[1..][k] == r[i];
            assert s[k + 1] == r[i];
          }
        }
      }
    }
  }

  /** sorted(set(s)) */
  function SortedSet(s: seq<string>): seq<string> {
    if s == [] then [] else InsertString(s[0], SortedSet(s[1..]))
  }

  lemma {:induction false} SortedSetOk(s: seq<string>)
    ensures Increasing(SortedSet(s))
    ensures forall y :: y in SortedSet(s) <==> y in s
  {
    if s != [] {
      SortedSetOk(s[1..]);
      InsertStringSorted(s[0], SortedSet(s[1..]));
      assert forall y :: y in s <==> y == s[0] || y in s[1..];
    }
  }

  /** A strictly increasing sequence is determined by its elements. */
  lemma {:induction false} IncreasingUnique(s: seq<string>, t: seq<string>)
    requires Increasing(s) && Increasing(t)
    requires forall y :: y in s <==> y in t
    ensures s == t
  {
    HasElement(s);
    HasElement(t);
    if s != [] && t != [] {
      FirstIsLeast(s);
      FirstIsLeast(t);
      assert s[0] in t && t[0] in s;
      LessTotal(s[0], t[0]);
      assert s[0] == t[0];
      forall y ensures y in s[1..] <==> y in t[1..] {
        assert y in s <==> y == s[0] || y in s[1..];
        assert y in t <==> y == t[0] || y in t[1..];
      }
      IncreasingUnique(s[1..], t[1..]);
      assert s == [s[0]] + s[1..] && t == [t[0]] + t[1..];
    }
  }

  lemma HasElement<T>(s: seq<T>)
    ensures s != [] ==> exists y :: y in s
  {
    if s != [] { assert s[0] in s; }
  }

  lemma SubsetCount<T>(a: set<T>, b: set<T>)
    requires a <= b
    ensures |a| <= |b|
  {
    assert b == a + (b - a);
  }

  lemma FirstIsLeast(s: seq<string>)
    requires Increasing(s) && s != []
    ensures forall y :: y in s[1..] ==> Less(s[0], y) && y != s[0]
    ensures Increasing(s[1..])
  {
    forall y | y in s[1..] ensures Less(s[0], y) && y != s[0] {
      var k :| 0 <= k < |s[1..]| && s[1..][k] == y;
      assert s[k + 1] == y;
      LessTotal(s[0], y);
    }
  }

  //////////////////////////////////////////////////////////////////////////////
  // Sorting by key
  //////////////////////////////////////////////////////////////////////////////

  ghost predicate Ascending<T>(s: seq<T>, key: T -> string) {
    forall i, j :: 0 <= i < j < |s| ==> Less(key(s[i]), key(s[j]))
  }

  ghost predicate NotDescending<T>(s: seq<T>, key: T -> string) {
    forall i, j :: 0 <= i < j < |s| ==> !Less(key(s[j]), key(s[i]))
  }

  function InsertByKey<T>(x: T, s: seq<T>, key: T -> string): seq<T> {
    if s == [] || !Less(key(s[0]), key(x)) then [x] + s else [s[0]] + InsertByKey(x, s[1..], key)
  }

  /** sorted(items, key=key): stable */
  function SortByKey<T>(items: seq<T>, key: T -> string): seq<T> {
    if items == [] then [] else InsertByKey(items[0], SortByKey(items[1..], key), key)
  }

  lemma {:induction false} InsertByKeyMembers<T>(x: T, s: seq<T>, key: T -> string)
    ensures multiset(InsertByKey(x, s, key)) == multiset(s) + multiset{x}
    ensures forall y :: y in InsertByKey(x, s, key) ==> y == x || y in s
    ensures forall y :: y == x || y in s ==> y in InsertByKey(x, s, key)
  {
    hide Less;
    if s != [] && Less(key(s[0]), key(x)) {
      InsertByKeyMembers(x, s[1..], key);
      assert s == [s[0]] + s[1..];
    }
  }

  lemma {:induction false} InsertByKeyOk<T>(x: T, s: seq<T>, key: T -> string)
    requires NotDescending(s, key)
    ensures NotDescending(InsertByKey(x, s, key), key)
  {
    hide Less;
    if s != [] {
      LessTotal(key(x), key(s[0]));
      if Less(key(s[0]), key(x)) {
        InsertByKeyOk(x, s[1..], key);
        InsertByKeyMembers(x, s[1..], key);
        var r := InsertByKey(x, s[1..], key);
        forall i | 0 <= i < |r| ensures !Less(key(r[i]), key(s[0])) {
          assert r[i] in r;
          if r[i] != x {
            var k :| 0 <= k < |s[1..]| && s[1..][k] == r[i];
            assert s[k + 1] == r[i];
          }
        }
      } else {
        forall i | 0 <= i < |s| ensures !Less(key(s[i]), key(x)) {
          NotBefore(s, key, i, x);
        }
      }
    }
  }

  lemma NotBefore<T>(s: seq<T>, key: T -> string, i: nat, x: T)
    requires i < |s| && NotDescending(s, key) && !Less(key(s[0]), key(x))
    ensures !Less(key(s[i]), key(x))
  {
    if i > 0 && Less(key(s[i]), key(x)) {
      LessTotal(key(s[0]), key(s[i]));
      if Less(key(s[0]), key(s[i])) {
        LessTransitive(key(s[0]), key(s[i]), key(x));
      }
    }
  }

  lemma {:induction false} SortByKeyOk<T>(items: seq<T>, key: T -> string)
    ensures var r := SortByKey(items, key); multiset(r) == multiset(items) && NotDescending(r, key)
  {
    if items != [] {
      assert items == [items[0]] + items[1..];
      SortByKeyOk(items[1..], key);
      InsertByKeyOk(items[0], SortByKey(items[1..], key), key);
      InsertByKeyMembers(items[0], SortByKey(items[1..], key), key);
      hide InsertByKey, Less;
    }
  }

  //////////////////////////////////////////////////////////////////////////////
  // What the order is
  //////////////////////////////////////////////////////////////////////////////

  /** At the first place where they differ, the smaller text has the smaller character, or it ends there. */
  ghost predicate Precedes(a: string, b: string) {
    exists k :: 0 <= k <= |a| && k < |b| && a[..k] == b[..k] && (k == |a| || a[k] < b[k])
  }

  lemma PrecedesFirst(a: string, b: string)
    requires b != "" && (a == "" || a[0] != b[0])
    ensures Precedes(a, b) <==> a == "" || a[0] < b[0]
  {
    assert a[..0] == b[..0];
    if a != "" {
      forall k | 0 < k <= |a| && k <= |b| ensures a[..k] != b[..k] {
        assert a[..k][0] != b[..k][0];
      }
    }
  }

  lemma PrecedesRest(a: string, b: string)
    requires a != "" && b != "" && a[0] == b[0]
    ensures Precedes(a, b) <==> Precedes(a[1..], b[1..])
  {
    var c, d := a[1..], b[1..];
    if Precedes(c, d) {
      var k :| 0 <= k <= |c| && k < |d| && c[..k] == d[..k] && (k == |c| || c[k] < d[k]);
      assert a[..k + 1] == [a[0]] + c[..k] && b[..k + 1] == [b[0]] + d[..k];
    }
    if Precedes(a, b) {
      var k :| 0 <= k <= |a| && k < |b| && a[..k] == b[..k] && (k == |a| || a[k] < b[k]);
      assert c[..k - 1] == a[..k][1..] && d[..k - 1] == b[..k][1..];
    }
  }

  lemma {:induction false} LessIs(a: string, b: string)
    ensures Less(a, b) <==> Precedes(a, b)
  {
    hide Precedes;
    if b == "" {
      NothingPrecedes(a);
    } else if a == "" || a[0] != b[0] {
      PrecedesFirst(a, b);
    } else {
      LessIs(a[1..], b[1..]);
      PrecedesRest(a, b);
    }
  }

  lemma NothingPrecedes(a: string)
    ensures !Precedes(a, "")
  {
  }
}
