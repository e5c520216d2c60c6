/** Text operations that the URL code uses: searching, splitting, case, hexadecimal and decimal digits. */
module Texts {
  import opened Outcomes

  /** The index of the first character among stops, or the length. */
  function Until(s: string, stops: set<char>): (n: nat)
    ensures n <= |s| && (forall i :: 0 <= i < n ==> s[i] !in stops) && (n < |s| ==> s[n] in stops)
  {
    if s == "" || s[0] in stops then 0 else 1 + Until(s[1..], stops)
  }

  /** What follows the last occurrence of c, or everything. */
  function AfterLast(s: string, c: char): (r: string)
    ensures c !in r && |r| <= |s| && r == s[|s| - |r|..]
    ensures |r| < |s| ==> s[|s| - |r| - 1] == c
  {
    if s == "" || s[|s| - 1] == c then ""
    else AfterLast(s[..|s| - 1], c) + [s[|s| - 1]]
  }

  lemma {:induction false} AfterLastSplits(s: string, c: char)
    ensures c !in s ==> AfterLast(s, c) == s
    ensures var r := AfterLast(s, c);
      c in s ==> |r| < |s| && s == s[..|s| - |r| - 1] + [c] + r
  {
    hide AfterLast;
    var r := AfterLast(s, c);
    if |r| == |s| {
      assert s[|s| - |r|..] == s;
    } else {
      var n := |s| - |r| - 1;
      assert s[n] == c && s == s[..n] + [s[n]] + s[n + 1..];
    }
  }

  /** str.split on one character */
  function SplitOn(s: string, c: char): (parts: seq<string>)
    ensures |parts| >= 1
    ensures |parts| == 1 <==> c !in s
  {
    if c !in s then [s]
    else
      var n := Until(s, {c});
      [s[..n]] + SplitOn(s[n + 1..], c)
  }

  lemma {:induction false} SplitChars(s: string, c: char, x: char)
    ensures x in s ==> x == c || exists p :: p in SplitOn(s, c) && x in p
    ensures forall p :: p in SplitOn(s, c) ==> c !in p && (x in p ==> x in s)
  {
    if c !in s {
      assert s in SplitOn(s, c);
    } else {
      var n := Until(s, {c});
      SplitChars(s[n + 1..], c, x);
      assert s == s[..n] + [c] + s[n + 1..];
      assert SplitOn(s, c)[0] == s[..n];
    }
  }

  //////////////////////////////////////////////////////////////////////////////
  // Joining
  //////////////////////////////////////////////////////////////////////////////

  /** str.join */
  function Joined(parts: seq<string>, c: char): string
    requires parts != []
  {
    if |parts| == 1 then parts[0] else parts[0] + [c] + Joined(parts[1..], c)
  }

  lemma JoinStep(p: string, rest: seq<string>, c: char)
    ensures Joined([p] + rest, c) == if rest == [] then p else p + [c] + Joined(rest, c)
  {
    assert ([p] + rest)[1..] == rest;
  }

  lemma SplitStep(s: string, c: char)
    ensures c !in s ==> SplitOn(s, c) == [s]
    ensures c in s ==>
      var n := Until(s, {c});
      && n < |s| && s[n] == c && s == s[..n] + [c] + s[n + 1..]
      && SplitOn(s, c) == [s[..n]] + SplitOn(s[n + 1..], c)
  {
  }

  lemma {:induction false} JoinSplit(s: string, c: char)
    ensures Joined(SplitOn(s, c), c) == s
    decreases |s|
  {
    hide Joined, SplitOn;
    SplitStep(s, c);
    if c in s {
      var n := Until(s, {c});
      JoinSplit(s[n + 1..], c);
      JoinStep(s[..n], SplitOn(s[n + 1..], c), c);
    } else {
      JoinStep(s, [], c);
      assert [s] + [] == [s];
    }
  }

  lemma UntilFirst(a: string, c: char, b: string)
    requires c !in a
    ensures Until(a + [c] + b, {c}) == |a|
  {
    var s := a + [c] + b;
    assert s[|a|] == c && forall i :: 0 <= i < |a| ==> s[i] == a[i] && a[i] in a;
  }

  lemma {:induction false} SplitJoin(parts: seq<string>, c: char)
    requires parts != [] && forall p :: p in parts ==> c !in p
    ensures SplitOn(Joined(parts, c), c) == parts
  {
    hide Joined, SplitOn, Until;
    var p, rest := parts[0], parts[1..];
    assert p in parts && parts == [p] + rest;
    JoinStep(p, rest, c);
    SplitStep(p, c);
    if rest != [] {
      SplitJoin(rest, c);
      var tail := Joined(rest, c);
      UntilFirst(p, c, tail);
      var s := p + [c] + tail;
      SplitStep(s, c);
      assert s[|p|] == c && s[..|p|] == p && s[|p| + 1..] == tail;
    }
  }

  lemma JoinFour(p: string, q: string, r: string, s: string, c: char)
    ensures Joined([p, q, r, s], c) == p + [c] + q + [c] + r + [c] + s
  {
    hide Joined;
    JoinStep(s, [], c);
    JoinStep(r, [s], c);
    JoinStep(q, [r, s], c);
    JoinStep(p, [q, r, s], c);
    assert [s] + [] == [s] && [r] + [s] == [r, s] && [q] + [r, s] == [q, r, s] && [p] + [q, r, s] == [p, q, r, s];
  }

  lemma SplitFour(p: string, q: string, r: string, s: string, c: char)
    requires c !in p && c !in q && c !in r && c !in s
    ensures SplitOn(p + [c] + q + [c] + r + [c] + s, c) == [p, q, r, s]
  {
    hide Joined, SplitOn;
    JoinFour(p, q, r, s, c);
    SplitJoin([p, q, r, s], c);
  }

  //////////////////////////////////////////////////////////////////////////////
  // Characters
  //////////////////////////////////////////////////////////////////////////////

  predicate Upper(c: char) { 'A' <= c <= 'Z' }

  predicate LowerLetter(c: char) { 'a' <= c <= 'z' }

  predicate Digit(c: char) { '0' <= c <= '9' }

  predicate Alnum(c: char) { Upper(c) || LowerLetter(c) || Digit(c) }

  predicate Ascii(c: char) { c < 128 as char }

  /** Case folding of one character.  The Kelvin sign is the only character beyond ASCII that folds into it;
      the others stay beyond it, so they are left alone here. */
  function LowerChar(c: char): char {
    if Upper(c) then (c as int + 32) as char
    else if c == '\U{212A}' then 'k'
    else c
  }

  function Lower(s: string): (r: string)
    ensures |r| == |s| && forall i :: 0 <= i < |s| ==> r[i] == LowerChar(s[i])
  {
    seq(|s|, i requires 0 <= i < |s| => LowerChar(s[i]))
  }

  lemma LowerFixed(s: string)
    requires forall c :: c in s ==> Ascii(c) && !Upper(c)
    ensures Lower(s) == s
  {
    forall i | 0 <= i < |s| ensures LowerChar(s[i]) == s[i] {
      assert s[i] in s;
    }
  }

  /** str.isspace */
  predicate White(c: char) {
    var x := c as int;
    9 <= x <= 13 || 28 <= x <= 32 || x in {0x85, 0xA0, 0x1680, 0x2028, 0x2029, 0x202F, 0x205F, 0x3000}
    || 0x2000 <= x <= 0x200A
  }

  /** Category Cc */
  predicate Control(c: char) { c as int < 32 || 127 <= c as int < 160 }

  function Utf8Size(c: char): nat {
    var x := c as int;
    if x < 0x80 then 1 else if x < 0x800 then 2 else if x < 0x10000 then 3 else 4
  }

  function Utf8Length(s: string): nat {
    if s == "" then 0 else Utf8Size(s[0]) + Utf8Length(s[1..])
  }

  lemma {:induction false} Utf8AtLeast(s: string)
    ensures |s| <= Utf8Length(s)
  {
    if s != "" { Utf8AtLeast(s[1..]); }
  }

  lemma {:induction false} AsciiLength(s: string)
    requires forall c :: c in s ==> Ascii(c)
    ensures Utf8Length(s) == |s|
  {
    if s != "" {
      assert s[0] in s;
      AsciiLength(s[1..]);
    }
  }

  //////////////////////////////////////////////////////////////////////////////
  // Hexadecimal
  //////////////////////////////////////////////////////////////////////////////

  predicate UpperHex(c: char) { Digit(c) || 'A' <= c <= 'F' }

  predicate LowerHex(c: char) { Digit(c) || 'a' <= c <= 'f' }

  predicate Hex(c: char) { UpperHex(c) || LowerHex(c) }

  predicate Hex32(s: string) { |s| == 32 && forall c :: c in s ==> LowerHex(c) }

  predicate Hex64(s: string) { |s| == 64 && forall c :: c in s ==> LowerHex(c) }

  function HexValue(c: char): nat {
    if Digit(c) then c as int - '0' as int
    else if 'A' <= c <= 'F' then c as int - 'A' as int + 10
    else if 'a' <= c <= 'f' then c as int - 'a' as int + 10
    else 0
  }

  function HexUp(c: char): char {
    if 'a' <= c <= 'f' then (c as int - 32) as char else c
  }

  function HexDigit(n: nat): char
    requires n < 16
  {
    if n < 10 then ('0' as int + n) as char else ('A' as int + n - 10) as char
  }

  //////////////////////////////////////////////////////////////////////////////
  // Decimal
  //////////////////////////////////////////////////////////////////////////////

  predicate AllDigits(s: string) { forall c :: c in s ==> Digit(c) }

  function Value(s: string): nat
    requires AllDigits(s)
  {
    if s == "" then 0
    else
      assert s[|s| - 1] in s && forall c :: c in s[..|s| - 1] ==> c in s;
      10 * Value(s[..|s| - 1]) + (s[|s| - 1] as int - '0' as int)
  }

  /** The number that a text of digits stands for. */
  function Digits(s: string): Option<nat> {
    if AllDigits(s) then Some(Value(s)) else None
  }

  /** Digits without a leading zero. */
  function CanonicalDecimal(s: string): Option<nat> {
    if s == "" || (s[0] == '0' && |s| > 1) then None else Digits(s)
  }

  /** The largest integer that JSON numbers hold exactly. */
  const MAX_EXACT_INTEGER: nat := 9_007_199_254_740_991

  function Decimal(n: nat): (s: string)
    ensures s != "" && AllDigits(s)
    ensures s[0] == '0' ==> n == 0
  {
    if n < 10 then [('0' as int + n) as char] else Decimal(n / 10) + [('0' as int + n % 10) as char]
  }

  lemma {:induction false} ValueOfDecimal(n: nat)
    ensures Value(Decimal(n)) == n
  {
    var s := Decimal(n);
    if n < 10 {
      assert s[..0] == "";
    } else {
      ValueOfDecimal(n / 10);
      assert s[..|s| - 1] == Decimal(n / 10);
    }
  }

  lemma DecimalDiffers(m: nat, n: nat)
    requires Decimal(m) == Decimal(n)
    ensures m == n
  {
    ValueOfDecimal(m);
    ValueOfDecimal(n);
  }

  lemma DecimalIsCanonical(n: nat)
    ensures CanonicalDecimal(Decimal(n)) == Some(n)
  {
    ValueOfDecimal(n);
    hide Value;
  }

  /** A canonical decimal is the decimal text of its value, and nothing else is. */
  lemma CanonicalDecimalIs(s: string, n: nat)
    ensures CanonicalDecimal(s) == Some(n) <==> s == Decimal(n)
  {
    hide Value, Decimal;
    DecimalIsCanonical(n);
    if CanonicalDecimal(s) == Some(n) {
      if s[0] == '0' {
        assert s == "0";
        ZeroText();
      } else {
        DecimalOfValue(s);
      }
    }
  }

  lemma ZeroText()
    ensures Decimal(0) == "0" && AllDigits("0") && Value("0") == 0
  {
    ValueOfDecimal(0);
  }

  lemma DivideByTen(v: nat, d: nat)
    requires d < 10
    ensures (10 * v + d) / 10 == v && (10 * v + d) % 10 == d
  {
  }

  lemma ValueStep(s: string)
    requires AllDigits(s) && s != ""
    ensures AllDigits(s[..|s| - 1]) && Digit(s[|s| - 1])
    ensures Value(s) == 10 * Value(s[..|s| - 1]) + (s[|s| - 1] as int - '0' as int)
  {
    assert s[|s| - 1] in s && forall c :: c in s[..|s| - 1] ==> c in s;
  }

  lemma DecimalStep(v: nat, d: nat)
    requires d < 10
    ensures Decimal(10 * v + d) == (if v == 0 then "" else Decimal(v)) + [('0' as int + d) as char]
  {
    DivideByTen(v, d);
  }

  /** Digits without a leading zero are the decimal text of their value. */
  lemma {:induction false} DecimalOfValue(s: string)
    requires AllDigits(s) && s != "" && s[0] != '0'
    ensures Value(s) >= 1 && Decimal(Value(s)) == s
  {
    hide Value, Decimal;
    var front, d := s[..|s| - 1], s[|s| - 1] as int - '0' as int;
    ValueStep(s);
    DecimalStep(Value(front), d);
    assert s == front + [s[|s| - 1]];
    if front == "" {
      ValueOfNothing();
      assert "" + s == s;
    } else {
      DecimalOfValue(front);
    }
  }

  lemma ValueOfNothing()
    ensures Value("") == 0
  {
  }

  /** Up to five digits is all that a number below 100,000 takes. */
  lemma DecimalShort(n: nat)
    requires n < 100000
    ensures |Decimal(n)| <= 5
  {
    assert n / 10 < 10000 && n / 100 < 1000 && n / 1000 < 100 && n / 10000 < 10;
    assert n / 10 / 10 == n / 100 && n / 100 / 10 == n / 1000 && n / 1000 / 10 == n / 10000;
    assert n >= 10000 ==> |Decimal(n / 10000)| == 1;
    assert n >= 1000 ==> |Decimal(n / 1000)| <= 2;
    assert n >= 100 ==> |Decimal(n / 100)| <= 3;
    assert n >= 10 ==> |Decimal(n / 10)| <= 4;
  }
}
