/** Bounded Punycode, and the encoder that it inverts. */
module Punycode {
  import opened Arith
  import opened Outcomes

  const MAX_INT32: nat := 0x7FFF_FFFF
  const MAX_SCALAR: nat := 0x10_FFFF
  const MAX_PAYLOAD: nat := 59

  // The decoder is that of the URL-identity helper, the encoder that of section 6.3 of RFC 3492.  A payload
  // is the part of an A-label after "xn--".  Scalars are plain integers.

  //////////////////////////////////////////////////////////////////////////////
  // Characters and digits
  //////////////////////////////////////////////////////////////////////////////

  predicate IsDigit(c: char) {
    'a' <= c <= 'z' || '0' <= c <= '9'
  }

  predicate InAlphabet(c: char) {
    IsDigit(c) || c == '-'
  }

  predicate IsSurrogate(x: int) {
    0xD800 <= x <= 0xDFFF
  }

  function DigitValue(c: char): (d: nat)
    requires IsDigit(c)
    ensures d < 36
  {
    if 'a' <= c <= 'z' then c as int - 'a' as int else c as int - '0' as int + 26
  }

  function DigitChar(d: nat): (c: char)
    requires d < 36
    ensures IsDigit(c) && DigitValue(c) == d
  {
    if d < 26 then (d + 'a' as int) as char else (d - 26 + '0' as int) as char
  }

  lemma DigitCharOfValue(c: char)
    requires IsDigit(c)
    ensures DigitChar(DigitValue(c)) == c
  {
  }

  function Ords(p: string): (s: seq<int>)
    ensures |s| == |p|
  {
    seq(|p|, i requires 0 <= i < |p| => p[i] as int)
  }

  predicate AllAscii(s: seq<int>) {
    forall x :: x in s ==> 0 <= x < 128
  }

  function Chars(s: seq<int>): (p: string)
    requires AllAscii(s)
    ensures |p| == |s|
  {
    seq(|s|, i requires 0 <= i < |s| => assert s[i] in s; s[i] as char)
  }

  /** Index of the last dash, or -1. */
  function LastDash(p: string): (k: int)
    ensures -1 <= k < |p|
    ensures k >= 0 ==> p[k] == '-'
    ensures forall i :: k < i < |p| ==> p[i] != '-'
  {
    if p == "" then -1
    else if p[|p| - 1] == '-' then |p| - 1
    else LastDash(p[..|p| - 1])
  }

  //////////////////////////////////////////////////////////////////////////////
  // Bias adaptation and thresholds
  //////////////////////////////////////////////////////////////////////////////

  function Threshold(k: int, bias: int): (t: nat)
    ensures 1 <= t <= 26
  {
    if k - bias < 1 then 1 else if k - bias > 26 then 26 else k - bias
  }

  function Divided(delta: nat, bias: nat): nat {
    if delta > 455 then Divided(delta / 35, bias + 36) else bias + Quot(36 * delta, delta + 38)
  }

  /** Section 6.1 of RFC 3492. */
  function Adapt(delta: nat, points: nat, first: bool): nat
    requires points > 0
  {
    var d := if first then delta / 700 else delta / 2;
    Divided(d + Quot(d, points), 0)
  }

  method AdaptBias(delta: nat, points: nat, first: bool) returns (bias: nat)
    requires points > 0
    ensures bias == Adapt(delta, points, first)
  {
    hide Quot;
    var d: nat := if first then delta / 700 else delta / 2;
    d := d + Quot(d, points);
    bias := 0;
    while d > 455
      invariant Divided(d, bias) == Adapt(delta, points, first)
    {
      d := d / 35;
      bias := bias + 36;
    }
    bias := bias + Quot(36 * d, d + 38);
  }

  //////////////////////////////////////////////////////////////////////////////
  // The decoder
  //////////////////////////////////////////////////////////////////////////////

  /** The inner loop: one variable-length integer, accumulated onto insertion. */
  function ReadInt(p: string, pos: nat, insertion: nat, weight: nat, k: int, bias: int): (r: Result<(nat, nat)>)
    requires pos <= |p|
    ensures r.Ok? ==> pos < r.value.1 <= |p| && insertion <= r.value.0
    decreases |p| - pos
  {
    if pos == |p| || !IsDigit(p[pos]) then Err("CANONICAL_URL_NOT_CANONICAL")
    else
      var digit, t := DigitValue(p[pos]), Threshold(k, bias);
      if Times(digit, weight) > MAX_INT32 - insertion then Err("CANONICAL_URL_NOT_CANONICAL")
      else if digit < t then Ok((insertion + Times(digit, weight), pos + 1))
      else if Times(weight, 36 - t) > MAX_INT32 then Err("CANONICAL_URL_NOT_CANONICAL")
      else ReadInt(p, pos + 1, insertion + Times(digit, weight), Times(weight, 36 - t), k + 36, bias)
  }

  /** The outer loop: read an integer, adapt the bias, insert one scalar. */
  function DecodeFrom(p: string, pos: nat, out: seq<int>, insertion: nat, scalar: nat, bias: nat): (r: Result<seq<int>>)
    requires pos <= |p|
    decreases |p| - pos
  {
    if pos == |p| then Ok(out)
    else
      match ReadInt(p, pos, insertion, 1, 36, bias)
      case Err(code) => Err(code)
      case Ok((insertion', pos')) =>
        var count := |out| + 1;
        var scalar', at := scalar + Quot(insertion', count), Rem(insertion', count);
        if count > MAX_PAYLOAD || scalar' > MAX_SCALAR || IsSurrogate(scalar') then
          Err("CANONICAL_URL_NOT_CANONICAL")
        else
          DecodeFrom(p, pos', out[..at] + [scalar'] + out[at..], at + 1, scalar',
                     Adapt(insertion' - insertion, count, insertion == 0))
  }

  predicate WellFormed(p: string) {
    && 1 <= |p| <= MAX_PAYLOAD
    && (forall c :: c in p ==> InAlphabet(c))
    && LastDash(p) != 0
    && LastDash(p) != |p| - 1
  }

  function Decode(p: string): Result<seq<int>> {
    if !WellFormed(p) then Err("CANONICAL_URL_NOT_CANONICAL")
    else
      var split := LastDash(p);
      DecodeFrom(p, split + 1, if split >= 0 then Ords(p[..split]) else [], 0, 128, 72)
  }

  /** One digit of a variable-length integer. */
  lemma ReadDigit(p: string, pos: nat, insertion: nat, weight: nat, k: int, bias: int)
    requires pos <= |p|
    ensures ReadInt(p, pos, insertion, weight, k, bias) ==
      if pos == |p| || !IsDigit(p[pos]) then Err("CANONICAL_URL_NOT_CANONICAL")
      else
        var digit, t := DigitValue(p[pos]), Threshold(k, bias);
        if Times(digit, weight) > MAX_INT32 - insertion then Err("CANONICAL_URL_NOT_CANONICAL")
        else if digit < t then Ok((insertion + Times(digit, weight), pos + 1))
        else if Times(weight, 36 - t) > MAX_INT32 then Err("CANONICAL_URL_NOT_CANONICAL")
        else ReadInt(p, pos + 1, insertion + Times(digit, weight), Times(weight, 36 - t), k + 36, bias)
  {
    hide Times, Threshold, IsDigit, DigitValue;
  }

  /** One insertion, once its integer is read. */
  lemma DecodeInsertion(p: string, pos: nat, out: seq<int>, insertion: nat, scalar: nat, bias: nat)
    requires pos < |p|
    ensures var read := ReadInt(p, pos, insertion, 1, 36, bias);
      DecodeFrom(p, pos, out, insertion, scalar, bias) ==
        if read.Err? then Err(read.code)
        else
          var count := |out| + 1;
          var n, at := scalar + Quot(read.value.0, count), Rem(read.value.0, count);
          if count > MAX_PAYLOAD || n > MAX_SCALAR || IsSurrogate(n) then Err("CANONICAL_URL_NOT_CANONICAL")
          else
            DecodeFrom(p, read.value.1, out[..at] + [n] + out[at..], at + 1, n,
                       Adapt(read.value.0 - insertion, count, insertion == 0))
  {
    hide Quot, Rem, Adapt, ReadInt;
  }

  lemma DecodeMeans(payload: string)
    ensures var r := Decode(payload);
      && (r.Ok? ==> Encodable(r.value) && payload == Encode(r.value))
      && (r.Err? ==> forall s :: Encodable(s) && |Encode(s)| <= MAX_PAYLOAD ==> Encode(s) != payload)
  {
    hide Decode, Encode, Encodable;
    AcceptsExactlyEncodings(payload);
    if Decode(payload).Ok? { EncodeDecode(payload); }
  }

  /** The decoder as written: two nested loops over running counters and a list that is
      inserted into.  Its result is characterised by the encoder, not by its own steps. */
  method DecodePunycode(payload: string) returns (r: Result<seq<int>>)
    ensures r == Decode(payload)
    ensures r.Ok? ==> Encodable(r.value) && payload == Encode(r.value)
    ensures r.Err? ==> forall s :: Encodable(s) && |Encode(s)| <= MAX_PAYLOAD ==> Encode(s) != payload
  {
    hide Times, Quot, Rem, Adapt, Encode, Encodable, IsDigit, DigitValue, Threshold, IsSurrogate, WellFormed, Ords,
      LastDash, ReadInt, DecodeFrom;
    DecodeMeans(payload);
    if !WellFormed(payload) {
      return Err("CANONICAL_URL_NOT_CANONICAL");
    }
    var split := LastDash(payload);
    var result := if split >= 0 then Ords(payload[..split]) else [];
    var position: nat, insertion: nat, scalar: nat, bias: nat := split + 1, 0, 128, 72;
    while position < |payload|
      invariant position <= |payload|
      invariant Decode(payload) == DecodeFrom(payload, position, result, insertion, scalar, bias)
      decreases |payload| - position
    {
      var before: nat, weight: nat, k := insertion, 1, 36;
      ghost var begin := position;
      DecodeInsertion(payload, begin, result, before, scalar, bias);
      while true
        invariant begin <= position <= |payload| && before <= insertion
        invariant ReadInt(payload, begin, before, 1, 36, bias) == ReadInt(payload, position, insertion, weight, k, bias)
        decreases |payload| - position
      {
        ReadDigit(payload, position, insertion, weight, k, bias);
        if position == |payload| || !IsDigit(payload[position]) {
          return Err("CANONICAL_URL_NOT_CANONICAL");
        }
        var digit := DigitValue(payload[position]);
        position := position + 1;
        if Times(digit, weight) > MAX_INT32 - insertion {
          return Err("CANONICAL_URL_NOT_CANONICAL");
        }
        insertion := insertion + Times(digit, weight);
        var threshold := Threshold(k, bias);
        if digit < threshold {
          break;
        }
        weight := Times(weight, 36 - threshold);
        if weight > MAX_INT32 {
          return Err("CANONICAL_URL_NOT_CANONICAL");
        }
        k := k + 36;
      }
      var count := |result| + 1;
      if count > MAX_PAYLOAD {
        return Err("CANONICAL_URL_NOT_CANONICAL");
      }
      bias := AdaptBias(insertion - before, count, before == 0);
      scalar := scalar + Quot(insertion, count);
      insertion := Rem(insertion, count);
      if scalar > MAX_SCALAR || IsSurrogate(scalar) {
        return Err("CANONICAL_URL_NOT_CANONICAL");
      }
      result := result[..insertion] + [scalar] + result[insertion..];
      insertion := insertion + 1;
    }
    DecodeEnd(payload, result, insertion, scalar, bias);
    return Ok(result);
  }

  //////////////////////////////////////////////////////////////////////////////
  // The encoder of section 6.3 of RFC 3492, over unbounded integers
  //////////////////////////////////////////////////////////////////////////////

  /** The elements of s smaller than n, in order. */
  function Below(s: seq<int>, n: int): (r: seq<int>)
    ensures |r| <= |s|
  {
    if s == [] then [] else (if s[0] < n then [s[0]] else []) + Below(s[1..], n)
  }

  /** The smallest element of s that is at least n. */
  function NextCode(s: seq<int>, n: int): (m: int)
    requires exists x :: x in s && x >= n
    ensures m in s && m >= n
    ensures forall x :: x in s && x >= n ==> x >= m
  {
    if exists x :: x in s[1..] && x >= n then
      var m := NextCode(s[1..], n);
      assert forall x :: x in s ==> x == s[0] || x in s[1..];
      if n <= s[0] < m then s[0] else m
    else
      assert forall x :: x in s ==> x == s[0] || x in s[1..];
      s[0]
  }

  /** One generalized variable-length integer (section 3.3). */
  function VarInt(q: nat, k: int, bias: int): string {
    var t := Threshold(k, bias);
    if q < t then [DigitChar(q)]
    else [DigitChar(t + Rem(q - t, 36 - t))] + VarInt(Quot(q - t, 36 - t), k + 36, bias)
  }

  /** The elements handled when pass m over s has reached index j. */
  function Handled(s: seq<int>, m: int, j: nat): seq<int>
    requires j <= |s|
  {
    Below(s[..j], m + 1) + Below(s[j..], m)
  }

  /** The "while h < length(input)" loop. */
  function Rounds(s: seq<int>, n: int, delta: nat, bias: nat, b: nat): string
    decreases |s| - |Below(s, n)|, 1, 0
  {
    var h := |Below(s, n)|;
    if h == |s| then ""
    else
      BelowShort(s, n);
      var m := NextCode(s, n);
      BelowGap(s, n, m);
      Round(s, m, 0, delta + Times(m - n, h + 1), bias, b)
  }

  /** The "for each code point c in the input" loop, then the increments that end it. */
  function Round(s: seq<int>, m: int, j: nat, delta: nat, bias: nat, b: nat): string
    requires j <= |s| && m in s
    decreases |s| - |Below(s, m)|, 0, |s| - j
  {
    var h := |Handled(s, m, j)|;
    if j == |s| then
      BelowGrows(s, m);
      Rounds(s, m + 1, delta + 1, bias, b)
    else if s[j] < m then Round(s, m, j + 1, delta + 1, bias, b)
    else if s[j] == m then
      VarInt(delta, 36, bias) + Round(s, m, j + 1, 0, Adapt(delta, h + 1, h == b), b)
    else Round(s, m, j + 1, delta, bias, b)
  }

  predicate Encodable(s: seq<int>) {
    && (forall x :: x in s ==> 0 <= x <= MAX_SCALAR && !IsSurrogate(x))
    && (forall x :: x in s && x < 128 ==> InAlphabet(x as char))
    && (exists x :: x in s && x >= 128)
  }

  function Encode(s: seq<int>): string
    requires Encodable(s)
  {
    var basic := Below(s, 128);
    BelowMember(s, 128);
    Chars(basic) + (if basic == [] then "" else "-") + Rounds(s, 128, 0, 72, |basic|)
  }

  //////////////////////////////////////////////////////////////////////////////
  // Facts about Below
  //////////////////////////////////////////////////////////////////////////////

  lemma BelowMember(s: seq<int>, n: int)
    ensures forall x :: x in Below(s, n) <==> x in s && x < n
  {
    if s != [] {
      BelowMember(s[1..], n);
      assert forall x :: x in s <==> x == s[0] || x in s[1..];
    }
  }

  lemma ConcatAssoc<T>(a: seq<T>, b: seq<T>, c: seq<T>)
    ensures (a + b) + c == a + (b + c)
  {
  }

  lemma {:induction false} BelowConcat(a: seq<int>, b: seq<int>, n: int)
    ensures Below(a + b, n) == Below(a, n) + Below(b, n)
  {
    if a == [] {
      assert a + b == b;
    } else {
      BelowConcat(a[1..], b, n);
      assert (a + b)[0] == a[0] && (a + b)[1..] == a[1..] + b;
      ConcatAssoc(if a[0] < n then [a[0]] else [], Below(a[1..], n), Below(b, n));
    }
  }

  lemma BelowSplit(s: seq<int>, j: nat, n: int)
    requires j <= |s|
    ensures Below(s, n) == Below(s[..j], n) + Below(s[j..], n)
  {
    assert s == s[..j] + s[j..];
    BelowConcat(s[..j], s[j..], n);
  }

  /** Two bounds with no element of s between them select the same elements. */
  lemma BelowSame(s: seq<int>, m: int, n: int)
    requires forall x :: x in s ==> (x < m <==> x < n)
    ensures Below(s, m) == Below(s, n)
  {
    if s != [] {
      assert s[0] in s;
      assert forall x :: x in s[1..] ==> x in s;
      BelowSame(s[1..], m, n);
    }
  }

  lemma BelowAll(s: seq<int>, n: int)
    ensures (|Below(s, n)| == |s|) <==> (forall x :: x in s ==> x < n)
    ensures |Below(s, n)| == |s| ==> Below(s, n) == s
  {
    if s != [] {
      BelowAll(s[1..], n);
      assert forall x :: x in s <==> x == s[0] || x in s[1..];
      assert s == [s[0]] + s[1..];
      if s[0] < n {
        assert Below(s, n) == [s[0]] + Below(s[1..], n);
      } else {
        assert s[0] in s && Below(s, n) == Below(s[1..], n);
      }
    }
  }

  lemma BelowShort(s: seq<int>, n: int)
    requires |Below(s, n)| != |s|
    ensures exists x :: x in s && x >= n
  {
    BelowAll(s, n);
  }

  lemma BelowGap(s: seq<int>, n: int, m: int)
    requires m in s && m >= n && forall x :: x in s && x >= n ==> x >= m
    ensures Below(s, m) == Below(s, n)
  {
    BelowSame(s, m, n);
  }

  lemma BelowMono(s: seq<int>, m: int, n: int)
    requires m <= n
    ensures |Below(s, m)| <= |Below(s, n)|
    ensures m in s && m < n ==> |Below(s, m)| < |Below(s, n)|
  {
    if s != [] {
      BelowMono(s[1..], m, n);
    }
  }

  lemma BelowGrows(s: seq<int>, m: int)
    requires m in s
    ensures |Below(s, m)| < |Below(s, m + 1)|
  {
    BelowMono(s, m, m + 1);
  }

  lemma BelowStep(s: seq<int>, j: nat, n: int)
    requires j < |s|
    ensures Below(s[..j + 1], n) == Below(s[..j], n) + (if s[j] < n then [s[j]] else [])
    ensures Below(s[j..], n) == (if s[j] < n then [s[j]] else []) + Below(s[j + 1..], n)
  {
    assert s[..j + 1] == s[..j] + [s[j]];
    BelowConcat(s[..j], [s[j]], n);
    assert s[j..][1..] == s[j + 1..];
  }

  /** How one step of a pass changes the handled elements. */
  lemma HandledStep(s: seq<int>, m: int, j: nat)
    requires j < |s|
    ensures s[j] != m ==> Handled(s, m, j + 1) == Handled(s, m, j)
    ensures s[j] == m ==>
              var i := |Below(s[..j], m + 1)|;
              i <= |Handled(s, m, j)| && Handled(s, m, j + 1) == Handled(s, m, j)[..i] + [m] + Handled(s, m, j)[i..]
  {
    hide Below;
    BelowStep(s, j, m + 1);
    BelowStep(s, j, m);
    var left, right := Below(s[..j], m + 1), Below(s[j + 1..], m);
    if s[j] == m {
      assert (left + right)[..|left|] == left && (left + right)[|left|..] == right;
    } else if s[j] < m {
      ConcatAssoc(left, [s[j]], right);
    }
  }

  lemma HandledEnds(s: seq<int>, m: int)
    ensures Handled(s, m, 0) == Below(s, m)
    ensures Handled(s, m, |s|) == Below(s, m + 1)
  {
    assert s[..0] == [] && s[0..] == s && s[..|s|] == s && s[|s|..] == [];
  }


  //////////////////////////////////////////////////////////////////////////////
  // Variable-length integers are read back exactly
  //////////////////////////////////////////////////////////////////////////////

  function Pow35(j: nat): (r: nat)
    ensures r >= 1
  {
    if j == 0 then 1 else 35 * Pow35(j - 1)
  }

  lemma Pow35Six(j: nat)
    ensures Pow35(6) == 1838265625
    ensures j <= 6 ==> Pow35(j) <= Pow35(6)
    ensures j >= 6 ==> Pow35(j) >= Pow35(6)
  {
    assert Pow35(1) == 35 && Pow35(2) == 1225 && Pow35(3) == 42875;
    assert Pow35(4) == 1500625 && Pow35(5) == 52521875 && Pow35(6) == 1838265625;
    if j > 6 { Pow35Six(j - 1); }
  }

  /** Bounds every integer written for scalars up to 0x10FFFF in an output of at most 59 characters. */
  const MAX_DELTA: nat := 60 * (MAX_SCALAR + 1)

  /** While the value still to be written needs another digit, the weight of that digit fits in an
      int32: a threshold of 1 means that no more than six digits of weight 35 precede it, and a larger
      threshold leaves room below the bound on the whole value. */
  lemma WeightFits(q: nat, weight: nat, j: nat, t: nat)
    requires Times(weight, q) <= MAX_DELTA && 1 <= t <= 26 && q >= t
    requires 1 <= weight <= Pow35(j)
    requires t == 1 ==> weight == Pow35(j)
    ensures 1 <= Times(weight, 36 - t) <= Pow35(j + 1)
    ensures Times(weight, 36 - t) <= MAX_INT32
    ensures t == 1 ==> Times(weight, 36 - t) == Pow35(j + 1)
  {
    hide Times;
    TimesOne(weight);
    TimesConst(weight);
    TimesMono(weight, 1, 36 - t);
    TimesMono(weight, 36 - t, 35);
    if t == 1 {
      TimesMono(weight, 1, q);
      Pow35Six(j);
      Pow35Six(j + 1);
    } else {
      TimesMono(weight, 36 - t, 34);
      TimesMono(weight, 2, q);
    }
  }

  /** The digit written first, and what is left to write. */
  lemma DigitSplit(weight: nat, q: nat, t: nat)
    requires 1 <= t <= 26 && t <= q
    ensures var d, r := t + Rem(q - t, 36 - t), Quot(q - t, 36 - t);
            && t <= d < 36 && r < q
            && Times(weight, q) == Times(d, weight) + Times(Times(weight, 36 - t), r)
  {
    hide Times, Quot, Rem;
    var d, r := t + Rem(q - t, 36 - t), Quot(q - t, 36 - t);
    QuotRem(q - t, 36 - t);
    assert q == d + Times(36 - t, r);
    TimesAdd(weight, d, Times(36 - t, r));
    TimesComm(weight, d);
    TimesAssoc(weight, 36 - t, r);
  }

  lemma SuffixParts(p: string, pos: nat, v: string, rest: string)
    requires pos <= |p| && v != "" && p[pos..] == v + rest
    ensures |v| + |rest| == |p| - pos && p[pos] == v[0] && p[pos + |v|..] == rest && p[pos + 1..] == v[1..] + rest
  {
    assert |p[pos..]| == |p| - pos && p[pos] == p[pos..][0];
    assert p[pos + |v|..] == p[pos..][|v|..];
    assert p[pos + 1..] == p[pos..][1..] == v[1..] + rest;
  }

  lemma {:induction false} ReadVarInt(p: string, pos: nat, insertion: nat, weight: nat, k: int, bias: int,
                                      q: nat, rest: string, j: nat)
    requires pos <= |p| && p[pos..] == VarInt(q, k, bias) + rest
    requires Times(weight, q) <= MAX_DELTA && insertion + Times(weight, q) <= MAX_INT32
    requires 1 <= weight <= Pow35(j)
    requires Threshold(k, bias) == 1 ==> weight == Pow35(j)
    ensures ReadInt(p, pos, insertion, weight, k, bias)
            == Ok((insertion + Times(weight, q), pos + |VarInt(q, k, bias)|))
    ensures pos + |VarInt(q, k, bias)| <= |p| && p[pos + |VarInt(q, k, bias)|..] == rest
    decreases q
  {
    hide Times, Quot, Rem, Pow35;
    var t, v := Threshold(k, bias), VarInt(q, k, bias);
    assert v != [];
    SuffixParts(p, pos, v, rest);
    if q < t {
      TimesComm(weight, q);
    } else {
      DigitSplit(weight, q, t);
      WeightFits(q, weight, j, t);
      var d, r := t + Rem(q - t, 36 - t), Quot(q - t, 36 - t);
      assert v[1..] == VarInt(r, k + 36, bias);
      ReadVarInt(p, pos + 1, insertion + Times(d, weight), Times(weight, 36 - t), k + 36, bias, r, rest, j + 1);
    }
  }

  /** Whatever the decoder reads is the one encoding of what it read. */
  lemma {:induction false} ReadIsVarInt(p: string, pos: nat, insertion: nat, weight: nat, k: int, bias: int)
    returns (q: nat)
    requires pos <= |p|
    requires ReadInt(p, pos, insertion, weight, k, bias).Ok?
    ensures var (insertion', pos') := ReadInt(p, pos, insertion, weight, k, bias).value;
            insertion' == insertion + Times(weight, q) && p[pos..pos'] == VarInt(q, k, bias)
    decreases |p| - pos
  {
    hide Times, Quot, Rem;
    var digit, t := DigitValue(p[pos]), Threshold(k, bias);
    var (insertion', pos') := ReadInt(p, pos, insertion, weight, k, bias).value;
    DigitCharOfValue(p[pos]);
    assert p[pos..pos'] == [p[pos]] + p[pos + 1..pos'];
    if digit < t {
      q := digit;
      TimesComm(weight, q);
    } else {
      var r := ReadIsVarInt(p, pos + 1, insertion + Times(digit, weight), Times(weight, 36 - t), k + 36, bias);
      q := digit + Times(36 - t, r);
      QuotRemUnique(digit - t, r, 36 - t);
      assert q - t == (digit - t) + Times(36 - t, r);
      DigitSplit(weight, q, t);
    }
  }

  lemma {:induction false} VarIntDigits(q: nat, k: int, bias: int)
    ensures |VarInt(q, k, bias)| >= 1
    ensures forall c :: c in VarInt(q, k, bias) ==> IsDigit(c)
    decreases q
  {
    hide Times, Quot, Rem;
    var t := Threshold(k, bias);
    if q >= t {
      DigitSplit(1, q, t);
      VarIntDigits(Quot(q - t, 36 - t), k + 36, bias);
    }
  }

  //////////////////////////////////////////////////////////////////////////////
  // Decoding undoes encoding
  //////////////////////////////////////////////////////////////////////////////

  predicate ScalarsFit(s: seq<int>) {
    |s| <= MAX_PAYLOAD && forall x :: x in s ==> 0 <= x <= MAX_SCALAR && !IsSurrogate(x)
  }

  /** Position (m, i) of the encoder lies delta steps past the last insertion (scalar, insertion),
      where every scalar value offers h + 1 places to insert at. */
  predicate StepsPast(delta: nat, m: nat, i: nat, scalar: nat, insertion: nat, h: nat) {
    scalar <= m && delta + insertion == Times(m - scalar, h + 1) + i
  }

  /** The decoder, fed the rest of a pass of the encoder, rebuilds the encoder's input. */
  lemma {:induction false} DecodeRound(s: seq<int>, m: nat, j: nat, delta: nat, bias: nat, b: nat,
                                       p: string, pos: nat, scalar: nat, insertion: nat)
    requires ScalarsFit(s) && j <= |s| && m in s
    requires pos <= |p| && p[pos..] == Round(s, m, j, delta, bias, b)
    requires insertion <= |Handled(s, m, j)| && b <= |Handled(s, m, j)|
    requires insertion == 0 <==> |Handled(s, m, j)| == b
    requires StepsPast(delta, m, |Below(s[..j], m + 1)|, scalar, insertion, |Handled(s, m, j)|)
    ensures DecodeFrom(p, pos, Handled(s, m, j), insertion, scalar, bias) == Ok(s)
    decreases |s| - |Below(s, m)|, 0, |s| - j
  {
    hide Times, Quot, Rem, VarInt, ReadInt, DecodeFrom, Adapt, Below, Handled, Round, Rounds;
    var h := |Handled(s, m, j)|;
    RoundSteps(s, m, j, delta, bias, b);
    if j == |s| {
      BelowGrows(s, m);
      HandledEnds(s, m);
      assert s[..j] == s;
      StepOver(m, scalar, h);
      DecodeRounds(s, m + 1, delta + 1, bias, b, p, pos, scalar, insertion);
    } else {
      HandledStep(s, m, j);
      BelowStep(s, j, m + 1);
      if s[j] == m {
        DecodeOne(s, m, j, delta, bias, b, p, pos, scalar, insertion);
        TimesOne(h + 2);
        DecodeRound(s, m, j + 1, 0, Adapt(delta, h + 1, h == b), b, p,
                    pos + |VarInt(delta, 36, bias)|, m, |Below(s[..j], m + 1)| + 1);
      } else {
        DecodeRound(s, m, j + 1, if s[j] < m then delta + 1 else delta, bias, b, p, pos, scalar, insertion);
      }
    }
  }

  /** A pass goes on to the next pass, or over an element that it does not write. */
  lemma RoundSteps(s: seq<int>, m: int, j: nat, delta: nat, bias: nat, b: nat)
    requires j <= |s| && m in s
    ensures j == |s| ==> Round(s, m, j, delta, bias, b) == Rounds(s, m + 1, delta + 1, bias, b)
    ensures j < |s| && s[j] != m ==>
      Round(s, m, j, delta, bias, b) == Round(s, m, j + 1, if s[j] < m then delta + 1 else delta, bias, b)
  {
    hide VarInt, Rounds, Below, Handled;
    BelowGrows(s, m);
  }

  lemma StepOver(m: nat, scalar: nat, h: nat)
    requires scalar <= m
    ensures Times(m + 1 - scalar, h + 1) == Times(m - scalar, h + 1) + h + 1
  {
    hide Times;
    TimesComm(m + 1 - scalar, h + 1);
    TimesComm(m - scalar, h + 1);
    TimesAdd(h + 1, m - scalar, 1);
    TimesOne(h + 1);
  }

  /** One written integer is read as one insertion. */
  lemma DecodeOne(s: seq<int>, m: nat, j: nat, delta: nat, bias: nat, b: nat,
                  p: string, pos: nat, scalar: nat, insertion: nat)
    requires ScalarsFit(s) && j < |s| && s[j] == m
    requires pos <= |p| && p[pos..] == Round(s, m, j, delta, bias, b)
    requires insertion <= |Handled(s, m, j)|
    requires insertion == 0 <==> |Handled(s, m, j)| == b
    requires StepsPast(delta, m, |Below(s[..j], m + 1)|, scalar, insertion, |Handled(s, m, j)|)
    ensures var h, i, pos' := |Handled(s, m, j)|, |Below(s[..j], m + 1)|, pos + |VarInt(delta, 36, bias)|;
            && pos' <= |p| && p[pos'..] == Round(s, m, j + 1, 0, Adapt(delta, h + 1, h == b), b)
            && DecodeFrom(p, pos, Handled(s, m, j), insertion, scalar, bias)
               == DecodeFrom(p, pos', Handled(s, m, j + 1), i + 1, m, Adapt(delta, h + 1, h == b))
  {
    hide Times, Quot, Rem, VarInt, ReadInt, Adapt, Round, Rounds, Below;
    var h, i := |Handled(s, m, j)|, |Below(s[..j], m + 1)|;
    HandledStep(s, m, j);
    BelowStep(s, j, m);
    assert h + 1 <= |s|;
    RoundEmits(s, m, j, delta, bias, b, h);
    VarIntDigits(delta, 36, bias);
    DeltaFits(delta, m, i, scalar, insertion, h);
    TimesOne(delta);
    assert Pow35(0) == 1;
    ReadVarInt(p, pos, insertion, 1, 36, bias, delta, Round(s, m, j + 1, 0, Adapt(delta, h + 1, h == b), b), 0);
    TimesComm(m - scalar, h + 1);
    QuotRemUnique(i, m - scalar, h + 1);
    assert |p[pos..]| == |p| - pos;
  }

  lemma DeltaFits(delta: nat, m: nat, i: nat, scalar: nat, insertion: nat, h: nat)
    requires StepsPast(delta, m, i, scalar, insertion, h) && m <= MAX_SCALAR && i <= h < MAX_PAYLOAD
    requires insertion <= h
    ensures delta + insertion <= MAX_DELTA
  {
    hide Times;
    TimesMono(m - scalar, h + 1, 59);
    TimesConst(m - scalar);
  }

  lemma {:induction false} DecodeRounds(s: seq<int>, n: nat, delta: nat, bias: nat, b: nat,
                                        p: string, pos: nat, scalar: nat, insertion: nat)
    requires ScalarsFit(s)
    requires pos <= |p| && p[pos..] == Rounds(s, n, delta, bias, b)
    requires insertion <= |Below(s, n)| && b <= |Below(s, n)|
    requires insertion == 0 <==> |Below(s, n)| == b
    requires StepsPast(delta, n, 0, scalar, insertion, |Below(s, n)|)
    ensures DecodeFrom(p, pos, Below(s, n), insertion, scalar, bias) == Ok(s)
    decreases |s| - |Below(s, n)|, 1, 0
  {
    hide Times, Quot, Rem, ReadInt, Adapt;
    var h := |Below(s, n)|;
    if h == |s| {
      BelowAll(s, n);
    } else {
      BelowShort(s, n);
      var m := NextCode(s, n);
      BelowGap(s, n, m);
      HandledEnds(s, m);
      assert s[..0] == [];
      TimesComm(m - scalar, h + 1);
      TimesComm(n - scalar, h + 1);
      TimesComm(m - n, h + 1);
      TimesAdd(h + 1, n - scalar, m - n);
      DecodeRound(s, m, 0, delta + Times(m - n, h + 1), bias, b, p, pos, scalar, insertion);
    }
  }

  /** Every remaining element costs at least one digit, and no digit is a dash. */
  lemma {:induction false} RoundShape(s: seq<int>, m: int, j: nat, delta: nat, bias: nat, b: nat)
    requires j <= |s| && m in s
    ensures |Round(s, m, j, delta, bias, b)| >= |s| - |Handled(s, m, j)|
    ensures forall c :: c in Round(s, m, j, delta, bias, b) ==> IsDigit(c)
    decreases |s| - |Below(s, m)|, 0, |s| - j
  {
    hide Times, VarInt, Adapt;
    if j == |s| {
      BelowGrows(s, m);
      HandledEnds(s, m);
      RoundsShape(s, m + 1, delta + 1, bias, b);
    } else {
      var h := |Handled(s, m, j)|;
      HandledStep(s, m, j);
      if s[j] == m {
        VarIntDigits(delta, 36, bias);
        RoundShape(s, m, j + 1, 0, Adapt(delta, h + 1, h == b), b);
      } else {
        RoundShape(s, m, j + 1, if s[j] < m then delta + 1 else delta, bias, b);
      }
    }
  }

  lemma {:induction false} RoundsShape(s: seq<int>, n: int, delta: nat, bias: nat, b: nat)
    ensures |Rounds(s, n, delta, bias, b)| >= |s| - |Below(s, n)|
    ensures forall c :: c in Rounds(s, n, delta, bias, b) ==> IsDigit(c)
    decreases |s| - |Below(s, n)|, 1, 0
  {
    hide Times, Adapt;
    var h := |Below(s, n)|;
    if h != |s| {
      BelowShort(s, n);
      var m := NextCode(s, n);
      BelowGap(s, n, m);
      HandledEnds(s, m);
      RoundShape(s, m, 0, delta + Times(m - n, h + 1), bias, b);
    }
  }

  /** An encoding consists of the basic characters, a dash if there are any, and digits. */
  lemma EncodeShape(s: seq<int>)
    requires Encodable(s)
    ensures var p, basic := Encode(s), Below(s, 128);
            var head := |basic| + (if basic == [] then 0 else 1);
            && |p| >= |s| && head < |p| && LastDash(p) == (if basic == [] then -1 else |basic|)
            && (forall c :: c in p ==> InAlphabet(c))
            && AllAscii(basic) && p[..|basic|] == Chars(basic)
            && p[head..] == Rounds(s, 128, 0, 72, |basic|)
  {
    hide Rounds, Round, Below;
    var p, basic := Encode(s), Below(s, 128);
    BelowMember(s, 128);
    var digits := Rounds(s, 128, 0, 72, |basic|);
    RoundsShape(s, 128, 0, 72, |basic|);
    BelowAll(s, 128);
    var chars := Chars(basic);
    CharsInAlphabet(s);
    PayloadShape(p, chars, digits);
  }

  lemma PayloadShape(p: string, chars: string, digits: string)
    requires digits != "" && forall c :: c in digits ==> IsDigit(c)
    requires p == chars + (if chars == "" then "" else "-") + digits
    ensures var head := |chars| + (if chars == "" then 0 else 1);
            p[..|chars|] == chars && p[head..] == digits
    ensures LastDash(p) == if chars == "" then -1 else |chars|
    ensures forall c :: c in p ==> c in chars || c == '-' || c in digits
  {
    var head := |chars| + (if chars == "" then 0 else 1);
    assert p[head..] == digits;
    forall i | head <= i < |p| ensures p[i] != '-' {
      assert p[i] == p[head..][i - head] && p[i] in digits;
    }
    if chars != "" {
      assert p[|chars|] == '-';
    }
    assert forall c :: c in p ==> c in chars || c == '-' || c in digits;
  }

  lemma CharsInAlphabet(s: seq<int>)
    requires Encodable(s)
    ensures AllAscii(Below(s, 128))
    ensures forall c :: c in Chars(Below(s, 128)) ==> InAlphabet(c)
  {
    BelowMember(s, 128);
    var basic := Below(s, 128);
    forall i | 0 <= i < |basic| ensures InAlphabet(Chars(basic)[i]) {
      assert basic[i] in basic;
    }
  }

  lemma OrdsOfChars(s: seq<int>)
    requires AllAscii(s)
    ensures Ords(Chars(s)) == s
  {
    forall i | 0 <= i < |s| ensures Ords(Chars(s))[i] == s[i] {
      assert s[i] in s;
      assert Chars(s)[i] == s[i] as char;
    }
  }

  /** No overflow guard fires and no other check rejects: an encoding that fits decodes to its input. */
  lemma DecodeEncode(s: seq<int>)
    requires Encodable(s) && |Encode(s)| <= MAX_PAYLOAD
    ensures Decode(Encode(s)) == Ok(s)
  {
    hide Rounds, Round, DecodeFrom, Times, Encode;
    EncodeShape(s);
    var p, basic := Encode(s), Below(s, 128);
    var head := |basic| + (if basic == [] then 0 else 1);
    assert p[..|basic|] == Chars(basic);
    OrdsOfChars(basic);
    assert p[..0] == [];
    TimesOne(|basic| + 1);
    DecodeRounds(s, 128, 0, 72, |basic|, p, head, 128, 0);
  }

  //////////////////////////////////////////////////////////////////////////////
  // Encoding undoes decoding
  //////////////////////////////////////////////////////////////////////////////

  /** The shortest prefix of s in which i elements are below n. */
  lemma FindPrefix(s: seq<int>, n: int, i: nat) returns (j: nat)
    requires i <= |Below(s, n)|
    ensures j <= |s| && Below(s[..j], n) == Below(s, n)[..i] && Below(s[j..], n) == Below(s, n)[i..]
    ensures if i == 0 then j == 0 else j > 0 && s[j - 1] < n
  {
    if i == 0 {
      j := 0;
      assert s[..0] == [] && s[0..] == s;
    } else {
      var c, rest := s[0], s[1..];
      var k := FindPrefix(rest, n, if c < n then i - 1 else i);
      j := k + 1;
      FindPrefixStep(s, n, i, k);
    }
  }

  lemma FindPrefixStep(s: seq<int>, n: int, i: nat, k: nat)
    requires s != [] && 0 < i <= |Below(s, n)| && k < |s|
    requires var i' := if s[0] < n then i - 1 else i;
             && i' <= |Below(s[1..], n)| && k <= |s[1..]|
             && Below(s[1..][..k], n) == Below(s[1..], n)[..i']
             && Below(s[1..][k..], n) == Below(s[1..], n)[i'..]
    ensures Below(s[..k + 1], n) == Below(s, n)[..i] && Below(s[k + 1..], n) == Below(s, n)[i..]
  {
    hide Below;
    var front := s[..k + 1];
    assert front[0] == s[0] && front[1..] == s[1..][..k] && s[k + 1..] == s[1..][k..];
    BelowFirst(s, n);
    BelowFirst(front, n);
    if s[0] < n {
      SplitBehind(s[0], Below(s[1..], n), i);
    }
  }

  lemma SplitBehind(c: int, r: seq<int>, i: nat)
    requires 0 < i <= |r| + 1
    ensures ([c] + r)[..i] == [c] + r[..i - 1] && ([c] + r)[i..] == r[i - 1..]
  {
  }

  lemma BelowFirst(s: seq<int>, n: int)
    requires s != []
    ensures Below(s, n) == if s[0] < n then [s[0]] + Below(s[1..], n) else Below(s[1..], n)
  {
  }

  /** Within a pass, elements other than the pass's own code point only advance delta. */
  lemma {:induction false} Skip(s: seq<int>, m: int, j: nat, j': nat, delta: nat, bias: nat, b: nat)
    requires j <= j' <= |s| && m in s && m !in s[j..j']
    ensures Round(s, m, j, delta, bias, b) == Round(s, m, j', delta + |Below(s[j..j'], m)|, bias, b)
    decreases j' - j
  {
    hide VarInt, Adapt, Times;
    if j < j' {
      assert s[j..j'] == [s[j]] + s[j + 1..j'];
      assert s[j] in s[j..j'];
      Skip(s, m, j + 1, j', if s[j] < m then delta + 1 else delta, bias, b);
    } else {
      assert s[j..j'] == [];
    }
  }

  /** An element below m + 1 but not below m equals m. */
  lemma AbsentFrom(s: seq<int>, m: int)
    requires Below(s, m + 1) == Below(s, m)
    ensures m !in s
  {
    if m in s {
      BelowGrows(s, m);
      assert false;
    }
  }

  /** The state of a decoder that has inserted |out| scalars, the last one at insertion - 1. */
  predicate Inserted(out: seq<int>, insertion: nat, scalar: nat) {
    && insertion <= |out|
    && (forall x :: x in out ==> x <= scalar)
    && (forall x :: x in out[insertion..] ==> x < scalar)
  }

  /** The encoder position that corresponds to a decoder state. */
  predicate Located(s: seq<int>, scalar: nat, j: nat, out: seq<int>, insertion: nat) {
    && j <= |s| && insertion <= |out|
    && Below(s[..j], scalar + 1) == out[..insertion]
    && Below(s[j..], scalar) == out[insertion..]
    && (if insertion == 0 then j == 0 else j > 0 && s[j - 1] <= scalar)
  }

  /** The next insertion happens in the same pass: the encoder walks there from the old position. */
  lemma LinkSamePass(s: seq<int>, out: seq<int>, insertion: nat, j: nat, i: nat, n: nat, bias: nat, b: nat)
    returns (j0: nat)
    requires Inserted(out, insertion, n) && insertion <= i <= |out|
    requires j <= |s| && n in s
    requires Below(s[..j], n + 1) == out[..i] && Below(s[j..], n) == out[i..]
    ensures Located(s, n, j0, out, insertion)
    ensures Round(s, n, j0, 0, bias, b) == Round(s, n, j, i - insertion, bias, b)
  {
    hide Round, Rounds, Below;
    var before := s[..j];
    j0 := FindPrefix(before, n + 1, insertion);
    var mid := s[j0..j];
    assert before[..j0] == s[..j0] && before[j0..] == mid;
    assert out[..i][..insertion] == out[..insertion] && out[..i][insertion..] == out[insertion..i];
    MiddleBelow(mid, out, insertion, i, n);
    Skip(s, n, j0, j, 0, bias, b);
    assert s[j0..] == mid + s[j..];
    BelowConcat(mid, s[j..], n);
    assert out[insertion..] == out[insertion..i] + out[i..];
  }

  lemma MiddleBelow(mid: seq<int>, out: seq<int>, insertion: nat, i: nat, n: nat)
    requires Inserted(out, insertion, n) && insertion <= i <= |out|
    requires Below(mid, n + 1) == out[insertion..i]
    ensures n !in mid && Below(mid, n) == out[insertion..i]
  {
    assert forall x :: x in out[insertion..i] ==> x in out[insertion..];
    BelowMember(mid, n + 1);
    BelowSame(mid, n, n + 1);
  }

  /** The next insertion happens in a later pass: the encoder finishes this pass, jumps to the next
      code point that occurs, and walks from its start. */
  lemma LinkLaterPass(s: seq<int>, out: seq<int>, insertion: nat, scalar: nat,
                      j: nat, i: nat, n: nat, bias: nat, b: nat)
    returns (j0: nat)
    requires Inserted(out, insertion, scalar) && scalar < n
    requires j < |s| && s[j] == n && i <= |out|
    requires Below(s[..j], n + 1) == out[..i] && Below(s[j..], n) == out[i..]
    ensures Located(s, scalar, j0, out, insertion)
    ensures var delta := Times(n - scalar, |out| + 1) + i - insertion;
            delta >= 0
            && (scalar in s ==> Round(s, scalar, j0, 0, bias, b) == Round(s, n, j, delta, bias, b))
            && (insertion == 0 ==> Rounds(s, scalar, 0, bias, b) == Round(s, n, j, delta, bias, b))
  {
    hide Round, Rounds, Times, Below;
    var h := |out|;
    WholeBelow(s, out, scalar, j, i, n);
    j0 := FindPrefix(s, scalar + 1, insertion);
    TailBelow(s[j0..], out, insertion, scalar);
    assert |out[insertion..]| == h - insertion;
    StepOver(n - 1, scalar, h);
    if scalar in s {
      Skip(s, scalar, j0, |s|, 0, bias, b) by { assert s[j0..|s|] == s[j0..]; }
      assert s[j0..|s|] == s[j0..];
      FinishPass(s, scalar, h - insertion, bias, b);
      StartPass(s, scalar + 1, n, j, h - insertion + 1, bias, b);
    }
    if insertion == 0 {
      assert out[0..] == out;
      StartPass(s, scalar, n, j, 0, bias, b) by {
        BelowMember(s, n);
        BelowSame(s, scalar, n);
      }
    }
  }

  lemma WholeBelow(s: seq<int>, out: seq<int>, scalar: nat, j: nat, i: nat, n: nat)
    requires (forall x :: x in out ==> x <= scalar) && scalar < n
    requires j <= |s| && i <= |out|
    requires Below(s[..j], n + 1) == out[..i] && Below(s[j..], n) == out[i..]
    ensures Below(s[..j], n) == out[..i]
    ensures Below(s, n) == Below(s, scalar + 1) == out
  {
    hide Below;
    BelowMember(s[..j], n + 1);
    assert forall x :: x in out[..i] ==> x in out;
    BelowSame(s[..j], n, n + 1);
    BelowSplit(s, j, n);
    assert out == out[..i] + out[i..];
    BelowMember(s, n);
    BelowSame(s, scalar + 1, n);
  }

  lemma TailBelow(tail: seq<int>, out: seq<int>, insertion: nat, scalar: nat)
    requires Inserted(out, insertion, scalar) && Below(tail, scalar + 1) == out[insertion..]
    ensures scalar !in tail && Below(tail, scalar) == out[insertion..]
  {
    BelowMember(tail, scalar + 1);
    BelowSame(tail, scalar, scalar + 1);
  }

  lemma FinishPass(s: seq<int>, m: int, delta: nat, bias: nat, b: nat)
    requires m in s
    ensures Round(s, m, |s|, delta, bias, b) == Rounds(s, m + 1, delta + 1, bias, b)
  {
    hide Rounds, Times, VarInt, Adapt;
    assert Round(s, m, |s|, delta, bias, b) == Rounds(s, m + 1, delta + 1, bias, b);
  }

  /** Starting at a code point k with nothing between k and n, up to the first unhandled n. */
  lemma StartPass(s: seq<int>, k: nat, n: nat, j: nat, delta: nat, bias: nat, b: nat)
    requires k <= n && j < |s| && s[j] == n
    requires Below(s, k) == Below(s, n)
    requires Below(s[..j], n + 1) == Below(s[..j], n)
    ensures Rounds(s, k, delta, bias, b)
            == Round(s, n, j, delta + Times(n - k, |Below(s, k)| + 1) + |Below(s[..j], n)|, bias, b)
  {
    hide Round, Times, VarInt, Adapt;
    var h := |Below(s, k)|;
    assert s[j] in s;
    BelowAll(s, n);
    BelowShort(s, k);
    var m := NextCode(s, k);
    BelowMember(s, k);
    BelowMember(s, n);
    assert m == n;
    AbsentFrom(s[..j], n);
    assert s[0..j] == s[..j];
    Skip(s, n, 0, j, delta + Times(n - k, h + 1), bias, b);
  }

  /** From any state of an accepting decoder run, the characters still unread are exactly what the
      encoder still has to write for the scalars that the run ends with. */
  lemma {:induction false} EncodeRun(p: string, pos: nat, out: seq<int>, insertion: nat, scalar: nat, bias: nat,
                                     b: nat, s: seq<int>)
    returns (j: nat)
    requires pos <= |p| && DecodeFrom(p, pos, out, insertion, scalar, bias) == Ok(s)
    requires Inserted(out, insertion, scalar) && b <= |out|
    requires insertion == 0 <==> |out| == b
    ensures Located(s, scalar, j, out, insertion)
    ensures scalar in s ==> p[pos..] == Round(s, scalar, j, 0, bias, b)
    ensures insertion == 0 ==> p[pos..] == Rounds(s, scalar, 0, bias, b)
    decreases |p| - pos
  {
    hide Times, Quot, Rem, ReadInt, VarInt, Adapt, Round, Rounds, Below, DecodeFrom, Located, Inserted, Handled;
    if pos == |p| {
      DecodeEnd(p, out, insertion, scalar, bias);
      j := EncodeRunEnd(s, insertion, scalar, bias, b);
    } else {
      var pos', delta, n, i := DecodeStep(p, pos, out, insertion, scalar, bias);
      InsertedNext(out, insertion, scalar, i, n);
      var bias' := Adapt(delta, |out| + 1, insertion == 0);
      j := EncodeRun(p, pos', out[..i] + [n] + out[i..], i + 1, n, bias', b, s);
      LocatedBefore(s, n, j, out, i);
      j := j - 1;
      RoundEmits(s, n, j, delta, bias, b, |out|);
      assert p[pos..] == p[pos..pos'] + p[pos'..];
      if n == scalar {
        TimesOne(|out| + 1);
        j := LinkSamePass(s, out, insertion, j, i, n, bias, b);
        if insertion == 0 {
          LocatedStart(s, scalar, j, out);
          PassFromStart(s, scalar, bias, b);
        }
      } else {
        j := LinkLaterPass(s, out, insertion, scalar, j, i, n, bias, b);
      }
    }
  }

  lemma LocatedStart(s: seq<int>, scalar: nat, j: nat, out: seq<int>)
    requires Located(s, scalar, j, out, 0)
    ensures j == 0
  {
    hide Below;
  }

  lemma DecodeEnd(p: string, out: seq<int>, insertion: nat, scalar: nat, bias: nat)
    ensures DecodeFrom(p, |p|, out, insertion, scalar, bias) == Ok(out)
  {
  }

  /** One iteration of the outer decoding loop, in the encoder's terms. */
  lemma DecodeStep(p: string, pos: nat, out: seq<int>, insertion: nat, scalar: nat, bias: nat)
    returns (pos': nat, delta: nat, n: nat, i: nat)
    requires pos < |p| && DecodeFrom(p, pos, out, insertion, scalar, bias).Ok?
    ensures pos < pos' <= |p| && p[pos..pos'] == VarInt(delta, 36, bias)
    ensures i <= |out| && StepsPast(delta, n, i, scalar, insertion, |out|)
    ensures n == scalar ==> insertion <= i
    ensures n <= MAX_SCALAR && !IsSurrogate(n)
    ensures DecodeFrom(p, pos, out, insertion, scalar, bias)
            == DecodeFrom(p, pos', out[..i] + [n] + out[i..], i + 1, n, Adapt(delta, |out| + 1, insertion == 0))
  {
    hide Times, Quot, Rem, ReadInt, VarInt, Adapt;
    var read := ReadInt(p, pos, insertion, 1, 36, bias).value;
    var insertion' := read.0;
    pos' := read.1;
    delta := ReadIsVarInt(p, pos, insertion, 1, 36, bias);
    TimesOne(delta);
    QuotRem(insertion', |out| + 1);
    n, i := scalar + Quot(insertion', |out| + 1), Rem(insertion', |out| + 1);
    TimesComm(|out| + 1, n - scalar);
    TimesOne(|out| + 1);
  }

  lemma PassFromStart(s: seq<int>, m: nat, bias: nat, b: nat)
    requires m in s
    ensures Rounds(s, m, 0, bias, b) == Round(s, m, 0, 0, bias, b)
  {
    hide Times, VarInt, Adapt, Round;
    BelowAll(s, m);
    var h := |Below(s, m)|;
    assert NextCode(s, m) == m;
    TimesOne(h + 1);
  }

  lemma RoundEmits(s: seq<int>, n: nat, j: nat, delta: nat, bias: nat, b: nat, h: nat)
    requires j < |s| && s[j] == n && h == |Handled(s, n, j)|
    ensures n in s
    ensures Round(s, n, j, delta, bias, b)
            == VarInt(delta, 36, bias) + Round(s, n, j + 1, 0, Adapt(delta, h + 1, h == b), b)
  {
    hide Times, VarInt, Adapt, Rounds;
  }

  lemma InsertedNext(out: seq<int>, insertion: nat, scalar: nat, i: nat, n: nat)
    requires Inserted(out, insertion, scalar) && i <= |out| && scalar <= n && (n == scalar ==> insertion <= i)
    ensures Inserted(out[..i] + [n] + out[i..], i + 1, n)
  {
    var out' := out[..i] + [n] + out[i..];
    assert forall x :: x in out' ==> x in out || x == n;
    assert out'[i + 1..] == out[i..];
    assert forall x :: x in out[i..] ==> x in out && (insertion <= i ==> x in out[insertion..]);
  }

  /** The position just before the latest insertion. */
  lemma LocatedBefore(s: seq<int>, n: nat, j1: nat, out: seq<int>, i: nat)
    requires i <= |out| && Located(s, n, j1, out[..i] + [n] + out[i..], i + 1)
    ensures 0 < j1 <= |s| && s[j1 - 1] == n
    ensures Below(s[..j1 - 1], n + 1) == out[..i] && Below(s[j1 - 1..], n) == out[i..]
    ensures Handled(s, n, j1 - 1) == out
  {
    hide Below;
    var out' := out[..i] + [n] + out[i..];
    assert out'[..i + 1] == out[..i] + [n] && out'[i + 1..] == out[i..];
    BelowStep(s, j1 - 1, n + 1);
    BelowStep(s, j1 - 1, n);
    var left := Below(s[..j1 - 1], n + 1);
    assert (left + [s[j1 - 1]])[|left|] == s[j1 - 1];
    assert left == (left + [s[j1 - 1]])[..|left|] == out[..i];
    assert out == out[..i] + out[i..];
  }

  lemma EncodeRunEnd(s: seq<int>, insertion: nat, scalar: nat, bias: nat, b: nat) returns (j: nat)
    requires Inserted(s, insertion, scalar)
    ensures Located(s, scalar, j, s, insertion)
    ensures scalar in s ==> Round(s, scalar, j, 0, bias, b) == ""
    ensures insertion == 0 ==> Rounds(s, scalar, 0, bias, b) == ""
  {
    hide Times, VarInt, Adapt, Round, Below;
    j := insertion;
    assert forall x :: x in s[..j] ==> x in s;
    BelowAll(s[..j], scalar + 1);
    BelowAll(s[j..], scalar);
    BelowAll(s, scalar + 1);
    assert s[j..|s|] == s[j..];
    if j > 0 { assert s[j - 1] in s; }
    if scalar in s {
      Skip(s, scalar, j, |s|, 0, bias, b);
      FinishPass(s, scalar, |Below(s[j..|s|], scalar)|, bias, b);
    }
    if insertion == 0 {
      assert s[0..] == s;
    }
  }

  predicate GoodScalar(x: int) {
    if x < 128 then x >= 0 && InAlphabet(x as char) else x <= MAX_SCALAR && !IsSurrogate(x)
  }

  lemma {:induction false} DecodeKeepsGood(p: string, pos: nat, out: seq<int>, insertion: nat, scalar: nat,
                                           bias: nat, s: seq<int>)
    requires pos <= |p| && DecodeFrom(p, pos, out, insertion, scalar, bias) == Ok(s)
    requires scalar >= 128 && forall x :: x in out ==> GoodScalar(x)
    ensures forall x :: x in s ==> GoodScalar(x)
    ensures pos < |p| ==> exists x :: x in s && x >= 128
    ensures forall x :: x in out ==> x in s
    decreases |p| - pos
  {
    hide Times, Quot, Rem, ReadInt, VarInt, Adapt;
    if pos < |p| {
      var pos', delta, n, i := DecodeStep(p, pos, out, insertion, scalar, bias);
      var out' := out[..i] + [n] + out[i..];
      assert out'[i] == n && n in out';
      assert out == out[..i] + out[i..];
      assert forall x :: x in out ==> x in out';
      assert forall x :: x in out' ==> x in out || x == n;
      DecodeKeepsGood(p, pos', out', i + 1, n, Adapt(delta, |out| + 1, insertion == 0), s);
    }
  }

  lemma CharsOfOrds(p: string)
    requires forall c :: c in p ==> c as int < 128
    ensures AllAscii(Ords(p)) && Chars(Ords(p)) == p
  {
    var s := Ords(p);
    forall x | x in s ensures 0 <= x < 128 {
      var i :| 0 <= i < |s| && s[i] == x;
      assert p[i] in p;
    }
  }

  /** The section 6.3 encoder gives back exactly the payload, so the final re-encoding check and the
      "no non-ASCII scalar" check of an A-label can never fail after a successful decoding. */
  lemma EncodeDecode(p: string)
    requires Decode(p).Ok?
    ensures Encodable(Decode(p).value) && Encode(Decode(p).value) == p
  {
    hide Times, DecodeFrom, Round, Rounds, Below;
    var s, split := Decode(p).value, LastDash(p);
    var head := if split >= 0 then p[..split] else "";
    var out := if split >= 0 then Ords(p[..split]) else [];
    assert out == Ords(head);
    forall c | c in head ensures InAlphabet(c) && c as int < 128 {
      var i :| 0 <= i < |head| && head[i] == c;
      assert p[i] == c && c in p;
    }
    CharsOfOrds(head);
    forall x | x in out ensures GoodScalar(x) && x < 128 {
      var i :| 0 <= i < |out| && out[i] == x;
      assert x as char == head[i] && head[i] in head;
    }
    DecodeKeepsGood(p, split + 1, out, 0, 128, 72, s);
    assert out[0..] == out;
    var j := EncodeRun(p, split + 1, out, 0, 128, 72, |out|, s);
    assert s[0..] == s && s[..0] == [];
    assert Below(s, 128) == out;
    assert p == head + (if out == [] then "" else "-") + p[split + 1..];
  }

  /** A payload is accepted exactly when it is the encoding of some scalar sequence. */
  lemma AcceptsExactlyEncodings(p: string)
    ensures Decode(p).Ok? <==> exists s :: Encodable(s) && |Encode(s)| <= MAX_PAYLOAD && Encode(s) == p
    ensures forall s :: Encodable(s) && |Encode(s)| <= MAX_PAYLOAD && Encode(s) == p ==> Decode(p) == Ok(s)
  {
    hide Encodable, Encode, DecodeFrom;
    forall s | Encodable(s) && |Encode(s)| <= MAX_PAYLOAD && Encode(s) == p ensures Decode(p) == Ok(s) {
      DecodeEncode(s);
    }
    if Decode(p).Ok? {
      EncodeDecode(p);
      assert |p| <= MAX_PAYLOAD;
    }
  }

  /** Different payloads never decode to the same scalars. */
  lemma DecodeInjective(p: string, q: string)
    requires Decode(p).Ok? && Decode(p) == Decode(q)
    ensures p == q
  {
    EncodeDecode(p);
    EncodeDecode(q);
  }
}
