/** What Punycode digits stand for, in numbers: the first integer of a payload, the adapted bias, an example. */
module PunycodeValues {
  import opened Arith
  import opened Outcomes
  import opened Punycode

  //////////////////////////////////////////////////////////////////////////////
  // The first integer of a payload
  //////////////////////////////////////////////////////////////////////////////

  /** The value of a base-36 digit: a to z, then 0 to 9. */
  function Base36(c: char): nat
    requires IsDigit(c)
  {
    if c >= 'a' then c as int - 97 else c as int - 22
  }

  /** An integer at the start of a payload: its first two digits end it only when they are zero, a third one
      below 26. */
  predicate FirstInteger(digits: string) {
    && (forall c :: c in digits ==> IsDigit(c))
    && (|digits| == 1 || |digits| == 2 || |digits| == 3)
    && digits[0] in digits && (|digits| == 1 <==> Base36(digits[0]) == 0)
    && (|digits| >= 2 ==> digits[1] in digits && (|digits| == 2 <==> Base36(digits[1]) == 0))
    && (|digits| == 3 ==> digits[2] in digits && Base36(digits[2]) < 26)
  }

  function FirstValue(digits: string): nat
    requires FirstInteger(digits)
  {
    if |digits| < 3 then Base36(digits[0])
    else Base36(digits[0]) + 35 * Base36(digits[1]) + 1225 * Base36(digits[2])
  }

  /** The basic characters, and a delimiter if there are any. */
  function Prefix(basic: string): string { if basic == "" then "" else basic + "-" }

  predicate PayloadParts(basic: string, tail: string) {
    && tail != "" && |Prefix(basic) + tail| <= MAX_PAYLOAD
    && (forall c :: c in basic ==> InAlphabet(c)) && (forall c :: c in tail ==> IsDigit(c))
  }

  lemma {:induction false} DashBefore(p: string, tail: string)
    requires '-' !in tail && (p == "" || p[|p| - 1] == '-')
    ensures LastDash(p + tail) == |p| - 1
    decreases |tail|
  {
    var whole := p + tail;
    if tail == "" {
      assert whole == p;
    } else {
      var front := tail[..|tail| - 1];
      assert whole[|whole| - 1] == tail[|tail| - 1] && tail[|tail| - 1] in tail;
      assert whole[..|whole| - 1] == p + front;
      DashBefore(p, front);
    }
  }

  lemma PayloadStarts(basic: string, tail: string)
    requires PayloadParts(basic, tail)
    ensures var p := Prefix(basic) + tail;
      && WellFormed(p) && LastDash(p) + 1 == |Prefix(basic)|
      && (LastDash(p) >= 0 ==> p[..LastDash(p)] == basic) && (LastDash(p) < 0 ==> basic == "")
  {
    hide LastDash;
    var p := Prefix(basic) + tail;
    assert '-' !in tail;
    DashBefore(Prefix(basic), tail);
    assert forall c :: c in p ==> c in basic || c == '-' || c in tail;
    if basic != "" {
      assert p[..|basic|] == basic;
    }
  }

  /** Digit by digit, with thresholds 1, 1 and 26. */
  lemma ReadFirst(p: string, pos: nat, digits: string)
    requires pos + |digits| <= |p| && p[pos..pos + |digits|] == digits && FirstInteger(digits)
    ensures ReadInt(p, pos, 0, 1, 36, 72) == Ok((FirstValue(digits), pos + |digits|))
  {
    hide ReadInt, IsDigit;
    assert forall i :: 0 <= i < |digits| ==> p[pos + i] == digits[i] && digits[i] in digits;
    ReadDigit(p, pos, 0, 1, 36, 72);
    var d0 := Base36(digits[0]);
    SameDigit(digits[0]);
    if |digits| > 1 {
      SameDigit(digits[1]);
      var d1 := Base36(digits[1]);
      ReadDigit(p, pos + 1, d0, 35, 72, 72);
      if |digits| > 2 {
        SameDigit(digits[2]);
        ReadDigit(p, pos + 2, d0 + 35 * d1, 1225, 108, 72);
      }
    }
  }

  lemma SameDigit(c: char)
    requires IsDigit(c)
    ensures DigitValue(c) == Base36(c) && Base36(c) < 36
  {
  }

  /** What the first integer of a payload inserts: the scalar 128 plus its quotient by the number of places, at its
      remainder.  Only the bias for what follows is left open here. */
  lemma FirstInsertion(basic: string, digits: string, rest: string) returns (bias: nat)
    requires PayloadParts(basic, digits + rest) && FirstInteger(digits)
    ensures var p := Prefix(basic) + (digits + rest);
      var n, count := FirstValue(digits), |basic| + 1;
      var out := Ords(basic)[..n % count] + [128 + n / count] + Ords(basic)[n % count..];
      && Decode(p) == DecodeFrom(p, |Prefix(basic)| + |digits|, out, n % count + 1, 128 + n / count, bias)
      && (rest == "" ==> Decode(p) == Ok(out))
      && bias == Adapt(n, count, true)
  {
    hide ReadInt, DecodeFrom, LastDash, WellFormed, FirstInteger, FirstValue, Adapt;
    var p, at := Prefix(basic) + (digits + rest), |Prefix(basic)|;
    PayloadStarts(basic, digits + rest);
    assert digits != "" by { NotEmpty(digits); }
    assert p[at..at + |digits|] == digits;
    ReadFirst(p, at, digits);
    DecodeInsertion(p, at, Ords(basic), 0, 128, 72);
    FirstSmall(digits);
    var n, count := FirstValue(digits), |basic| + 1;
    SmallQuotient(n, count);
    bias := Adapt(n, count, true);
    if rest == "" {
      var out := Ords(basic)[..n % count] + [128 + n / count] + Ords(basic)[n % count..];
      DecodeEnd(p, out, n % count + 1, 128 + n / count, bias);
    }
  }

  lemma NotEmpty(digits: string)
    ensures FirstInteger(digits) ==> digits != ""
  {
  }

  lemma FirstSmall(digits: string)
    requires FirstInteger(digits)
    ensures FirstValue(digits) <= 31885
  {
    forall i | 0 <= i < |digits| ensures Base36(digits[i]) < 36 {
      assert digits[i] in digits;
      SameDigit(digits[i]);
    }
    hide Base36;
  }

  lemma SmallQuotient(n: nat, count: nat)
    requires n <= 31885 && count > 0
    ensures Quot(n, count) == n / count <= 31885 && Rem(n, count) == n % count < count
  {
    QuotientBound(n, count);
  }

  //////////////////////////////////////////////////////////////////////////////
  // Thresholds and bias, as sections 3.3 and 3.4 of RFC 3492 put them
  //////////////////////////////////////////////////////////////////////////////

  lemma ThresholdIs(k: int, bias: int)
    ensures k <= bias + 1 ==> Threshold(k, bias) == 1
    ensures k >= bias + 26 ==> Threshold(k, bias) == 26
    ensures bias + 1 <= k <= bias + 26 ==> Threshold(k, bias) == k - bias
  {
  }

  /** d divided by 35, j times. */
  function By35(d: nat, j: nat): nat {
    if j == 0 then d else By35(d, j - 1) / 35
  }

  lemma {:induction false} DividedIs(d: nat, bias: nat) returns (j: nat)
    ensures By35(d, j) <= 455 && (j > 0 ==> By35(d, j - 1) > 455)
    ensures var e := By35(d, j); Divided(d, bias) == bias + 36 * j + 36 * e / (e + 38)
    decreases d
  {
    if d > 455 {
      var i := DividedIs(d / 35, bias + 36);
      j := i + 1;
      Shifted(d, i);
      if i > 0 { Shifted(d, i - 1); }
    } else {
      j := 0;
    }
  }

  lemma {:induction false} Shifted(d: nat, j: nat)
    ensures By35(d / 35, j) == By35(d, j + 1)
  {
    if j > 0 { Shifted(d, j - 1); }
  }

  /** The adapted bias: the delta over 700 at first and over 2 later, plus its share per point, is divided by 35
      until it is at most 455; each division counts 36, and the rest counts 36 e / (e + 38). */
  lemma AdaptIs(delta: nat, points: nat, first: bool) returns (j: nat)
    requires points > 0
    ensures var d := delta / (if first then 700 else 2);
      var e := By35(d + d / points, j);
      && e <= 455 && (j > 0 ==> By35(d + d / points, j - 1) > 455)
      && Adapt(delta, points, first) == 36 * j + 36 * e / (e + 38)
  {
    hide Divided, By35;
    var d: nat := delta / (if first then 700 else 2);
    QuotientBound(d, points);
    j := DividedIs(d + d / points, 0);
  }

  //////////////////////////////////////////////////////////////////////////////
  // An example of section 7.1 of RFC 3492, in lower case
  //////////////////////////////////////////////////////////////////////////////

  const BEFORE: string := "porqu"
  const BETWEEN: string := "nopuedensimplementehablarenespa"
  const AFTER: string := "ol"

  lemma SpanishBias()
    ensures Adapt(4100, 39, true) == 4
  {
    var j := AdaptIs(4100, 39, true);
    hide Adapt;
    assert By35(5, 0) == 5;
    if j > 0 { By35Shrinks(5, j - 1); }
  }

  lemma {:induction false} By35Shrinks(d: nat, j: nat)
    ensures By35(d, j) <= d
  {
    if j > 0 { By35Shrinks(d, j - 1); }
  }

  lemma SpanishParts()
    ensures PayloadParts(BEFORE + BETWEEN + AFTER, "fmd" + "56a") && |BEFORE + BETWEEN + AFTER| == 38
    ensures FirstInteger("fmd") && FirstValue("fmd") == 4100
  {
  }

  lemma SpanishSecond(p: string, pos: nat)
    requires pos + 3 == |p| && p[pos..] == "56a"
    ensures ReadInt(p, pos, 6, 1, 36, 4) == Ok((357, pos + 3))
  {
    hide ReadInt;
    assert p[pos] == p[pos..][0] && p[pos + 1] == p[pos..][1] && p[pos + 2] == p[pos..][2];
    ReadDigit(p, pos, 6, 1, 36, 4);
    ReadDigit(p, pos + 1, 37, 10, 72, 4);
    ReadDigit(p, pos + 2, 357, 100, 108, 4);
  }

  /** Two insertions: U+00E9 behind the fifth character, U+00F1 before the last two. */
  lemma SpanishDecodes()
    ensures Decode(BEFORE + BETWEEN + AFTER + "-fmd56a")
            == Ok(Ords(BEFORE) + [0xE9] + Ords(BETWEEN) + [0xF1] + Ords(AFTER))
  {
    hide ReadInt, DecodeFrom, Decode, Adapt, PayloadParts, FirstInteger, FirstValue;
    var basic := BEFORE + BETWEEN + AFTER;
    SpanishParts();
    var bias := FirstInsertion(basic, "fmd", "56a");
    SpanishBias();
    var p := Prefix(basic) + ("fmd" + "56a");
    assert p == basic + "-fmd56a" && |p| == 45 && p[42..] == "56a";
    var out := Ords(basic)[..5] + [0xE9] + Ords(basic)[5..];
    SpanishSecond(p, 42);
    DecodeInsertion(p, 42, out, 6, 0xE9, 4);
    var end := out[..37] + [0xF1] + out[37..];
    DecodeEnd(p, end, 38, 0xF1, Adapt(351, 40, false));
    assert end == Ords(BEFORE) + [0xE9] + Ords(BETWEEN) + [0xF1] + Ords(AFTER);
  }
}
