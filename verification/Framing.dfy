/** Length-prefixed encodings and the parser that is their left inverse.  Text enters as its bytes. */
module Framing {
  import opened Outcomes

  type Byte = x: int | 0 <= x < 256
  type Bytes = seq<Byte>

  const MAX_U64: nat := 0xFFFF_FFFF_FFFF_FFFF

  //////////////////////////////////////////////////////////////////////////////
  // Big-endian integers
  //////////////////////////////////////////////////////////////////////////////

  function BigEndian(n: nat, width: nat): (b: Bytes)
    ensures |b| == width
  {
    if width == 0 then [] else BigEndian(n / 256, width - 1) + [n % 256]
  }

  function FromBigEndian(b: Bytes): nat {
    if b == [] then 0 else 256 * FromBigEndian(b[..|b| - 1]) + b[|b| - 1]
  }

  function Pow256(k: nat): nat {
    if k == 0 then 1 else 256 * Pow256(k - 1)
  }

  lemma {:induction false} FromBigEndianOf(n: nat, width: nat)
    requires n < Pow256(width)
    ensures FromBigEndian(BigEndian(n, width)) == n
  {
    if width > 0 {
      var b := BigEndian(n, width);
      assert b[..|b| - 1] == BigEndian(n / 256, width - 1);
      FromBigEndianOf(n / 256, width - 1);
      assert 256 * (n / 256) + n % 256 == n;
    }
  }

  lemma U64Width()
    ensures Pow256(8) == MAX_U64 + 1
  {
    assert Pow256(1) == 0x100 && Pow256(2) == 0x1_0000 && Pow256(3) == 0x100_0000;
    assert Pow256(4) == 0x1_0000_0000 && Pow256(5) == 0x100_0000_0000 && Pow256(6) == 0x1_0000_0000_0000;
    assert Pow256(7) == 0x100_0000_0000_0000;
  }

  //////////////////////////////////////////////////////////////////////////////
  // Encoders
  //////////////////////////////////////////////////////////////////////////////

  function U64(n: nat): (r: Result<Bytes>)
    ensures r.Ok? <==> n <= MAX_U64
  {
    if n > MAX_U64 then Err("U64_RANGE") else Ok(BigEndian(n, 8))
  }

  function Frame(v: Bytes): (r: Result<Bytes>)
    ensures r.Ok? <==> |v| <= MAX_U64
  {
    if |v| > MAX_U64 then Err("U64_RANGE") else Ok(BigEndian(|v|, 8) + v)
  }

  function Join(a: Result<Bytes>, b: Result<Bytes>): Result<Bytes> {
    if a.Err? then a else if b.Err? then b else Ok(a.value + b.value)
  }

  datatype Field = Field(name: Bytes, value: Bytes)

  predicate ValidName(name: Bytes) {
    name != [] && forall b :: b in name ==> b < 128
  }

  /** The fields up to index n, or the rejection of the first bad one. */
  function FieldsUpTo(fields: seq<Field>, n: nat): Result<Bytes>
    requires n <= |fields|
  {
    if n == 0 then Ok([])
    else
      var before, f := FieldsUpTo(fields, n - 1), fields[n - 1];
      if before.Err? then before
      else if !ValidName(f.name) || exists j :: 0 <= j < n - 1 && fields[j].name == f.name then
        Err("INVALID_RECORD_FIELDS")
      else Join(before, Join(Frame(f.name), Frame(f.value)))
  }

  function Record(fields: seq<Field>): Result<Bytes> {
    Join(U64(|fields|), FieldsUpTo(fields, |fields|))
  }

  method BuildRecord(fields: seq<Field>) returns (r: Result<Bytes>)
    ensures r == Record(fields)
  {
    hide U64, Frame, ValidName, FieldsUpTo;
    NoFields(fields);
    var count := U64(|fields|);
    if count.Err? {
      return count;
    }
    var names: set<Bytes>, encoded := {}, count.value;
    for n := 0 to |fields|
      invariant forall x :: x in names <==> exists j :: 0 <= j < n && fields[j].name == x
      invariant FieldsUpTo(fields, n).Ok? && encoded == count.value + FieldsUpTo(fields, n).value
    {
      var f := fields[n];
      FieldsStep(fields, n);
      if !ValidName(f.name) || f.name in names {
        ErrorPersists(fields, n + 1, |fields|);
        return Err("INVALID_RECORD_FIELDS");
      }
      var both := Join(Frame(f.name), Frame(f.value));
      if both.Err? {
        ErrorPersists(fields, n + 1, |fields|);
        return both;
      }
      names, encoded := names + {f.name}, encoded + both.value;
    }
    return Ok(encoded);
  }

  lemma NoFields(fields: seq<Field>)
    ensures FieldsUpTo(fields, 0) == Ok([])
  {
  }

  lemma FieldsStep(fields: seq<Field>, n: nat)
    requires n < |fields| && FieldsUpTo(fields, n).Ok?
    ensures var f := fields[n];
      FieldsUpTo(fields, n + 1) ==
        if !ValidName(f.name) || exists j :: 0 <= j < n && fields[j].name == f.name then Err("INVALID_RECORD_FIELDS")
        else Join(FieldsUpTo(fields, n), Join(Frame(f.name), Frame(f.value)))
  {
    hide Join, ValidName;
  }

  lemma {:induction false} ErrorPersists(fields: seq<Field>, n: nat, m: nat)
    requires n <= m <= |fields| && FieldsUpTo(fields, n).Err?
    ensures FieldsUpTo(fields, m) == FieldsUpTo(fields, n)
    decreases m
  {
    if n < m {
      ErrorPersists(fields, n, m - 1);
    }
  }

  /** A record can be built exactly when its names are distinct and of 7-bit characters, and no length takes more
      than 64 bits. */
  lemma RecordExactly(fields: seq<Field>)
    ensures Record(fields).Ok? <==>
      && |fields| < 0x1_0000_0000_0000_0000
      && (forall f :: f in fields ==> f.name != [] && forall b :: b in f.name ==> b <= 0x7F)
      && (forall f :: f in fields ==> |f.name| < 0x1_0000_0000_0000_0000 && |f.value| < 0x1_0000_0000_0000_0000)
      && forall i, j :: 0 <= i < j < |fields| ==> fields[i].name != fields[j].name
  {
    FieldsExactly(fields, |fields|);
  }

  lemma {:induction false} FieldsExactly(fields: seq<Field>, n: nat)
    requires n <= |fields|
    ensures FieldsUpTo(fields, n).Ok? <==>
      forall j :: 0 <= j < n ==>
        && ValidName(fields[j].name) && Frame(fields[j].name).Ok? && Frame(fields[j].value).Ok?
        && forall i :: 0 <= i < j ==> fields[i].name != fields[j].name
  {
    hide ValidName, Frame;
    if n > 0 { FieldsExactly(fields, n - 1); }
  }

  /** The frames of the records, in order. */
  function FramedRecords(records: seq<seq<Field>>): Result<Bytes> {
    if records == [] then Ok([])
    else
      var first := Record(records[0]);
      Join(if first.Ok? then Frame(first.value) else first, FramedRecords(records[1..]))
  }

  function Section(sectionLabel: Bytes, records: seq<seq<Field>>): Result<Bytes> {
    if !ValidName(sectionLabel) then Err("INVALID_SECTION_LABEL")
    else Join(Join(Frame(sectionLabel), U64(|records|)), FramedRecords(records))
  }

  /** The preimage of a framed digest: every value framed, one after the other. */
  function Frames(values: seq<Bytes>): Result<Bytes> {
    if values == [] then Ok([]) else Join(Frame(values[0]), Frames(values[1..]))
  }

  //////////////////////////////////////////////////////////////////////////////
  // The parser
  //////////////////////////////////////////////////////////////////////////////

  datatype Parsed<T> = Parsed(value: T, rest: Bytes)

  function ParseU64(b: Bytes): Option<Parsed<nat>> {
    if |b| < 8 then None else Some(Parsed(FromBigEndian(b[..8]), b[8..]))
  }

  function ParseFrame(b: Bytes): (r: Option<Parsed<Bytes>>)
    ensures r.Some? ==> |r.value.rest| < |b|
  {
    match ParseU64(b)
    case None => None
    case Some(Parsed(n, rest)) => if n <= |rest| then Some(Parsed(rest[..n], rest[n..])) else None
  }

  function ParseFields(b: Bytes, n: nat): Option<Parsed<seq<Field>>> {
    if n == 0 then Some(Parsed([], b))
    else
      match ParseFrame(b)
      case None => None
      case Some(Parsed(name, b1)) =>
        match ParseFrame(b1)
        case None => None
        case Some(Parsed(value, b2)) =>
          match ParseFields(b2, n - 1)
          case None => None
          case Some(Parsed(fields, rest)) => Some(Parsed([Field(name, value)] + fields, rest))
  }

  function ParseRecord(b: Bytes): Option<Parsed<seq<Field>>> {
    match ParseU64(b)
    case None => None
    case Some(Parsed(n, rest)) => ParseFields(rest, n)
  }

  function ParseRecords(b: Bytes, n: nat): Option<Parsed<seq<seq<Field>>>> {
    if n == 0 then Some(Parsed([], b))
    else
      match ParseFrame(b)
      case None => None
      case Some(Parsed(framed, b1)) =>
        match ParseRecord(framed)
        case None => None
        case Some(Parsed(fields, left)) =>
          match ParseRecords(b1, n - 1)
          case None => None
          case Some(Parsed(records, rest)) => Some(Parsed([fields] + records, rest))
  }

  datatype ParsedSection = ParsedSection(sectionLabel: Bytes, records: seq<seq<Field>>)

  function ParseSection(b: Bytes): Option<Parsed<ParsedSection>> {
    match ParseFrame(b)
    case None => None
    case Some(Parsed(sectionLabel, b1)) =>
      match ParseU64(b1)
      case None => None
      case Some(Parsed(n, b2)) =>
        match ParseRecords(b2, n)
        case None => None
        case Some(Parsed(records, rest)) => Some(Parsed(ParsedSection(sectionLabel, records), rest))
  }

  //////////////////////////////////////////////////////////////////////////////
  // Parsing undoes encoding
  //////////////////////////////////////////////////////////////////////////////

  lemma ParseU64Of(n: nat, rest: Bytes)
    requires n <= MAX_U64
    ensures ParseU64(U64(n).value + rest) == Some(Parsed(n, rest))
  {
    U64Width();
    FromBigEndianOf(n, 8);
    var b := BigEndian(n, 8) + rest;
    assert b[..8] == BigEndian(n, 8) && b[8..] == rest;
  }

  lemma ParseFrameOf(v: Bytes, rest: Bytes)
    requires Frame(v).Ok?
    ensures ParseFrame(Frame(v).value + rest) == Some(Parsed(v, rest))
  {
    hide BigEndian, FromBigEndian;
    ParseU64Of(|v|, v + rest);
    assert Frame(v).value + rest == U64(|v|).value + (v + rest);
    assert (v + rest)[..|v|] == v && (v + rest)[|v|..] == rest;
  }

  lemma ParseTwoFrames(a: Bytes, b: Bytes, rest: Bytes)
    requires Frame(a).Ok? && Frame(b).Ok?
    ensures var p := ParseFrame(Frame(a).value + Frame(b).value + rest);
            p.Some? && p.value.value == a && ParseFrame(p.value.rest) == Some(Parsed(b, rest))
  {
    hide Frame, ParseFrame;
    ParseFrameOf(a, Frame(b).value + rest);
    ParseFrameOf(b, rest);
    assert Frame(a).value + Frame(b).value + rest == Frame(a).value + (Frame(b).value + rest);
  }

  /** The bytes of the fields from index n on. */
  function FieldsFrom(fields: seq<Field>, n: nat): Bytes
    requires n <= |fields| && forall f :: f in fields ==> Frame(f.name).Ok? && Frame(f.value).Ok?
    decreases |fields| - n
  {
    if n == |fields| then []
    else Frame(fields[n].name).value + Frame(fields[n].value).value + FieldsFrom(fields, n + 1)
  }

  lemma {:induction false} FieldsJoin(fields: seq<Field>, n: nat)
    requires n <= |fields| && FieldsUpTo(fields, |fields|).Ok?
    ensures forall f :: f in fields ==> Frame(f.name).Ok? && Frame(f.value).Ok?
    ensures FieldsUpTo(fields, n).Ok?
    ensures FieldsUpTo(fields, n).value + FieldsFrom(fields, n) == FieldsUpTo(fields, |fields|).value
    decreases |fields| - n
  {
    hide Frame;
    FieldsFit(fields, |fields|);
    if FieldsUpTo(fields, n).Err? {
      ErrorPersists(fields, n, |fields|);
      assert false;
    }
    if n < |fields| {
      FieldsJoin(fields, n + 1);
      var a, b := Frame(fields[n].name).value, Frame(fields[n].value).value;
      var x, y := FieldsUpTo(fields, n).value, FieldsFrom(fields, n + 1);
      assert FieldsUpTo(fields, n + 1).value == x + (a + b);
      assert x + (a + b) + y == x + (a + b + y);
    }
  }

  lemma {:induction false} FieldsFit(fields: seq<Field>, n: nat)
    requires n <= |fields| && FieldsUpTo(fields, n).Ok?
    ensures forall f :: f in fields[..n] ==> Frame(f.name).Ok? && Frame(f.value).Ok?
    ensures n == |fields| ==> forall f :: f in fields ==> Frame(f.name).Ok? && Frame(f.value).Ok?
  {
    if n > 0 {
      FieldsFit(fields, n - 1);
      assert fields[..n] == fields[..n - 1] + [fields[n - 1]];
    }
    if n == |fields| { assert fields[..n] == fields; }
  }

  lemma {:induction false} ParseFieldsOf(fields: seq<Field>, n: nat, rest: Bytes)
    requires n <= |fields| && forall f :: f in fields ==> Frame(f.name).Ok? && Frame(f.value).Ok?
    ensures ParseFields(FieldsFrom(fields, n) + rest, |fields| - n) == Some(Parsed(fields[n..], rest))
    decreases |fields| - n
  {
    hide Frame, ParseFrame;
    if n == |fields| {
      assert FieldsFrom(fields, n) + rest == rest;
    } else {
      var a, b := fields[n].name, fields[n].value;
      assert fields[n] in fields;
      var tail := FieldsFrom(fields, n + 1) + rest;
      ParseTwoFrames(a, b, tail);
      assert FieldsFrom(fields, n) + rest == Frame(a).value + Frame(b).value + tail;
      ParseFieldsOf(fields, n + 1, rest);
      assert fields[n..] == [Field(a, b)] + fields[n + 1..];
    }
  }

  /** A record is recovered from its bytes, whatever follows. */
  lemma ParseRecordOf(fields: seq<Field>, rest: Bytes)
    requires Record(fields).Ok?
    ensures ParseRecord(Record(fields).value + rest) == Some(Parsed(fields, rest))
  {
    hide U64, Frame, ParseU64, ParseFields, FieldsUpTo, FieldsFrom;
    FieldsJoin(fields, 0);
    FieldsStart(fields);
    var body := FieldsUpTo(fields, |fields|).value;
    ParseU64Of(|fields|, body + rest);
    assert Record(fields).value + rest == U64(|fields|).value + (body + rest);
    ParseFieldsOf(fields, 0, rest);
    assert fields[0..] == fields;
  }

  lemma FieldsStart(fields: seq<Field>)
    requires forall f :: f in fields ==> Frame(f.name).Ok? && Frame(f.value).Ok?
    ensures FieldsUpTo(fields, 0) == Ok([])
    ensures [] + FieldsFrom(fields, 0) == FieldsFrom(fields, 0)
  {
  }

  lemma {:induction false} ParseRecordsOf(records: seq<seq<Field>>, rest: Bytes)
    requires FramedRecords(records).Ok?
    ensures ParseRecords(FramedRecords(records).value + rest, |records|) == Some(Parsed(records, rest))
  {
    hide Frame, ParseFrame, Record, ParseRecord;
    if records == [] {
      assert FramedRecords(records).value + rest == rest;
    } else {
      var first := Record(records[0]).value;
      var tail := FramedRecords(records[1..]).value + rest;
      ParseFrameOf(first, tail);
      assert FramedRecords(records).value + rest == Frame(first).value + tail;
      ParseRecordOf(records[0], []);
      assert first + [] == first;
      ParseRecordsOf(records[1..], rest);
      assert records == [records[0]] + records[1..];
    }
  }

  /** A section is recovered from its bytes, whatever follows: sections form a prefix code. */
  lemma ParseSectionOf(sectionLabel: Bytes, records: seq<seq<Field>>, rest: Bytes)
    requires Section(sectionLabel, records).Ok?
    ensures ParseSection(Section(sectionLabel, records).value + rest)
            == Some(Parsed(ParsedSection(sectionLabel, records), rest))
  {
    hide Frame, U64, ParseFrame, ParseU64, FramedRecords, ParseRecords, ValidName;
    var a, b, c := Frame(sectionLabel).value, U64(|records|).value, FramedRecords(records).value;
    assert Section(sectionLabel, records).value + rest == a + (b + (c + rest));
    ParseFrameOf(sectionLabel, b + (c + rest));
    ParseU64Of(|records|, c + rest);
    ParseRecordsOf(records, rest);
  }

  /** Lists of framed values of any lengths are recovered from their concatenation. */
  lemma {:induction false} FramesInjective(a: seq<Bytes>, b: seq<Bytes>)
    requires Frames(a).Ok? && Frames(a) == Frames(b)
    ensures a == b
  {
    hide Frame, ParseFrame;
    if a != [] { ParseFrameOf(a[0], Frames(a[1..]).value); }
    if b != [] { ParseFrameOf(b[0], Frames(b[1..]).value); }
    FramesNonempty(a);
    FramesNonempty(b);
    if a != [] && b != [] {
      FramesInjective(a[1..], b[1..]);
      assert a == [a[0]] + a[1..] && b == [b[0]] + b[1..];
    }
  }

  lemma FramesNonempty(a: seq<Bytes>)
    requires Frames(a).Ok?
    ensures a == [] <==> Frames(a).value == []
  {
    if a != [] {
      assert |Frame(a[0]).value| >= 8;
    }
  }
}
