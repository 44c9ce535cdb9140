/**
 * The Starknet protocol version: four `u8` segments, read from and printed as a
 * dot-separated string, and mapped onto the official releases.
 */
module ProtocolVersion {
  import opened Wrappers
  import opened Decimal

  type U8 = n: nat | n <= U8_MAX

  type Segments = s: seq<U8> | |s| == 4 witness [0, 0, 0, 0]

  datatype StarknetVersion = StarknetVersion(segments: Segments)

  /** `CURRENT_STARKNET_VERSION`, which is also the `Default`. */
  const CURRENT_STARKNET_VERSION := StarknetVersion([0, 13, 1, 1])

  datatype ParseVersionError = InvalidFormat | ParseSegment(kind: IntErrorKind)

  // ----- Splitting on '.' and joining back -----

  /** `str::join(".")`. */
  function Join(parts: seq<string>): string
    requires |parts| >= 1
  {
    if |parts| == 1 then parts[0] else parts[0] + "." + Join(parts[1..])
  }

  lemma {:induction false} JoinSnoc(parts: seq<string>, x: string)
    requires |parts| >= 1
    ensures Join(parts + [x]) == Join(parts) + "." + x
  {
    if |parts| > 1 {
      assert (parts + [x])[1..] == parts[1..] + [x];
      JoinSnoc(parts[1..], x);
    }
  }

  /**
   * `str::split('.')`: the text between consecutive dots, so `n` dots give `n + 1`
   * pieces, empty ones included; joining the pieces with dots gives the string back.
   */
  function Split(s: string): (parts: seq<string>)
    ensures |parts| >= 1
    ensures forall i :: 0 <= i < |parts| ==> '.' !in parts[i]
    ensures Join(parts) == s
    decreases |s|
  {
    if |s| == 0 then [""]
    else
      var rest := Split(s[1..]);
      if s[0] == '.' then
        assert Join([""] + rest) == "." + Join(rest) by {
          assert ([""] + rest)[1..] == rest;
        }
        [""] + rest
      else
        var parts := [[s[0]] + rest[0]] + rest[1..];
        assert Join(parts) == [s[0]] + Join(rest) by {
          if |rest| > 1 {
            assert parts[1..] == rest[1..];
          }
        }
        assert s == [s[0]] + s[1..];
        parts
  }

  lemma {:induction false} SplitNoDot(p: string)
    requires '.' !in p
    ensures Split(p) == [p]
    decreases |p|
  {
    if |p| > 0 {
      SplitNoDot(p[1..]);
      assert [p[0]] + p[1..] == p;
    }
  }

  lemma {:induction false} SplitCons(p: string, t: string)
    requires '.' !in p
    ensures Split(p + "." + t) == [p] + Split(t)
    decreases |p|
  {
    var s := p + "." + t;
    if |p| == 0 {
      assert s[1..] == t;
    } else {
      assert s[1..] == p[1..] + "." + t;
      SplitCons(p[1..], t);
      assert [p[0]] + p[1..] == p;
    }
  }

  /** Splitting undoes joining pieces that hold no dot. */
  lemma {:induction false} SplitJoin(parts: seq<string>)
    requires |parts| >= 1
    requires forall i :: 0 <= i < |parts| ==> '.' !in parts[i]
    ensures Split(Join(parts)) == parts
  {
    if |parts| == 1 {
      SplitNoDot(parts[0]);
    } else {
      SplitJoin(parts[1..]);
      SplitCons(parts[0], Join(parts[1..]));
      assert [parts[0]] + parts[1..] == parts;
    }
  }

  // ----- Parsing -----

  /** One segment: an empty one is 0, any other must be a `u8`. */
  function SegmentValue(seg: string): (r: Result<U8, IntErrorKind>)
    ensures seg == "" ==> r == Ok(0)
    ensures seg != "" ==> r == ParseUnsigned(seg, U8_MAX)
  {
    if seg == "" then Ok(0)
    else match ParseUnsigned(seg, U8_MAX)
      case Ok(v) => Ok(v)
      case Err(e) => Err(e)
  }

  /**
   * Reading the segments in order, stopping at the first one that is not a `u8`: all of
   * them read means their values; otherwise the error of the first that fails.
   */
  function ReadSegments(segs: seq<string>): (r: Result<seq<U8>, IntErrorKind>)
    ensures r.Ok? <==> forall i :: 0 <= i < |segs| ==> SegmentValue(segs[i]).Ok?
    ensures r.Ok? ==> |r.value| == |segs| &&
                      forall i :: 0 <= i < |segs| ==> r.value[i] == SegmentValue(segs[i]).value
    ensures r.Err? ==> exists i :: 0 <= i < |segs| && SegmentValue(segs[i]) == Err(r.error) &&
                                   forall j :: 0 <= j < i ==> SegmentValue(segs[j]).Ok?
  {
    if |segs| == 0 then Ok([])
    else
      var init := segs[..|segs| - 1];
      assert forall i :: 0 <= i < |init| ==> init[i] == segs[i];
      match ReadSegments(init)
      case Err(e) => Err(e)
      case Ok(vs) =>
        match SegmentValue(segs[|segs| - 1])
        case Err(e) => Err(e)
        case Ok(v) => Ok(vs + [v])
  }

  /** The segments read, followed by zeros for the missing trailing ones. */
  function Padded(vs: seq<U8>): (r: Segments)
    requires |vs| <= 4
    ensures forall i :: 0 <= i < |vs| ==> r[i] == vs[i]
    ensures forall i :: |vs| <= i < 4 ==> r[i] == 0
  {
    vs + seq(4 - |vs|, _ => 0)
  }

  /**
   * `StarknetVersion::parse`, as a function of the text: the empty string and more than
   * four segments are `InvalidFormat`; a segment that is not a `u8` is `ParseSegment`
   * with its error; otherwise the segments read, with missing trailing ones (and empty
   * ones) as 0.
   */
  function ParseVersion(version: string): (r: Result<StarknetVersion, ParseVersionError>)
    ensures r == Err(InvalidFormat) <==> version == "" || |Split(version)| > 4
    ensures r.Ok? <==> version != "" && |Split(version)| <= 4 &&
                       forall i :: 0 <= i < |Split(version)| ==> SegmentValue(Split(version)[i]).Ok?
    ensures r.Ok? ==> forall i :: 0 <= i < 4 ==>
                        r.value.segments[i] ==
                        if i < |Split(version)| then SegmentValue(Split(version)[i]).value else 0
    ensures r.Err? && r.error.ParseSegment? ==>
              exists i :: 0 <= i < |Split(version)| && SegmentValue(Split(version)[i]) == Err(r.error.kind) &&
                          forall j :: 0 <= j < i ==> SegmentValue(Split(version)[j]).Ok?
  {
    if version == "" then Err(InvalidFormat)
    else
      var segs := Split(version);
      if |segs| > 4 then Err(InvalidFormat)
      else
        match ReadSegments(segs)
        case Err(e) => Err(ParseSegment(e))
        case Ok(vs) => Ok(StarknetVersion(Padded(vs)))
  }

  /** `parse`, filling a zeroed four-byte buffer segment by segment. */
  method Parse(version: string) returns (r: Result<StarknetVersion, ParseVersionError>)
    ensures r == ParseVersion(version)
  {
    if |version| == 0 {
      return Err(InvalidFormat);
    }
    var segments := Split(version);
    if |segments| > 4 {
      return Err(InvalidFormat);
    }
    var buffer := new U8[4](_ => 0);
    var read := FillBuffer(segments, buffer);
    match read
    case Err(e) =>
      r := Err(ParseSegment(e));
    case Ok(vs) =>
      r := Ok(StarknetVersion(buffer[..]));
  }

  /**
   * The loop of `parse`: writes the value of each segment into the zeroed buffer in turn,
   * giving up at the first segment that is not a `u8`.
   */
  method FillBuffer(segments: seq<string>, buffer: array<U8>) returns (r: Result<seq<U8>, IntErrorKind>)
    requires |segments| <= buffer.Length == 4
    requires forall j :: 0 <= j < 4 ==> buffer[j] == 0
    modifies buffer
    ensures r == ReadSegments(segments)
    ensures r.Ok? ==> |r.value| <= 4 && buffer[..] == Padded(r.value)
  {
    var i := 0;
    while i < |segments|
      invariant 0 <= i <= |segments|
      invariant ReadSegments(segments[..i]) == Ok(buffer[..i])
      invariant forall j :: i <= j < 4 ==> buffer[j] == 0
    {
      var value := SegmentValue(segments[i]);
      assert segments[..i + 1][..i] == segments[..i];
      if value.Err? {
        assert ReadSegments(segments[..i + 1]).Err?;
        ReadSegmentsPrefixErr(segments, i + 1);
        return Err(value.error);
      }
      buffer[i] := value.value;
      assert buffer[..i + 1] == buffer[..i] + [value.value];
      i := i + 1;
    }
    assert segments[..i] == segments;
    assert buffer[..] == Padded(buffer[..i]);
    r := Ok(buffer[..i]);
  }

  /** Once a prefix fails to read, the whole list fails with the same error. */
  lemma {:induction false} ReadSegmentsPrefixErr(segs: seq<string>, n: nat)
    requires n <= |segs|
    requires ReadSegments(segs[..n]).Err?
    ensures ReadSegments(segs) == ReadSegments(segs[..n])
    decreases |segs| - n
  {
    if n < |segs| {
      var longer := segs[..n + 1];
      assert longer[..|longer| - 1] == segs[..n];
      ReadSegmentsPrefixErr(segs, n + 1);
    } else {
      assert segs[..n] == segs;
    }
  }

  // ----- Printing -----

  function DecimalSegments(segs: seq<U8>): (parts: seq<string>)
    ensures |parts| == |segs|
    ensures forall i :: 0 <= i < |segs| ==> parts[i] == ToDecimal(segs[i])
  {
    if |segs| == 0 then [] else [ToDecimal(segs[0])] + DecimalSegments(segs[1..])
  }

  /**
   * `Display`: the segments in decimal, separated by dots, the fourth left out when it
   * is zero; the dot-separated pieces are exactly the printed segments.
   */
  function ToString(v: StarknetVersion): (s: string)
    ensures |Split(s)| == if v.segments[3] == 0 then 3 else 4
    ensures forall i :: 0 <= i < |Split(s)| ==> Split(s)[i] == ToDecimal(v.segments[i])
  {
    var shown := if v.segments[3] == 0 then v.segments[..3] else v.segments;
    var parts := DecimalSegments(shown);
    SplitJoin(parts);
    Join(parts)
  }

  /** `fmt`, writing one segment at a time. */
  method Format(v: StarknetVersion) returns (s: string)
    ensures s == ToString(v)
  {
    s := "";
    var idx := 0;
    while idx < 4
      invariant 0 <= idx <= 4
      invariant idx == 0 ==> s == ""
      invariant 0 < idx <= 3 ==> s == Join(DecimalSegments(v.segments[..idx]))
      invariant idx == 4 ==> s == ToString(v)
    {
      var segment := v.segments[idx];
      if idx > 0 {
        assert v.segments[..idx + 1] == v.segments[..idx] + [segment];
        DecimalSegmentsSnoc(v.segments[..idx], segment);
        JoinSnoc(DecimalSegments(v.segments[..idx]), ToDecimal(segment));
      } else {
        assert DecimalSegments(v.segments[..1]) == [ToDecimal(segment)];
      }
      if idx == 3 {
        if segment != 0 {
          s := s + "." + ToDecimal(segment);
        }
        assert v.segments[..4] == v.segments;
      } else if idx == 0 {
        s := ToDecimal(segment);
      } else {
        s := s + "." + ToDecimal(segment);
      }
      idx := idx + 1;
    }
  }

  lemma DecimalSegmentsSnoc(segs: seq<U8>, x: U8)
    ensures DecimalSegments(segs + [x]) == DecimalSegments(segs) + [ToDecimal(x)]
  {
    assert DecimalSegments(segs + [x]) == DecimalSegments(segs) + [ToDecimal(x)];
  }

  /** Each printed segment reads back as its value. */
  lemma ReadDecimalSegments(vs: seq<U8>)
    ensures ReadSegments(DecimalSegments(vs)) == Ok(vs)
  {
    var parts := DecimalSegments(vs);
    forall i | 0 <= i < |vs|
      ensures SegmentValue(parts[i]) == Ok(vs[i])
    {
      ParseToDecimal(vs[i], U8_MAX);
    }
    var r := ReadSegments(parts);
    assert r.Ok?;
    assert |r.value| == |vs|;
    assert forall i :: 0 <= i < |vs| ==> r.value[i] == vs[i];
    assert r.value == vs;
  }

  /** Up to four segments printed with dots between them parse back, padded with zeros. */
  lemma ParseJoined(vs: seq<U8>)
    requires 1 <= |vs| <= 4
    ensures ParseVersion(Join(DecimalSegments(vs))) == Ok(StarknetVersion(Padded(vs)))
  {
    var parts := DecimalSegments(vs);
    var text := Join(parts);
    SplitJoin(parts);
    ReadDecimalSegments(vs);
    assert text != "" by {
      assert Split("") == [""];
      assert parts[0] != "";
    }
    assert Split(text) == parts && |parts| <= 4;
    assert ReadSegments(Split(text)) == Ok(vs);
  }

  /** Printing a version and parsing the text gives the version back. */
  lemma ParseToString(v: StarknetVersion)
    ensures ParseVersion(ToString(v)) == Ok(v)
  {
    var shown := if v.segments[3] == 0 then v.segments[..3] else v.segments;
    assert ToString(v) == Join(DecimalSegments(shown));
    ParseJoined(shown);
    assert Padded(shown) == v.segments;
  }

  // ----- The official releases -----

  /** The releases the sequencer library knows. */
  datatype ApiVersion =
    | V0_9_1 | V0_10_0 | V0_10_1 | V0_10_2 | V0_10_3 | V0_11_0 | V0_11_0_2 | V0_11_1
    | V0_11_2 | V0_12_0 | V0_12_1 | V0_12_2 | V0_12_3 | V0_13_0 | V0_13_1 | V0_13_2
    | V0_13_2_1 | V0_13_3 | V0_13_4 | V0_13_5 | V0_14_0

  /** The version number each release is named after. */
  function ReleaseSegments(api: ApiVersion): Segments {
    match api
    case V0_9_1 => [0, 9, 1, 0]
    case V0_10_0 => [0, 10, 0, 0]
    case V0_10_1 => [0, 10, 1, 0]
    case V0_10_2 => [0, 10, 2, 0]
    case V0_10_3 => [0, 10, 3, 0]
    case V0_11_0 => [0, 11, 0, 0]
    case V0_11_0_2 => [0, 11, 0, 2]
    case V0_11_1 => [0, 11, 1, 0]
    case V0_11_2 => [0, 11, 2, 0]
    case V0_12_0 => [0, 12, 0, 0]
    case V0_12_1 => [0, 12, 1, 0]
    case V0_12_2 => [0, 12, 2, 0]
    case V0_12_3 => [0, 12, 3, 0]
    case V0_13_0 => [0, 13, 0, 0]
    case V0_13_1 => [0, 13, 1, 0]
    case V0_13_2 => [0, 13, 2, 0]
    case V0_13_2_1 => [0, 13, 2, 1]
    case V0_13_3 => [0, 13, 3, 0]
    case V0_13_4 => [0, 13, 4, 0]
    case V0_13_5 => [0, 13, 5, 0]
    case V0_14_0 => [0, 14, 0, 0]
  }

  datatype InvalidVersionError = InvalidVersionError(version: StarknetVersion)

  /**
   * `TryFrom<StarknetVersion>` for the library's version: a release's own number maps
   * to it, and so does `0.13.1.1`, which is reported as 0.13.3; every other version is
   * rejected with itself as the error.
   */
  function ToApiVersion(v: StarknetVersion): (r: Result<ApiVersion, InvalidVersionError>)
    ensures r.Ok? ==> v.segments == ReleaseSegments(r.value) ||
                      (v.segments == [0, 13, 1, 1] && r.value == V0_13_3)
    ensures r.Err? ==> r.error == InvalidVersionError(v)
  {
    var s := v.segments;
    match (s[0], s[1], s[2], s[3])
    case (0, 9, 1, 0) => Ok(V0_9_1)
    case (0, 10, 0, 0) => Ok(V0_10_0)
    case (0, 10, 1, 0) => Ok(V0_10_1)
    case (0, 10, 2, 0) => Ok(V0_10_2)
    case (0, 10, 3, 0) => Ok(V0_10_3)
    case (0, 11, 0, 0) => Ok(V0_11_0)
    case (0, 11, 0, 2) => Ok(V0_11_0_2)
    case (0, 11, 1, 0) => Ok(V0_11_1)
    case (0, 11, 2, 0) => Ok(V0_11_2)
    case (0, 12, 0, 0) => Ok(V0_12_0)
    case (0, 12, 1, 0) => Ok(V0_12_1)
    case (0, 12, 2, 0) => Ok(V0_12_2)
    case (0, 12, 3, 0) => Ok(V0_12_3)
    case (0, 13, 0, 0) => Ok(V0_13_0)
    case (0, 13, 1, 0) => Ok(V0_13_1)
    case (0, 13, 1, 1) => Ok(V0_13_3)
    case (0, 13, 2, 0) => Ok(V0_13_2)
    case (0, 13, 2, 1) => Ok(V0_13_2_1)
    case (0, 13, 3, 0) => Ok(V0_13_3)
    case (0, 13, 4, 0) => Ok(V0_13_4)
    case (0, 13, 5, 0) => Ok(V0_13_5)
    case (0, 14, 0, 0) => Ok(V0_14_0)
    case _ => Err(InvalidVersionError(v))
  }

  /** Every release is reached from its own version number. */
  lemma ReleaseRoundTrip(api: ApiVersion)
    ensures ToApiVersion(StarknetVersion(ReleaseSegments(api))) == Ok(api)
  {
  }

  /** The current version is accepted, as 0.13.3; one that is no release is rejected. */
  lemma CurrentIsARelease()
    ensures ToApiVersion(CURRENT_STARKNET_VERSION) == Ok(V0_13_3)
    ensures ToApiVersion(StarknetVersion([1, 9, 0, 0])) == Err(InvalidVersionError(StarknetVersion([1, 9, 0, 0])))
  {
  }

  // ----- The behaviour fixed by the unit tests -----

  lemma SmallDecimals()
    ensures ToDecimal(0) == "0" && ToDecimal(1) == "1" && ToDecimal(2) == "2"
    ensures ToDecimal(3) == "3" && ToDecimal(4) == "4" && ToDecimal(9) == "9"
  {
  }

  lemma ParseValid()
    ensures ParseVersion("1.9.0.0") == Ok(StarknetVersion([1, 9, 0, 0]))
    ensures ToString(StarknetVersion([1, 9, 0, 0])) == "1.9.0"
  {
    ParseNineteen();
    PrintNineteen();
  }

  lemma ParseNineteen()
    ensures ParseVersion("1.9.0.0") == Ok(StarknetVersion([1, 9, 0, 0]))
  {
    SmallDecimals();
    assert DecimalSegments([1, 9, 0, 0]) == ["1", "9", "0", "0"];
    assert Join(["1", "9", "0", "0"]) == "1.9.0.0";
    ParseJoined([1, 9, 0, 0]);
    assert Padded([1, 9, 0, 0]) == [1, 9, 0, 0];
  }

  lemma PrintNineteen()
    ensures ToString(StarknetVersion([1, 9, 0, 0])) == "1.9.0"
  {
    SmallDecimals();
    var v := StarknetVersion([1, 9, 0, 0]);
    assert v.segments[..3] == [1, 9, 0];
    assert DecimalSegments([1, 9, 0]) == ["1", "9", "0"];
    assert Join(["1", "9", "0"]) == "1.9.0";
  }

  lemma ParseMissingParts()
    ensures ParseVersion("1.9.0") == Ok(StarknetVersion([1, 9, 0, 0]))
  {
    SmallDecimals();
    assert DecimalSegments([1, 9, 0]) == ["1", "9", "0"];
    assert Join(["1", "9", "0"]) == "1.9.0";
    ParseJoined([1, 9, 0]);
    assert Padded([1, 9, 0]) == [1, 9, 0, 0];
  }

  lemma ParseInvalidDigit()
    ensures ParseVersion("0.fv.1.0").Err?
  {
    var parts := ["0", "fv", "1", "0"];
    SplitJoin(parts);
    assert Join(parts) == "0.fv.1.0";
    assert SegmentValue(parts[1]).Err? by {
      assert !IsDigit('f');
    }
  }

  lemma ParseMissingDigitDefaultsToZero()
    ensures ParseVersion("1...") == Ok(StarknetVersion([1, 0, 0, 0]))
    ensures ToString(StarknetVersion([1, 0, 0, 0])) == "1.0.0"
  {
    SmallDecimals();
    var parts := ["1", "", "", ""];
    SplitJoin(parts);
    assert Join(parts) == "1...";
    assert SegmentValue("1") == Ok(1) by {
      ParseToDecimal(1, U8_MAX);
    }
    var r := ReadSegments(parts);
    assert r.Ok?;
    assert r.value == [1, 0, 0, 0];
    assert Padded(r.value) == [1, 0, 0, 0];
    var v := StarknetVersion([1, 0, 0, 0]);
    assert v.segments[..3] == [1, 0, 0];
    assert DecimalSegments([1, 0, 0]) == ["1", "0", "0"];
    assert Join(["1", "0", "0"]) == "1.0.0";
  }

  lemma ParseFourParts()
    ensures ParseVersion("1.2.3.4") == Ok(StarknetVersion([1, 2, 3, 4]))
    ensures ToString(StarknetVersion([1, 2, 3, 4])) == "1.2.3.4"
  {
    SmallDecimals();
    assert DecimalSegments([1, 2, 3, 4]) == ["1", "2", "3", "4"];
    assert Join(["1", "2", "3", "4"]) == "1.2.3.4";
    ParseJoined([1, 2, 3, 4]);
    assert Padded([1, 2, 3, 4]) == [1, 2, 3, 4];
  }

  lemma ParseInvalidFormats()
    ensures ParseVersion("") == Err(InvalidFormat)
    ensures ParseVersion("1.2.3.4.5") == Err(InvalidFormat)
  {
    var parts := ["1", "2", "3", "4", "5"];
    SplitJoin(parts);
    assert Join(parts) == "1.2.3.4.5";
  }
}
