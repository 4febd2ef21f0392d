/**
 * Registry string encodings: NUL-terminated UTF-16LE for REG_SZ, and lists of such strings
 * closed by one more NUL for REG_MULTI_SZ. UTF-16 is that of RFC 2781.
 */
module RegistryText {
  import opened Bytes
  import opened Splitting
  import opened Utf8
  import opened Wrappers

  type Text = seq<Scalar>

  const NUL: Scalar := 0

  // ----- UTF-16

  /** One character as code units (RFC 2781, section 2.1). */
  function EncodeScalar(c: Scalar): (units: seq<uint16>)
    ensures 1 <= |units| <= 2
  {
    if c < 0x1_0000 then [c]
    else [0xD800 + (c - 0x1_0000) / 0x400, 0xDC00 + (c - 0x1_0000) % 0x400]
  }

  predicate IsHighSurrogate(u: uint16) {
    0xD800 <= u < 0xDC00
  }

  predicate IsLowSurrogate(u: uint16) {
    0xDC00 <= u < 0xE000
  }

  function EncodeUtf16(s: Text): seq<uint16> {
    if |s| == 0 then [] else EncodeScalar(s[0]) + EncodeUtf16(s[1..])
  }

  /** Rejoins surrogate pairs (RFC 2781, section 2.2); None on an unpaired surrogate. */
  function DecodeUtf16(units: seq<uint16>): Option<Text>
    decreases |units|
  {
    if |units| == 0 then Some([])
    else if IsLowSurrogate(units[0]) then None
    else if IsHighSurrogate(units[0]) then
      if |units| == 1 || !IsLowSurrogate(units[1]) then None
      else Prepended(Rejoin(units[0], units[1]), DecodeUtf16(units[2..]))
    else Prepended(units[0], DecodeUtf16(units[1..]))
  }

  function Rejoin(high: uint16, low: uint16): Scalar
    requires IsHighSurrogate(high) && IsLowSurrogate(low)
  {
    0x1_0000 + (high as int - 0xD800) * 0x400 + (low as int - 0xDC00)
  }

  function Prepended(c: Scalar, rest: Option<Text>): Option<Text> {
    match rest
    case None => None
    case Some(tail) => Some([c] + tail)
  }

  lemma RejoinInvertsSplitting(c: Scalar)
    requires c >= 0x1_0000
    ensures var units := EncodeScalar(c);
            IsHighSurrogate(units[0]) && IsLowSurrogate(units[1]) && Rejoin(units[0], units[1]) == c
  {
  }

  /** Decoding inverts encoding on every text. */
  lemma {:induction false} Utf16RoundTrip(s: Text)
    ensures DecodeUtf16(EncodeUtf16(s)) == Some(s)
  {
    if |s| > 0 {
      Utf16RoundTrip(s[1..]);
      var rest := EncodeUtf16(s[1..]);
      var units := EncodeScalar(s[0]) + rest;
      if s[0] < 0x1_0000 {
        assert units[1..] == rest;
      } else {
        RejoinInvertsSplitting(s[0]);
        assert units[2..] == rest;
      }
      assert [s[0]] + s[1..] == s;
    }
  }

  // ----- Little-endian bytes

  /** Each unit's low byte, then its high byte. */
  function LittleEndian(units: seq<uint16>): (bytes: seq<byte>)
    ensures |bytes| == 2 * |units|
  {
    seq(2 * |units|, i requires 0 <= i < 2 * |units| =>
        if i % 2 == 0 then units[i / 2] % 0x100 else units[i / 2] / 0x100)
  }

  function Units(bytes: seq<byte>): seq<uint16> {
    seq(|bytes| / 2, i requires 0 <= i < |bytes| / 2 => Le16(bytes, 2 * i))
  }

  lemma UnitsRoundTrip(units: seq<uint16>)
    ensures Units(LittleEndian(units)) == units
  {
    var bytes := LittleEndian(units);
    forall i | 0 <= i < |units| ensures Le16(bytes, 2 * i) == units[i] {
      assert bytes[2 * i] == units[i] % 0x100 && bytes[2 * i + 1] == units[i] / 0x100;
    }
  }

  /** Fills a buffer with the units, two bytes each. */
  method PutUnits(units: seq<uint16>) returns (bytes: seq<byte>)
    ensures bytes == LittleEndian(units)
  {
    var out := new byte[2 * |units|];
    var i := 0;
    while i < |units|
      invariant 0 <= i <= |units|
      invariant forall k :: 0 <= k < 2 * i ==> out[k] == LittleEndian(units)[k]
    {
      out[2 * i] := units[i] % 0x100;
      out[2 * i + 1] := units[i] / 0x100;
      i := i + 1;
    }
    bytes := out[..];
  }

  // ----- REG_SZ

  function Sz(s: Text): seq<byte> {
    LittleEndian(EncodeUtf16(s + [NUL]))
  }

  method EncodeUtf16LE(s: Text) returns (out: seq<byte>)
    ensures out == Sz(s)
  {
    out := PutUnits(EncodeUtf16(s + [NUL]));
  }

  /** What a registry reader makes of REG_SZ data: the text before the first NUL. */
  function ReadSz(bytes: seq<byte>): Option<Text> {
    match DecodeUtf16(Units(bytes))
    case None => None
    case Some(text) => Some(Split(text, NUL)[0])
  }

  lemma DecodedBytes(text: Text)
    ensures DecodeUtf16(Units(LittleEndian(EncodeUtf16(text)))) == Some(text)
  {
    UnitsRoundTrip(EncodeUtf16(text));
    Utf16RoundTrip(text);
  }

  /** A string reads back exactly when it contains no NUL. */
  lemma SzRoundTripIff(s: Text)
    ensures ReadSz(Sz(s)) == Some(s) <==> NUL !in s
  {
    DecodedBytes(s + [NUL]);
    var parts := Split(s + [NUL], NUL);
    SplitThenJoin(s + [NUL], NUL);
    if NUL !in s {
      SplitFirst(s, [], NUL);
      assert s + [NUL] == s + ([NUL] + []);
    } else {
      assert NUL !in parts[0];
    }
  }

  /** U+10437 is the pair 0xD801, 0xDC37. */
  lemma SurrogatesOfDeseret()
    ensures EncodeUtf16([0x1_0437]) == [0xD801, 0xDC37]
  {
    assert EncodeUtf16([0x1_0437]) == EncodeScalar(0x1_0437) + [];
  }

  /** "A" is 0x41 0x00 and a NUL. */
  lemma BytesOfLetter()
    ensures Sz([0x41]) == [0x41, 0, 0, 0]
  {
    var text: Text := [0x41] + [NUL];
    assert text[1..] == [NUL] && [NUL][1..] == [];
    assert EncodeUtf16([NUL]) == [0] + [];
    assert EncodeUtf16(text) == [0x41] + [0];
  }

  // ----- REG_MULTI_SZ

  function Joined(ss: seq<Text>): Text {
    if |ss| == 0 then [] else Join(ss, NUL)
  }

  function MultiSz(ss: seq<Text>): seq<byte> {
    LittleEndian(EncodeUtf16(Joined(ss) + [NUL] + [NUL]))
  }

  method EncodeMultiSz(ss: seq<Text>) returns (out: seq<byte>)
    ensures out == MultiSz(ss)
  {
    var joined := Joined(ss) + [NUL];
    out := PutUnits(EncodeUtf16(joined + [NUL]));
  }

  /** The leading parts up to the first empty one. */
  function UntilEmpty(parts: seq<Text>): (ss: seq<Text>)
    ensures ss <= parts && forall i :: 0 <= i < |ss| ==> ss[i] != []
  {
    if |parts| == 0 || parts[0] == [] then [] else [parts[0]] + UntilEmpty(parts[1..])
  }

  /** What a registry reader makes of REG_MULTI_SZ data: strings up to an empty one. */
  function ReadMultiSz(bytes: seq<byte>): Option<seq<Text>> {
    match DecodeUtf16(Units(bytes))
    case None => None
    case Some(text) => Some(UntilEmpty(Split(text, NUL)))
  }

  ghost predicate Listable(ss: seq<Text>) {
    forall i :: 0 <= i < |ss| ==> ss[i] != [] && NUL !in ss[i]
  }

  lemma {:induction false} UntilEmptyStops(ss: seq<Text>, rest: seq<Text>)
    requires Listable(ss) && |rest| > 0 && rest[0] == []
    ensures UntilEmpty(ss + rest) == ss
  {
    if |ss| == 0 {
      assert ss + rest == rest;
    } else {
      assert (ss + rest)[1..] == ss[1..] + rest;
      UntilEmptyStops(ss[1..], rest);
      assert [ss[0]] + ss[1..] == ss;
    }
  }

  lemma {:induction false} SplitOfTerminated(ss: seq<Text>)
    requires Listable(ss)
    ensures var parts := Split(Joined(ss) + [NUL] + [NUL], NUL);
            exists rest :: |rest| > 0 && rest[0] == [] && parts == ss + rest
  {
    var text := Joined(ss) + [NUL] + [NUL];
    if |ss| == 0 {
      SplitFirst([], [NUL], NUL);
      assert text == [] + ([NUL] + [NUL]);
      assert Split(text, NUL) == ss + Split(text, NUL);
    } else {
      var whole := ss + [[], []];
      JoinOfTerminated(ss);
      assert SeparatorFree(whole, NUL);
      JoinThenSplit(whole, NUL);
    }
  }

  lemma {:induction false} JoinOfTerminated(ss: seq<Text>)
    requires |ss| > 0
    ensures Join(ss + [[], []], NUL) == Join(ss, NUL) + [NUL] + [NUL]
  {
    var ends: seq<Text> := [[], []];
    var whole := ss + ends;
    if |ss| == 1 {
      assert whole[1..] == ends;
      assert Join(ends, NUL) == [NUL] by {
        assert ends[1..] == [[]];
      }
      assert Join(whole, NUL) == ss[0] + [NUL] + [NUL];
    } else {
      assert whole[1..] == ss[1..] + ends;
      JoinOfTerminated(ss[1..]);
    }
  }

  lemma ReadStringsAreListable(parts: seq<Text>)
    requires SeparatorFree(parts, NUL)
    ensures Listable(UntilEmpty(parts))
  {
    var ss := UntilEmpty(parts);
    assert forall i :: 0 <= i < |ss| ==> ss[i] == parts[i];
  }

  /** A list reads back exactly when all its strings are non-empty and contain no NUL, so
      the encoding is injective on such lists. */
  lemma MultiSzRoundTripIff(ss: seq<Text>)
    ensures ReadMultiSz(MultiSz(ss)) == Some(ss) <==> Listable(ss)
  {
    var text := Joined(ss) + [NUL] + [NUL];
    var parts := Split(text, NUL);
    DecodedBytes(text);
    SplitThenJoin(text, NUL);
    if Listable(ss) {
      SplitOfTerminated(ss);
      var rest :| |rest| > 0 && rest[0] == [] && parts == ss + rest;
      UntilEmptyStops(ss, rest);
    } else {
      ReadStringsAreListable(parts);
    }
  }

  lemma MultiSzIsInjective(a: seq<Text>, b: seq<Text>)
    requires Listable(a) && Listable(b) && MultiSz(a) == MultiSz(b)
    ensures a == b
  {
    MultiSzRoundTripIff(a);
    MultiSzRoundTripIff(b);
  }

  /** Off such lists it is not: no strings and one empty string encode alike. */
  lemma EmptyStringEncodesLikeNone()
    ensures MultiSz([[]]) == MultiSz([])
  {
    assert Joined([[]]) == [];
  }

  /** ["A"] is 0x41 0x00 and two NULs. */
  lemma BytesOfOneString()
    ensures MultiSz([[0x41]]) == [0x41, 0, 0, 0, 0, 0]
  {
    var text: Text := [0x41] + [NUL] + [NUL];
    assert Joined([[0x41]]) == [0x41];
    var rest: Text := [NUL] + [NUL];
    assert text[1..] == rest && rest[1..] == [NUL] && [NUL][1..] == [];
    assert EncodeUtf16([NUL]) == [0] + [];
    assert EncodeUtf16(rest) == [0] + [0];
    assert EncodeUtf16(text) == [0x41] + ([0] + [0]);
  }
}
