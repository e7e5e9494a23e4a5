/** The picture in a `data:` address. */
module Screenshots {
  import opened Text
  import opened Base64

  const PICTURE_TYPES := ["image/png", "image/jpeg", "image/webp"]
  const DATA_PREFIX := "data:"
  const BASE64_MARKER := ";base64,"

  datatype Screenshot = Screenshot(bytes: Bytes, mediaType: string)

  predicate OccursAt(s: string, what: string, i: int) {
    0 <= i <= |s| - |what| && s[i..i + |what|] == what
  }

  /** Where `what` first occurs, or a negative number. */
  function IndexOfText(s: string, what: string): (i: int)
    ensures i >= 0 ==> OccursAt(s, what, i)
    ensures forall j :: OccursAt(s, what, j) ==> 0 <= i <= j
  {
    if what <= s then 0
    else if s == "" then -1
    else
      var i := IndexOfText(s[1..], what);
      assert forall j :: OccursAt(s, what, j) ==> j > 0 && OccursAt(s[1..], what, j - 1) by {
        forall j | OccursAt(s, what, j) ensures j > 0 && OccursAt(s[1..], what, j - 1) {
          assert j > 0 ==> s[1..][j - 1..j - 1 + |what|] == s[j..j + |what|];
        }
      }
      assert i >= 0 ==> s[1..][i..i + |what|] == s[i + 1..i + 1 + |what|];
      if i < 0 then -1 else i + 1
  }

  function DataAddress(mediaType: string, data: string): string {
    DATA_PREFIX + mediaType + BASE64_MARKER + data
  }

  /** Decodes into a buffer that has room, says how much of it was written, and leaves the rest. */
  method TryFromBase64Chars(data: string, bytes: array<Byte>) returns (ok: bool, written: nat)
    modifies bytes
    ensures var decoded := DecodeSkipping(data);
            if decoded.Some? && |decoded.value| <= bytes.Length
            then ok && written == |decoded.value| && bytes[..] == decoded.value + old(bytes[written..])
            else !ok
  {
    var decoded := DecodeSkipping(data);
    if decoded.None? || |decoded.value| > bytes.Length { return false, 0; }
    written := 0;
    while written < |decoded.value|
      invariant 0 <= written <= |decoded.value|
      invariant forall i :: 0 <= i < written ==> bytes[i] == decoded.value[i]
      invariant forall i :: written <= i < bytes.Length ==> bytes[i] == old(bytes[i])
    {
      bytes[written] := decoded.value[written];
      written := written + 1;
    }
    ok := true;
  }

  lemma TypesHoldNoSemicolon(mediaType: string)
    requires mediaType in PICTURE_TYPES
    ensures ';' !in mediaType
  {}

  lemma MarkerEndsTheType(mediaType: string, data: string)
    requires ';' !in mediaType
    ensures IndexOfText(DataAddress(mediaType, data), BASE64_MARKER) == |DATA_PREFIX| + |mediaType|
  {
    var s, at := DataAddress(mediaType, data), |DATA_PREFIX| + |mediaType|;
    assert s[at..at + |BASE64_MARKER|] == BASE64_MARKER;
    assert OccursAt(s, BASE64_MARKER, at);
    forall j | OccursAt(s, BASE64_MARKER, j) ensures j >= at {
      assert s[j..j + |BASE64_MARKER|][0] == ';';
      assert s[j] == ';' && ';' !in DATA_PREFIX + mediaType && s[..at] == DATA_PREFIX + mediaType;
    }
  }

  /** The type and the text of a picture, where the address has the form of one. */
  ghost predicate Pictures(address: string, mediaType: string, data: string) {
    mediaType in PICTURE_TYPES && address == DataAddress(mediaType, data)
  }

  /** The address is cut at the marker into this type and this text. */
  ghost predicate Parts(address: string, marker: int, mediaType: string, data: string) {
    && StartsWith(address, DATA_PREFIX) && |DATA_PREFIX| <= marker <= |address| - |BASE64_MARKER|
    && mediaType == address[|DATA_PREFIX|..marker] && data == address[marker + |BASE64_MARKER|..]
  }

  lemma PartsOfAPicture(address: string, mediaType: string, data: string)
    requires Pictures(address, mediaType, data)
    ensures Parts(address, IndexOfText(address, BASE64_MARKER), mediaType, data)
  {
    TypesHoldNoSemicolon(mediaType);
    MarkerEndsTheType(mediaType, data);
  }

  function Zeros(n: nat): Bytes {
    seq(n, _ => 0)
  }

  /** How long a buffer is made for the text. */
  function RoomFor(data: string): nat
    requires |data| > 0 && |data| % 4 == 0
  {
    |data| / 4 * 3 - PaddingOf(data)
  }

  /** What is read of a text: the bytes it encodes, and as many zeros after them as its white space makes the
      buffer too long. */
  function BytesOf(data: string): Option<Bytes> {
    var decoded := DecodeSkipping(data);
    if data == "" || |data| % 4 != 0 || decoded.None? || |decoded.value| > RoomFor(data) then None
    else Some(decoded.value + Zeros(RoomFor(data) - |decoded.value|))
  }

  /** The buffer always has room; and it is exactly as long as what is decoded into it when the text holds no
      white space, and only then. */
  lemma RoomIsExactExactlyWhen(data: string)
    requires |data| > 0 && |data| % 4 == 0 && DecodeSkipping(data).Some?
    ensures |DecodeSkipping(data).value| <= RoomFor(data)
    ensures |DecodeSkipping(data).value| == RoomFor(data) <==> !HasSkipped(data)
    ensures BytesOf(data) == DecodeSkipping(data) <==> !HasSkipped(data)
    ensures BytesOf(data).Some? && |BytesOf(data).value| == RoomFor(data)
    ensures forall i :: 0 <= i < RoomFor(data) ==>
              BytesOf(data).value[i] == if i < |DecodeSkipping(data).value| then DecodeSkipping(data).value[i] else 0
  {
    StrippedExactlyWhen(data);
    DecodedLength(Standard, Stripped(data));
    assert |data| / 4 * 4 == |data| && |Stripped(data)| / 4 * 4 == |Stripped(data)|;
    assert BytesOf(data).Some? && |BytesOf(data).value| == RoomFor(data);
    if |DecodeSkipping(data).value| == RoomFor(data) {
      assert BytesOf(data).value == DecodeSkipping(data).value;
    }
  }

  /** An address has at most one type and text, and is read as the bytes its text encodes, and zeros for its
      white space; and nothing is read of any other address. */
  method PictureIn(dataAddress: string) returns (picture: Option<Screenshot>)
    ensures forall mediaType, data :: Pictures(dataAddress, mediaType, data) ==>
              picture == if BytesOf(data).Some? then Some(Screenshot(BytesOf(data).value, mediaType)) else None
    ensures picture.Some? ==> exists data :: Pictures(dataAddress, picture.value.mediaType, data)
  {
    var marker := IndexOfText(dataAddress, BASE64_MARKER);
    forall mediaType, data | Pictures(dataAddress, mediaType, data)
        ensures Parts(dataAddress, marker, mediaType, data) {
      PartsOfAPicture(dataAddress, mediaType, data);
    }
    if !StartsWith(dataAddress, DATA_PREFIX) || marker < 0 { return None; }
    MarkerFollowsPrefix(dataAddress, marker);
    var mediaType := dataAddress[|DATA_PREFIX|..marker];
    var data := dataAddress[marker + |BASE64_MARKER|..];
    assert dataAddress == DataAddress(mediaType, data);
    if mediaType !in PICTURE_TYPES || |data| == 0 || |data| % 4 != 0 { return None; }

    var bytes := DecodedInPlace(data);
    picture := if bytes.None? then None else Some(Screenshot(bytes.value, mediaType));
    assert Pictures(dataAddress, mediaType, data);
  }

  /** The buffer is filled in place; what is left of it is zero. */
  method DecodedInPlace(data: string) returns (decoded: Option<Bytes>)
    requires |data| > 0 && |data| % 4 == 0
    ensures decoded == BytesOf(data) && (decoded.Some? <==> DecodeSkipping(data).Some?)
    ensures decoded.Some? ==>
              && |decoded.value| == |data| / 4 * 3 - (if data[|data| - 2..] == "==" then 2
                                                      else if data[|data| - 1] == '=' then 1 else 0)
              && DecodeSkipping(data).value <= decoded.value
              && forall i :: |DecodeSkipping(data).value| <= i < |decoded.value| ==> decoded.value[i] == 0
  {
    var padding := if EndsWith(data, "==") then 2 else if EndsWith(data, "=") then 1 else 0;
    PaddingAtTheEnd(data);
    var bytes := new Byte[|data| / 4 * 3 - padding](_ => 0);
    assert bytes[..] == Zeros(RoomFor(data));
    if DecodeSkipping(data).Some? {
      RoomIsExactExactlyWhen(data);
    }
    var ok, written := TryFromBase64Chars(data, bytes);
    assert ok ==> Zeros(RoomFor(data))[written..] == Zeros(RoomFor(data) - written);
    decoded := if ok then Some(bytes[..]) else None;
  }

  lemma PaddingAtTheEnd(data: string)
    requires |data| >= 2
    ensures PaddingOf(data) == if EndsWith(data, "==") then 2 else if EndsWith(data, "=") then 1 else 0
  {
    assert data[|data| - 2..] == [data[|data| - 2], data[|data| - 1]];
    assert data[|data| - 1..] == [data[|data| - 1]];
  }

  predicate EndsWith(s: string, suffix: string) {
    |s| >= |suffix| && s[|s| - |suffix|..] == suffix
  }

  lemma MarkerFollowsPrefix(s: string, marker: int)
    requires StartsWith(s, DATA_PREFIX) && OccursAt(s, BASE64_MARKER, marker)
    ensures marker >= |DATA_PREFIX|
  {
    assert s[marker..marker + |BASE64_MARKER|][0] == ';';
    assert s[marker] == ';' && ';' !in DATA_PREFIX && s[..|DATA_PREFIX|] == DATA_PREFIX;
  }

  /** So every picture that is encoded into an address comes back out of it. */
  lemma PictureRoundTrips(picture: Screenshot)
    requires picture.mediaType in PICTURE_TYPES && picture.bytes != []
    ensures var data := EncodePadded(Standard, picture.bytes);
            BytesOf(data) == Some(picture.bytes)
            && Pictures(DataAddress(picture.mediaType, data), picture.mediaType, data)
  {
    var data := EncodePadded(Standard, picture.bytes);
    RoundTrips(Standard, picture.bytes);
    PaddedHasNothingSkipped(picture.bytes);
    StrippedExactlyWhen(data);
    RoomIsExactExactlyWhen(data);
  }
}
