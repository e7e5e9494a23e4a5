/** The bytes of a token's payload, read without checking the signature. */
module JwtPayload {
  import opened Text
  import opened Base64

  function IndexOf(s: string, c: char): (i: int)
    ensures -1 <= i < |s|
    ensures i >= 0 ==> s[i] == c && forall j :: 0 <= j < i ==> s[j] != c
    ensures i < 0 ==> c !in s
  {
    if s == "" then -1
    else if s[0] == c then 0
    else var i := IndexOf(s[1..], c); if i < 0 then -1 else i + 1
  }

  function Split(s: string, c: char): (parts: seq<string>)
    ensures parts != []
    decreases |s|
  {
    var i := IndexOf(s, c);
    if i < 0 then [s] else [s[..i]] + Split(s[i + 1..], c)
  }

  function Join(parts: seq<string>, c: char): string
    requires parts != []
  {
    if |parts| == 1 then parts[0] else parts[0] + [c] + Join(parts[1..], c)
  }

  ghost predicate Free(parts: seq<string>, c: char) {
    forall p :: p in parts ==> c !in p
  }

  lemma JoinFirst(p: string, parts: seq<string>, c: char)
    requires parts != []
    ensures Join([p] + parts, c) == p + [c] + Join(parts, c)
  {
    assert ([p] + parts)[1..] == parts;
  }

  /** Splitting loses nothing, and leaves no separator in a part. */
  lemma {:induction false} JoinUndoesSplit(s: string, c: char)
    ensures Join(Split(s, c), c) == s && Free(Split(s, c), c)
    decreases |s|
  {
    var i := IndexOf(s, c);
    if i >= 0 {
      JoinUndoesSplit(s[i + 1..], c);
      JoinFirst(s[..i], Split(s[i + 1..], c), c);
      assert s == s[..i] + [c] + s[i + 1..];
    }
  }

  lemma FirstSeparator(p: string, c: char, rest: string)
    requires c !in p
    ensures IndexOf(p + [c] + rest, c) == |p|
  {
    var s := p + [c] + rest;
    assert s[|p|] == c && forall j :: 0 <= j < |p| ==> s[j] == p[j] && p[j] in p;
  }

  lemma SplitFirst(p: string, c: char, rest: string)
    requires c !in p
    ensures Split(p + [c] + rest, c) == [p] + Split(rest, c)
  {
    var s := p + [c] + rest;
    FirstSeparator(p, c, rest);
    assert s[..|p|] == p && s[|p| + 1..] == rest;
  }

  lemma {:induction false} SplitUndoesJoin(parts: seq<string>, c: char)
    requires parts != [] && Free(parts, c)
    ensures Split(Join(parts, c), c) == parts
  {
    if |parts| == 1 {
      assert parts[0] in parts && IndexOf(parts[0], c) < 0;
    } else {
      SplitFirst(parts[0], c, Join(parts[1..], c));
      SplitUndoesJoin(parts[1..], c);
      assert parts == [parts[0]] + parts[1..];
    }
  }

  function ToStandard(c: char): char {
    if c == '-' then '+' else if c == '_' then '/' else c
  }

  function Replaced(s: string): string {
    seq(|s|, i requires 0 <= i < |s| => ToStandard(s[i]))
  }

  function Pads(n: nat): string {
    seq((4 - n % 4) % 4, _ => '=')
  }

  function DecodeSegment(segment: string): Option<Bytes> {
    var unpadded := Replaced(segment);
    DecodeSkipping(unpadded + Pads(|unpadded|))
  }

  function Read(token: Option<string>): Option<Bytes> {
    if token.None? || token.value == "" then None
    else
      var segments := Split(token.value, '.');
      if |segments| != 3 then None else DecodeSegment(segments[1])
  }

  lemma ReplacedIsStandard(d: seq<Digit>)
    ensures Replaced(Symbols(Url, d)) == Symbols(Standard, d)
  {
    forall i | 0 <= i < |d| ensures ToStandard(Symbol(Url, d[i])) == Symbol(Standard, d[i]) {}
  }

  /** The text reads as these digits, each the symbol of its own in the one alphabet or in the other. */
  ghost predicate ReadsAs(text: string, d: seq<Digit>) {
    |text| == |d| && forall i :: 0 <= i < |d| ==> text[i] == Symbol(Url, d[i]) || text[i] == Symbol(Standard, d[i])
  }

  /** Padded to whole groups by its length as it stands, and its white space left out, the segment is made of the
      symbols of these digits and no more than two signs of padding. */
  ghost predicate SegmentSpells(segment: string, d: seq<Digit>, pad: string) {
    var s := Stripped(segment) + Padding(|segment|);
    && |s| == |d| + |pad| && |s| % 4 == 0 && pad in ["", "=", "=="]
    && ReadsAs(s[..|d|], d) && s[|d|..] == pad
  }

  lemma StandardOf(c: char, d: Digit)
    ensures ToStandard(c) == Symbol(Standard, d) <==> c == Symbol(Url, d) || c == Symbol(Standard, d)
    ensures ToStandard(c) == '=' <==> c == '='
    ensures IsSkipped(ToStandard(c)) <==> IsSkipped(c)
  {}

  lemma {:induction false} ReplacedStripped(s: string)
    ensures Stripped(Replaced(s)) == Replaced(Stripped(s))
  {
    if s != "" {
      var before, last := s[..|s| - 1], s[|s| - 1];
      ReplacedStripped(before);
      StandardOf(last, 0);
      assert Replaced(s)[..|s| - 1] == Replaced(before);
    }
  }

  lemma ReplacedParts(s: string, t: string, d: seq<Digit>, pad: string)
    requires |s| == |t| && t == Replaced(s) && |s| == |d| + |pad| && pad in ["", "=", "=="]
    ensures t == Symbols(Standard, d) + pad <==> ReadsAs(s[..|d|], d) && s[|d|..] == pad
  {
    forall i | 0 <= i < |d|
      ensures t[i] == Symbol(Standard, d[i]) <==> s[i] == Symbol(Url, d[i]) || s[i] == Symbol(Standard, d[i])
    {
      StandardOf(s[i], d[i]);
    }
    forall i | |d| <= i < |s| ensures t[i] == '=' <==> s[i] == '=' { StandardOf(s[i], 0); }
    assert forall i :: 0 <= i < |pad| ==> pad[i] == '=';
    assert t == t[..|d|] + t[|d|..];
    if t == Symbols(Standard, d) + pad {
      assert forall i :: 0 <= i < |d| ==> t[i] == Symbols(Standard, d)[i];
      assert forall i :: |d| <= i < |s| ==> t[i] == pad[i - |d|];
      assert s[|d|..] == pad;
    }
    if ReadsAs(s[..|d|], d) && s[|d|..] == pad {
      assert forall i :: |d| <= i < |s| ==> s[i] == pad[i - |d|];
      assert t[..|d|] == Symbols(Standard, d) && t[|d|..] == pad;
    }
  }

  /** A segment decodes exactly when it is spelled so, in either alphabet or a mixture, and to those bytes. */
  lemma SegmentDecodesExactlyWhen(segment: string, b: Bytes)
    ensures DecodeSegment(segment) == Some(b)
            <==> exists d, pad :: SegmentSpells(segment, d, pad) && FromDigits(d) == b
  {
    var s := Stripped(segment) + Padding(|segment|);
    var t := Stripped(Replaced(segment) + Padding(|segment|));
    SegmentIs(segment);
    DecodesExactlyWhen(Standard, t, b);
    forall d, pad ensures Spells(Standard, t, d, pad) <==> SegmentSpells(segment, d, pad) {
      if |s| == |d| + |pad| && pad in ["", "=", "=="] {
        ReplacedParts(s, t, d, pad);
      }
    }
  }

  lemma PaddingIs(n: nat)
    ensures Pads(n) == Padding(n)
    ensures forall i :: 0 <= i < |Padding(n)| ==> Padding(n)[i] == '='
  {}

  lemma PaddingStays(p: string)
    requires forall i :: 0 <= i < |p| ==> p[i] == '='
    ensures Stripped(p) == p && Replaced(p) == p
  {
    assert !HasSkipped(p);
    StrippedExactlyWhen(p);
  }

  lemma ReplacedInParts(s: string, t: string)
    ensures Replaced(s + t) == Replaced(s) + Replaced(t)
  {}

  lemma SegmentIs(segment: string)
    ensures var s := Stripped(segment) + Padding(|segment|);
            && DecodeSegment(segment) == DecodePadded(Standard, Replaced(s))
            && Stripped(Replaced(segment) + Padding(|segment|)) == Replaced(s)
  {
    var pad := Padding(|segment|);
    PaddingIs(|segment|);
    PaddingStays(pad);
    StrippedInParts(Replaced(segment), pad);
    ReplacedStripped(segment);
    ReplacedInParts(Stripped(segment), pad);
  }

  lemma SegmentRoundTrips(b: Bytes)
    ensures DecodeSegment(Encode(Url, b)) == Some(b)
  {
    var n := |Encode(Url, b)|;
    ReplacedIsStandard(ToDigits(b));
    PaddingIs(n);
    RoundTrips(Standard, b);
    PaddedHasNothingSkipped(b);
    StrippedExactlyWhen(EncodePadded(Standard, b));
  }

  /** A segment one symbol longer than a whole number of quanta is no encoding of anything. */
  lemma OneSymbolOverIsRefused(segment: string)
    requires |segment| % 4 == 1
    ensures DecodeSegment(segment) == None
  {
    var u := Replaced(segment);
    StrippedKeepsThree(u);
    PaddingIs(|u|);
    var s := Stripped(u) + "===";
    assert PaddingOf(s) == 2;
    assert s[..|s| - 2][|s| - 3] == '=';
  }

  ghost predicate ThreeParts(token: string, header: string, payload: string, signature: string) {
    token == header + "." + payload + "." + signature && Free([header, payload, signature], '.')
  }

  lemma PartsJoin(header: string, payload: string, signature: string)
    ensures Join([header, payload, signature], '.') == header + "." + payload + "." + signature
  {
    JoinFirst(header, [payload, signature], '.');
    JoinFirst(payload, [signature], '.');
    assert [header] + [payload, signature] == [header, payload, signature];
    assert [payload] + [signature] == [payload, signature];
  }

  /** A token is read exactly when it is three parts between two dots, and as what the middle one decodes to;
      any other number of parts, and no token, read as nothing. */
  lemma ReadsExactlyWhen(token: Option<string>, b: Bytes)
    ensures Read(token) == Some(b)
            <==> token.Some? && exists header, payload, signature ::
                   ThreeParts(token.value, header, payload, signature) && DecodeSegment(payload) == Some(b)
  {
    if token.Some? {
      var parts := Split(token.value, '.');
      JoinUndoesSplit(token.value, '.');
      if |parts| == 3 {
        PartsJoin(parts[0], parts[1], parts[2]);
        assert parts == [parts[0], parts[1], parts[2]];
        assert ThreeParts(token.value, parts[0], parts[1], parts[2]);
      }
      forall header, payload, signature | ThreeParts(token.value, header, payload, signature)
        ensures parts == [header, payload, signature] && token.value != ""
      {
        PartsJoin(header, payload, signature);
        SplitUndoesJoin([header, payload, signature], '.');
      }
    }
  }

  /** The payload is picked out of any three parts that hold no dot. */
  lemma ReadPicksOutThePayload(header: string, payload: Bytes, signature: string)
    requires '.' !in header && '.' !in signature
    ensures Read(Some(header + "." + Encode(Url, payload) + "." + signature)) == Some(payload)
  {
    var parts := [header, Encode(Url, payload), signature];
    SymbolsRoundTrip(Url, ToDigits(payload));
    assert Join(parts[2..], '.') == signature;
    assert Join(parts[1..], '.') == Encode(Url, payload) + "." + signature by {
      assert parts[1..][1..] == parts[2..];
    }
    assert Join(parts, '.') == header + "." + Encode(Url, payload) + "." + signature;
    SplitUndoesJoin(parts, '.');
    SegmentRoundTrips(payload);
  }
}
