/** Base 64 as RFC 4648 gives it, sections 4 and 5, over both alphabets and with and without padding.  Decoding
    drops the bits left over in the last symbol without looking at them; white space is taken only by the
    runtime's decoder of the standard alphabet, which passes over it. */
module Base64 {
  import opened Text

  type Byte = b: int | 0 <= b < 256
  type Bytes = seq<Byte>
  type Digit = d: int | 0 <= d < 64

  // ---- bytes and digits: three bytes are the same bits as four digits ----

  function Digit0(x: Byte): Digit { x / 4 }

  function Digit1(x: Byte, y: Byte): Digit { x % 4 * 16 + y / 16 }

  function Digit2(y: Byte, z: Byte): Digit { y % 16 * 4 + z / 64 }

  function Digit3(z: Byte): Digit { z % 64 }

  function Byte0(p: Digit, q: Digit): Byte { p * 4 + q / 16 }

  function Byte1(q: Digit, r: Digit): Byte { q % 16 * 16 + r / 4 }

  function Byte2(r: Digit, t: Digit): Byte { r % 4 * 64 + t }

  lemma SameFirst(x: Byte, y: Byte)
    ensures Byte0(Digit0(x), Digit1(x, y)) == x
  {}

  lemma SameSecond(x: Byte, y: Byte, z: Byte)
    ensures Byte1(Digit1(x, y), Digit2(y, z)) == y
  {
    var high, low := y / 16, y % 16;
    assert (x % 4 * 16 + high) % 16 == high;
    assert (low * 4 + z / 64) / 4 == low;
  }

  lemma SameThird(y: Byte, z: Byte)
    ensures Byte2(Digit2(y, z), Digit3(z)) == z
  {}

  function ToDigits(b: Bytes): seq<Digit> {
    if |b| == 0 then []
    else if |b| == 1 then [Digit0(b[0]), Digit1(b[0], 0)]
    else if |b| == 2 then [Digit0(b[0]), Digit1(b[0], b[1]), Digit2(b[1], 0)]
    else [Digit0(b[0]), Digit1(b[0], b[1]), Digit2(b[1], b[2]), Digit3(b[2])] + ToDigits(b[3..])
  }

  function FromDigits(d: seq<Digit>): Bytes {
    if |d| < 2 then []
    else if |d| == 2 then [Byte0(d[0], d[1])]
    else if |d| == 3 then [Byte0(d[0], d[1]), Byte1(d[1], d[2])]
    else [Byte0(d[0], d[1]), Byte1(d[1], d[2]), Byte2(d[2], d[3])] + FromDigits(d[4..])
  }

  lemma OneMoreTriple(b: Bytes)
    requires |b| > 2
    ensures FromDigits(ToDigits(b)) == [b[0], b[1], b[2]] + FromDigits(ToDigits(b[3..]))
  {
    SameFirst(b[0], b[1]);
    SameSecond(b[0], b[1], b[2]);
    SameThird(b[1], b[2]);
    assert ToDigits(b)[4..] == ToDigits(b[3..]);
  }

  lemma TwoDigits(p: Digit, q: Digit)
    ensures FromDigits([p, q]) == [Byte0(p, q)]
  {}

  lemma ThreeDigits(p: Digit, q: Digit, r: Digit)
    ensures FromDigits([p, q, r]) == [Byte0(p, q), Byte1(q, r)]
  {}

  lemma OneByte(b: Bytes)
    requires |b| == 1
    ensures FromDigits(ToDigits(b)) == b
  {
    TwoDigits(Digit0(b[0]), Digit1(b[0], 0));
    SameFirst(b[0], 0);
  }

  lemma TwoBytes(b: Bytes)
    requires |b| == 2
    ensures FromDigits(ToDigits(b)) == b
  {
    ThreeDigits(Digit0(b[0]), Digit1(b[0], b[1]), Digit2(b[1], 0));
    SameFirst(b[0], b[1]);
    SameSecond(b[0], b[1], 0);
  }

  lemma {:induction false} DigitsRoundTrip(b: Bytes)
    ensures FromDigits(ToDigits(b)) == b
  {
    if |b| == 1 {
      OneByte(b);
    } else if |b| == 2 {
      TwoBytes(b);
    } else if |b| > 2 {
      OneMoreTriple(b);
      DigitsRoundTrip(b[3..]);
      assert b == [b[0], b[1], b[2]] + b[3..];
    }
  }

  /** One digit is never left over. */
  lemma {:induction false} HowManyDigits(b: Bytes)
    ensures |ToDigits(b)| % 4 == if |b| % 3 == 0 then 0 else |b| % 3 + 1
  {
    if |b| > 2 {
      HowManyDigits(b[3..]);
      OneGroupMore(|b[3..]|, |ToDigits(b[3..])|);
    }
  }

  lemma OneGroupMore(bytes: nat, digits: nat)
    ensures (bytes + 3) % 3 == bytes % 3 && (digits + 4) % 4 == digits % 4
  {}

  lemma {:induction false} HowManyBytes(d: seq<Digit>)
    ensures |FromDigits(d)| == |d| / 4 * 3 + (if |d| % 4 == 0 then 0 else |d| % 4 - 1)
  {
    if |d| >= 4 {
      HowManyBytes(d[4..]);
    }
  }

  // ---- the same bits ----

  function InBase(digits: seq<nat>, base: nat): nat {
    if digits == [] then 0 else InBase(digits[..|digits| - 1], base) * base + digits[|digits| - 1]
  }

  lemma OfTwo(x: nat, y: nat, base: nat)
    ensures InBase([x, y], base) == x * base + y
  {
    assert [x, y][..1] == [x];
    assert InBase([x], base) == InBase([], base) * base + x;
  }

  lemma OfThree(x: nat, y: nat, z: nat, base: nat)
    ensures InBase([x, y, z], base) == (x * base + y) * base + z
  {
    OfTwo(x, y, base);
    assert [x, y, z][..2] == [x, y];
  }

  lemma OfFour(w: nat, x: nat, y: nat, z: nat, base: nat)
    ensures InBase([w, x, y, z], base) == ((w * base + x) * base + y) * base + z
  {
    OfThree(w, x, y, base);
    assert [w, x, y, z][..3] == [w, x, y];
  }

  /** The `i`th three bytes are one number with the `i`th four digits, and what is left over is followed by zero
      bits up to a whole digit. */
  ghost predicate SameBitsAt(b: Bytes, d: seq<Digit>, i: nat)
    requires 3 * i < |b|
  {
    if 3 * i + 3 <= |b| then 4 * i + 4 <= |d| && InBase(d[4 * i..4 * i + 4], 64) == InBase(b[3 * i..3 * i + 3], 256)
    else if 3 * i + 2 == |b| then 4 * i + 3 == |d| && InBase(d[4 * i..], 64) == InBase(b[3 * i..], 256) * 4
    else 4 * i + 2 == |d| && InBase(d[4 * i..], 64) == InBase(b[3 * i..], 256) * 16
  }

  lemma FirstBits(b: Bytes)
    requires b != []
    ensures SameBitsAt(b, ToDigits(b), 0)
  {
    var d := ToDigits(b);
    if |b| == 1 {
      OfTwo(d[0], d[1], 64);
      assert b == [b[0]] && b[..0] == [] && d == [d[0], d[1]];
    } else if |b| == 2 {
      OfThree(d[0], d[1], d[2], 64);
      OfTwo(b[0], b[1], 256);
      assert b == [b[0], b[1]] && d == [d[0], d[1], d[2]];
    } else {
      OfFour(d[0], d[1], d[2], d[3], 64);
      OfThree(b[0], b[1], b[2], 256);
      assert b[..3] == [b[0], b[1], b[2]] && d[..4] == [d[0], d[1], d[2], d[3]];
    }
  }

  lemma {:induction false} DigitsAreTheSameBits(b: Bytes, i: nat)
    requires 3 * i < |b|
    ensures SameBitsAt(b, ToDigits(b), i)
  {
    if i == 0 {
      FirstBits(b);
    } else {
      DigitsAreTheSameBits(b[3..], i - 1);
      var d, rest := ToDigits(b), ToDigits(b[3..]);
      assert d[4..] == rest;
      var m, n := 3 * (i - 1), 4 * (i - 1);
      assert b[3..][m..] == b[3 * i..] && d[4..][n..] == d[4 * i..];
      if 3 * i + 3 <= |b| {
        assert b[3..][m..m + 3] == b[3 * i..3 * i + 3] && d[4..][n..n + 4] == d[4 * i..4 * i + 4];
      }
    }
  }

  // ---- digits and symbols ----

  datatype Alphabet = Standard | Url

  function Symbol(a: Alphabet, d: Digit): char {
    if d < 26 then 'A' + d as char
    else if d < 52 then 'a' + (d - 26) as char
    else if d < 62 then '0' + (d - 52) as char
    else if d == 62 then (if a.Url? then '-' else '+')
    else (if a.Url? then '_' else '/')
  }

  function ValueOf(a: Alphabet, c: char): Option<Digit> {
    if 'A' <= c <= 'Z' then Some((c - 'A') as int)
    else if 'a' <= c <= 'z' then Some((c - 'a') as int + 26)
    else if '0' <= c <= '9' then Some((c - '0') as int + 52)
    else if c == (if a.Url? then '-' else '+') then Some(62)
    else if c == (if a.Url? then '_' else '/') then Some(63)
    else None
  }

  /** So many characters from this one on. */
  function Span(first: char, n: nat): (s: string)
    requires first as int + n < 0xD800
    ensures |s| == n
  {
    seq(n, i requires 0 <= i < n => first + i as char)
  }

  /** The alphabets, in order. */
  function Table(a: Alphabet): (t: string)
    ensures |t| == 64
  {
    Span('A', 26) + Span('a', 26) + Span('0', 10) + if a.Url? then "-_" else "+/"
  }

  lemma SymbolIs(a: Alphabet, d: Digit)
    ensures Symbol(a, d) == Table(a)[d]
  {}

  /** A character is read as a digit exactly when it is that digit's in the table, and any other as none. */
  lemma ValueIs(a: Alphabet, c: char)
    ensures forall d: Digit :: ValueOf(a, c) == Some(d) <==> Table(a)[d] == c
    ensures ValueOf(a, c).None? <==> c !in Table(a)
  {
    forall d: Digit ensures ValueOf(a, c) == Some(d) <==> Table(a)[d] == c { SymbolIs(a, d); }
    if ValueOf(a, c).Some? {
      assert Table(a)[ValueOf(a, c).value] == c;
    }
  }

  lemma SymbolRoundTrips(a: Alphabet, d: Digit)
    ensures ValueOf(a, Symbol(a, d)) == Some(d)
    ensures Symbol(a, d) != '=' && Symbol(a, d) != '.' && !IsSpace(Symbol(a, d))
  {}

  function Symbols(a: Alphabet, d: seq<Digit>): string {
    seq(|d|, i requires 0 <= i < |d| => Symbol(a, d[i]))
  }

  predicate AllSymbols(a: Alphabet, s: string) {
    forall i :: 0 <= i < |s| ==> ValueOf(a, s[i]).Some?
  }

  function Digits(a: Alphabet, s: string): seq<Digit>
    requires AllSymbols(a, s)
  {
    seq(|s|, i requires 0 <= i < |s| => ValueOf(a, s[i]).value)
  }

  lemma SymbolsRoundTrip(a: Alphabet, d: seq<Digit>)
    ensures AllSymbols(a, Symbols(a, d)) && Digits(a, Symbols(a, d)) == d
    ensures forall c :: c in Symbols(a, d) ==> c != '=' && c != '.' && !IsSpace(c)
  {
    forall i | 0 <= i < |d| ensures ValueOf(a, Symbols(a, d)[i]) == Some(d[i]) {
      SymbolRoundTrips(a, d[i]);
    }
    forall c | c in Symbols(a, d) ensures c != '=' && c != '.' && !IsSpace(c) {
      var i :| 0 <= i < |d| && c == Symbol(a, d[i]);
      SymbolRoundTrips(a, d[i]);
    }
  }

  // ---- texts ----

  /** The padding that makes a text of `n` symbols whole. */
  function Padding(n: nat): (p: string)
    ensures |p| == (4 - n % 4) % 4
  {
    match n % 4 case 0 => "" case 1 => "===" case 2 => "==" case _ => "="
  }

  function Encode(a: Alphabet, b: Bytes): string {
    Symbols(a, ToDigits(b))
  }

  function EncodePadded(a: Alphabet, b: Bytes): string {
    Encode(a, b) + Padding(|Encode(a, b)|)
  }

  /** How many of the last symbols are padding. */
  function PaddingOf(s: string): nat {
    if |s| >= 2 && s[|s| - 2] == '=' && s[|s| - 1] == '=' then 2
    else if |s| >= 1 && s[|s| - 1] == '=' then 1
    else 0
  }

  function DecodePadded(a: Alphabet, s: string): Option<Bytes> {
    var core := s[..|s| - PaddingOf(s)];
    if |s| % 4 == 0 && AllSymbols(a, core) then Some(FromDigits(Digits(a, core))) else None
  }

  /** Padding is supplied to whatever length is missing it. */
  function Decode(a: Alphabet, s: string): Option<Bytes> {
    DecodePadded(a, s + Padding(|s|))
  }

  lemma PaddedIsWhole(e: string)
    requires |e| % 4 != 1 && forall c :: c in e ==> c != '='
    ensures |e + Padding(|e|)| % 4 == 0
    ensures PaddingOf(e + Padding(|e|)) == |Padding(|e|)|
    ensures (e + Padding(|e|))[..|e|] == e
  {
    var s := e + Padding(|e|);
    assert e != "" ==> e[|e| - 1] in e && s[|e| - 1] == e[|e| - 1];
    assert |s| % 4 == 0 by {
      match |e| % 4 case 0 => case 2 => case _ =>
    }
  }

  /** Every byte sequence comes back from its encoding, padded or not. */
  lemma RoundTrips(a: Alphabet, b: Bytes)
    ensures DecodePadded(a, EncodePadded(a, b)) == Some(b) && Decode(a, Encode(a, b)) == Some(b)
    ensures |EncodePadded(a, b)| % 4 == 0
  {
    HowManyDigits(b);
    DigitsRoundTrip(b);
    SymbolsRoundTrip(a, ToDigits(b));
    PaddedIsWhole(Encode(a, b));
  }

  /** A whole text, made of the symbols of these digits and no more than two signs of padding. */
  ghost predicate Spells(a: Alphabet, s: string, d: seq<Digit>, pad: string) {
    s == Symbols(a, d) + pad && |s| % 4 == 0 && pad in ["", "=", "=="]
  }

  lemma SpelledCore(a: Alphabet, s: string, d: seq<Digit>, pad: string)
    requires Spells(a, s, d, pad)
    ensures PaddingOf(s) == |pad| && s[..|s| - PaddingOf(s)] == Symbols(a, d)
  {
    SymbolsRoundTrip(a, d);
    var e := Symbols(a, d);
    assert e != "" ==> e[|e| - 1] in e && s[|e| - 1] == e[|e| - 1];
    assert |pad| >= 1 ==> s[|s| - 1] == pad[|pad| - 1];
    assert |pad| >= 2 ==> s[|s| - 2] == pad[|pad| - 2];
  }

  /** A text decodes exactly when it is spelled so, and to the bytes of those digits. */
  lemma DecodesExactlyWhen(a: Alphabet, s: string, b: Bytes)
    ensures DecodePadded(a, s) == Some(b) <==> exists d, pad :: Spells(a, s, d, pad) && FromDigits(d) == b
  {
    if DecodePadded(a, s).Some? {
      var core := s[..|s| - PaddingOf(s)];
      var d, pad := Digits(a, core), s[|core|..];
      assert |pad| == 2 ==> pad == [s[|s| - 2], s[|s| - 1]];
      assert |pad| == 1 ==> pad == [s[|s| - 1]];
      forall i | 0 <= i < |core| ensures Symbols(a, d)[i] == core[i] {
        ValueIs(a, core[i]);
        SymbolIs(a, d[i]);
      }
      assert Symbols(a, d) == core;
      assert Spells(a, s, d, pad);
    }
    forall d, pad | Spells(a, s, d, pad) ensures DecodePadded(a, s) == Some(FromDigits(d)) {
      SpelledCore(a, s, d, pad);
      SymbolsRoundTrip(a, d);
    }
  }

  /** The length is known before anything is decoded. */
  lemma DecodedLength(a: Alphabet, s: string)
    requires DecodePadded(a, s).Some?
    ensures |s| % 4 == 0 && |DecodePadded(a, s).value| == |s| / 4 * 3 - PaddingOf(s)
  {
    var core := s[..|s| - PaddingOf(s)];
    HowManyBytes(Digits(a, core));
  }

  // ---- white space ----

  /** What the runtime's decoder of the standard alphabet passes over. */
  predicate IsSkipped(c: char) {
    c == ' ' || c == '\t' || c == '\n' || c == '\r'
  }

  function Stripped(s: string): (r: string)
    ensures |r| <= |s|
  {
    if s == "" then ""
    else
      var before := Stripped(s[..|s| - 1]);
      if IsSkipped(s[|s| - 1]) then before else before + [s[|s| - 1]]
  }

  predicate HasSkipped(s: string) {
    exists i :: 0 <= i < |s| && IsSkipped(s[i])
  }

  lemma {:induction false} StrippedExactlyWhen(s: string)
    ensures HasSkipped(s) <==> |Stripped(s)| < |s|
    ensures !HasSkipped(s) ==> Stripped(s) == s
  {
    if s != "" {
      var n := |s| - 1;
      StrippedExactlyWhen(s[..n]);
      assert IsSkipped(s[n]) ==> HasSkipped(s);
      if i :| 0 <= i < n && IsSkipped(s[..n][i]) {
        assert IsSkipped(s[i]);
      }
      if i :| 0 <= i < |s| && IsSkipped(s[i]) && i < n {
        assert IsSkipped(s[..n][i]);
      }
    }
  }

  /** Stripping leaves out these four characters, wherever they are, and nothing else. */
  lemma StrippedIs(s: string, c: char)
    ensures Stripped("") == "" && Stripped(s + [c]) == Stripped(s) + if c in [' ', '\t', '\n', '\r'] then "" else [c]
  {
    assert (s + [c])[..|s|] == s;
  }

  lemma {:induction false} StrippedInParts(s: string, t: string)
    ensures Stripped(s + t) == Stripped(s) + Stripped(t)
  {
    if t == "" {
      assert s + t == s;
    } else {
      var before, last := t[..|t| - 1], t[|t| - 1];
      StrippedInParts(s, before);
      StrippedIs(s + before, last);
      StrippedIs(before, last);
      assert s + t == s + before + [last] && t == before + [last];
    }
  }

  lemma StrippedKeepsThree(s: string)
    ensures Stripped(s + "===") == Stripped(s) + "==="
  {
    StrippedInParts(s, "===");
    StrippedExactlyWhen("===");
  }

  function DecodeSkipping(s: string): Option<Bytes> {
    DecodePadded(Standard, Stripped(s))
  }

  lemma PaddedHasNothingSkipped(b: Bytes)
    ensures !HasSkipped(EncodePadded(Standard, b))
  {
    var e := Encode(Standard, b);
    SymbolsRoundTrip(Standard, ToDigits(b));
    forall i | 0 <= i < |EncodePadded(Standard, b)| ensures !IsSkipped(EncodePadded(Standard, b)[i]) {
      if i < |e| {
        assert e[i] in e;
      } else {
        assert Padding(|e|)[i - |e|] == '=';
      }
    }
  }
}
