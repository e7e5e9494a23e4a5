/** A ticket: the second it was issued in and a mark of the address, signed, in base 64.  The keyed digest
    and the encoding of text are whatever functions the service runs with. */
module SubmissionTickets {
  import opened Text
  import opened Base64
  import AddressCodes

  const VALID_FOR := 10 * 60 * TICKS_PER_SECOND
  const ISSUED_AT_BYTES := 8
  const MARK_BYTES := 32
  const SIGNED_BYTES := ISSUED_AT_BYTES + MARK_BYTES

  // What the runtime's instants hold, in ticks and in seconds since 1970.
  const UNIX_EPOCH_SECONDS := 62_135_596_800
  const LAST_UNIX_SECOND := 253_402_300_799
  const END_OF_TIME := (LAST_UNIX_SECOND + UNIX_EPOCH_SECONDS + 1) * TICKS_PER_SECOND

  const TWO_64 := 0x1_0000_0000_0000_0000
  type Int64 = i: int | -0x8000_0000_0000_0000 <= i < 0x8000_0000_0000_0000

  // ---- sixty-four bits, the highest first ----

  function Pow256(n: nat): nat {
    if n == 0 then 1 else 256 * Pow256(n - 1)
  }

  function BigEndian(v: nat, n: nat): (b: Bytes)
    ensures |b| == n
  {
    if n == 0 then [] else BigEndian(v / 256, n - 1) + [v % 256]
  }

  function Number(b: Bytes): nat {
    if b == [] then 0 else Number(b[..|b| - 1]) * 256 + b[|b| - 1]
  }

  lemma OneByteMore(b: Bytes, last: Byte)
    ensures Number(b + [last]) == Number(b) * 256 + last
  {
    assert (b + [last])[..|b|] == b;
  }

  lemma FitsInOneLess(v: nat, n: nat)
    requires n > 0 && v < Pow256(n)
    ensures v / 256 < Pow256(n - 1) && v / 256 * 256 + v % 256 == v
  {}

  lemma {:induction false} NumberRoundTrips(v: nat, n: nat)
    requires v < Pow256(n)
    ensures Number(BigEndian(v, n)) == v
  {
    if n > 0 {
      OneByteMore(BigEndian(v / 256, n - 1), v % 256);
      FitsInOneLess(v, n);
      NumberRoundTrips(v / 256, n - 1);
    }
  }

  lemma EightBytes()
    ensures Pow256(8) == TWO_64
  {
    assert Pow256(2) == 256 * Pow256(1);
    assert Pow256(4) == 256 * Pow256(3);
    assert Pow256(6) == 256 * Pow256(5);
    assert Pow256(8) == 256 * Pow256(7);
  }

  function Unsigned(i: Int64): nat {
    if i < 0 then i + TWO_64 else i
  }

  function ToSigned(v: nat): Int64
    requires v < TWO_64
  {
    if v >= TWO_64 / 2 then v - TWO_64 else v
  }

  function Int64Bytes(i: Int64): Bytes {
    BigEndian(Unsigned(i), ISSUED_AT_BYTES)
  }

  lemma {:induction false} NumberIsBounded(b: Bytes)
    ensures Number(b) < Pow256(|b|)
  {
    if b != [] {
      NumberIsBounded(b[..|b| - 1]);
    }
  }

  function ReadInt64(b: Bytes): Int64
    requires |b| >= ISSUED_AT_BYTES
  {
    NumberIsBounded(b[..ISSUED_AT_BYTES]);
    EightBytes();
    ToSigned(Number(b[..ISSUED_AT_BYTES]))
  }

  lemma Int64RoundTrips(i: Int64, rest: Bytes)
    ensures ReadInt64(Int64Bytes(i) + rest) == i
  {
    EightBytes();
    NumberRoundTrips(Unsigned(i), ISSUED_AT_BYTES);
    assert (Int64Bytes(i) + rest)[..ISSUED_AT_BYTES] == Int64Bytes(i);
  }

  lemma {:induction false} BytesRoundTrip(b: Bytes)
    ensures BigEndian(Number(b), |b|) == b
  {
    if b != [] {
      BytesRoundTrip(b[..|b| - 1]);
    }
  }

  /** Any eight bytes are those of one signed number. */
  lemma ReadIsWritten(b: Bytes)
    requires |b| >= ISSUED_AT_BYTES
    ensures Int64Bytes(ReadInt64(b)) == b[..ISSUED_AT_BYTES]
  {
    NumberIsBounded(b[..ISSUED_AT_BYTES]);
    EightBytes();
    BytesRoundTrip(b[..ISSUED_AT_BYTES]);
  }

  method WriteInt64BigEndian(a: array<Byte>, i: Int64)
    requires a.Length >= ISSUED_AT_BYTES
    modifies a
    ensures a[..ISSUED_AT_BYTES] == Int64Bytes(i) && a[ISSUED_AT_BYTES..] == old(a[ISSUED_AT_BYTES..])
  {
    var v, n := Unsigned(i), ISSUED_AT_BYTES;
    while n > 0
      invariant 0 <= n <= ISSUED_AT_BYTES
      invariant BigEndian(v, n) + a[n..ISSUED_AT_BYTES] == Int64Bytes(i)
      invariant a[ISSUED_AT_BYTES..] == old(a[ISSUED_AT_BYTES..])
    {
      n := n - 1;
      a[n] := v % 256;
      v := v / 256;
    }
  }

  // ---- tickets ----

  /** The digest under the service's own key, and the bytes of a text. */
  datatype Keyed = Keyed(mac: Bytes -> Bytes, utf8: string -> Bytes) {
    ghost predicate Valid() {
      forall b :: |mac(b)| == MARK_BYTES
    }

    function MarkFor(emailAddress: string): Bytes {
      mac(utf8(AddressCodes.Key(emailAddress)))
    }

    function Signed(second: Int64, mark: Bytes): Bytes {
      Int64Bytes(second) + mark
    }

    function TextOf(signed: Bytes): string {
      Encode(Url, signed + mac(signed))
    }

    /** The bytes a text carries, where it is one this key signed. */
    function TryReadSigned(presented: Option<string>): (signed: Option<Bytes>)
      ensures signed.Some? ==> |signed.value| == SIGNED_BYTES
    {
      if presented.None? || Trim(presented.value) == "" then None
      else
        match Decode(Url, presented.value)
        case None => None
        case Some(decoded) =>
          if |decoded| != SIGNED_BYTES + MARK_BYTES then None
          else if decoded[SIGNED_BYTES..] != mac(decoded[..SIGNED_BYTES]) then None
          else Some(decoded[..SIGNED_BYTES])
    }

    predicate WasIssuedFor(presented: Option<string>, emailAddress: string) {
      var signed := TryReadSigned(presented);
      signed.Some? && signed.value[ISSUED_AT_BYTES..] == MarkFor(emailAddress)
    }

    function WhyRefused(presented: Option<string>, now: int): Verdict {
      match TryReadSigned(presented)
      case None => TicketMissing
      case Some(signed) =>
        var second := ReadInt64(signed);
        if !(-UNIX_EPOCH_SECONDS <= second <= LAST_UNIX_SECOND) then Raises
        else if now - InstantOf(second) > VALID_FOR then TicketExpired
        else Live
    }

    /** The ticket issued for this address at this instant. */
    function TicketFor(emailAddress: string, now: int): string
      requires Instant(now)
    {
      TextOf(Signed(SecondOf(now), MarkFor(emailAddress)))
    }
  }

  /** `Raises` is an authentic ticket whose second no instant holds. */
  datatype Verdict = Live | TicketMissing | TicketExpired | Raises

  predicate Instant(now: int) {
    0 <= now < END_OF_TIME
  }

  /** The whole second an instant falls in. */
  function SecondOf(now: int): Int64
    requires Instant(now)
  {
    now / TICKS_PER_SECOND - UNIX_EPOCH_SECONDS
  }

  function InstantOf(second: int): int {
    (second + UNIX_EPOCH_SECONDS) * TICKS_PER_SECOND
  }

  /** The seconds of the runtime's instants are exactly those from the first of January of year one to the last of
      the year 9999. */
  lemma SecondsAre(second: Int64)
    ensures Instant(InstantOf(second)) <==> -UNIX_EPOCH_SECONDS <= second <= LAST_UNIX_SECOND
    ensures Instant(InstantOf(second)) ==> SecondOf(InstantOf(second)) == second
  {}

  method Issue(keyed: Keyed, emailAddress: string, now: int) returns (ticket: string)
    requires keyed.Valid() && Instant(now)
    ensures ticket == keyed.TicketFor(emailAddress, now)
  {
    var signed := new Byte[SIGNED_BYTES];
    WriteInt64BigEndian(signed, SecondOf(now));
    var mark := keyed.MarkFor(emailAddress);
    forall i | 0 <= i < MARK_BYTES {
      signed[ISSUED_AT_BYTES + i] := mark[i];
    }
    assert signed[..] == keyed.Signed(SecondOf(now), mark);
    ticket := Encode(Url, signed[..] + keyed.mac(signed[..]));
  }

  // ---- what is read back ----

  lemma SomethingIsWritten(b: Bytes)
    requires b != []
    ensures Encode(Url, b) != "" && Trim(Encode(Url, b)) == Encode(Url, b)
  {
    var e := Encode(Url, b);
    SymbolsRoundTrip(Url, ToDigits(b));
    assert ToDigits(b) != [];
    assert e[0] in e && e[|e| - 1] in e;
  }

  /** A text reads as these bytes exactly when it decodes to them and their tag. */
  lemma ReadsExactlyWhatIsSigned(keyed: Keyed, presented: string, signed: Bytes)
    requires keyed.Valid()
    ensures keyed.TryReadSigned(Some(presented)) == Some(signed)
            <==> Trim(presented) != "" && |signed| == SIGNED_BYTES
                 && Decode(Url, presented) == Some(signed + keyed.mac(signed))
  {
    if Decode(Url, presented) == Some(signed + keyed.mac(signed)) && |signed| == SIGNED_BYTES {
      var decoded := signed + keyed.mac(signed);
      assert decoded[..SIGNED_BYTES] == signed && decoded[SIGNED_BYTES..] == keyed.mac(signed);
    }
    if keyed.TryReadSigned(Some(presented)) == Some(signed) {
      var decoded := Decode(Url, presented).value;
      assert decoded == decoded[..SIGNED_BYTES] + decoded[SIGNED_BYTES..];
    }
  }

  /** The text is a ticket under this key that gives this second and this mark. */
  ghost predicate IsTicket(keyed: Keyed, presented: Option<string>, second: Int64, mark: Bytes) {
    var signed := keyed.Signed(second, mark);
    && presented.Some? && |mark| == MARK_BYTES && !AllSpace(presented.value)
    && Decode(Url, presented.value) == Some(signed + keyed.mac(signed))
  }

  lemma TicketIsRead(keyed: Keyed, presented: Option<string>, second: Int64, mark: Bytes)
    requires keyed.Valid()
    ensures IsTicket(keyed, presented, second, mark)
            <==> |mark| == MARK_BYTES && keyed.TryReadSigned(presented) == Some(keyed.Signed(second, mark))
  {
    if presented.Some? {
      BlankIs(presented.value);
      if |mark| == MARK_BYTES {
        ReadsExactlyWhatIsSigned(keyed, presented.value, keyed.Signed(second, mark));
      }
    }
  }

  /** A text is refused as no ticket exactly when it is none that this key signed; otherwise by its second alone:
      one no instant holds raises, and one more than ten minutes ago has expired. */
  lemma VerdictIs(keyed: Keyed, presented: Option<string>, now: int)
    requires keyed.Valid()
    ensures keyed.WhyRefused(presented, now) == TicketMissing
            <==> forall second: Int64, mark: Bytes :: !IsTicket(keyed, presented, second, mark)
    ensures forall second: Int64, mark: Bytes :: IsTicket(keyed, presented, second, mark) ==>
              keyed.WhyRefused(presented, now) ==
              if !(-UNIX_EPOCH_SECONDS <= second <= LAST_UNIX_SECOND) then Raises
              else if now - InstantOf(second) > 600 * TICKS_PER_SECOND then TicketExpired
              else Live
  {
    var read := keyed.TryReadSigned(presented);
    if read.Some? {
      var second, mark := ReadInt64(read.value), read.value[ISSUED_AT_BYTES..];
      ReadIsWritten(read.value);
      assert read.value == keyed.Signed(second, mark);
      TicketIsRead(keyed, presented, second, mark);
      assert IsTicket(keyed, presented, second, mark);
    }
    forall second: Int64, mark: Bytes | IsTicket(keyed, presented, second, mark)
      ensures read.Some? && ReadInt64(read.value) == second
    {
      TicketIsRead(keyed, presented, second, mark);
      Int64RoundTrips(second, mark);
    }
  }

  /** Every second and every mark come back out of the ticket they went into. */
  lemma TicketRoundTrips(keyed: Keyed, second: Int64, mark: Bytes)
    requires keyed.Valid() && |mark| == MARK_BYTES
    ensures var signed := keyed.Signed(second, mark);
            && keyed.TryReadSigned(Some(keyed.TextOf(signed))) == Some(signed)
            && ReadInt64(signed) == second && signed[ISSUED_AT_BYTES..] == mark
  {
    var signed := keyed.Signed(second, mark);
    var whole := signed + keyed.mac(signed);
    SomethingIsWritten(whole);
    RoundTrips(Url, whole);
    ReadsExactlyWhatIsSigned(keyed, keyed.TextOf(signed), signed);
    Int64RoundTrips(second, mark);
  }

  lemma IssuedIsRead(keyed: Keyed, emailAddress: string, issuedAt: int)
    requires keyed.Valid() && Instant(issuedAt)
    ensures var signed := keyed.TryReadSigned(Some(keyed.TicketFor(emailAddress, issuedAt)));
            && signed.Some? && ReadInt64(signed.value) == SecondOf(issuedAt)
            && signed.value[ISSUED_AT_BYTES..] == keyed.MarkFor(emailAddress)
  {
    TicketRoundTrips(keyed, SecondOf(issuedAt), keyed.MarkFor(emailAddress));
  }

  /** A ticket is live until exactly ten minutes after the start of the second it was issued in: always for
      599 seconds, and never for more than 600. */
  lemma LivesTenMinutes(keyed: Keyed, emailAddress: string, issuedAt: int, now: int)
    requires keyed.Valid() && Instant(issuedAt)
    ensures var verdict := keyed.WhyRefused(Some(keyed.TicketFor(emailAddress, issuedAt)), now);
            && (verdict == Live <==> now <= issuedAt - issuedAt % TICKS_PER_SECOND + VALID_FOR)
            && (verdict != Live ==> verdict == TicketExpired)
            && (now <= issuedAt + VALID_FOR - TICKS_PER_SECOND ==> verdict == Live)
            && (now > issuedAt + VALID_FOR ==> verdict == TicketExpired)
  {
    IssuedIsRead(keyed, emailAddress, issuedAt);
    assert InstantOf(SecondOf(issuedAt)) == issuedAt - issuedAt % TICKS_PER_SECOND;
  }

  /** A ticket is taken for every spelling of its address, and for another address only if the digests of
      the two collide. */
  lemma MatchesItsAddress(keyed: Keyed, emailAddress: string, issuedAt: int, claimed: string)
    requires keyed.Valid() && Instant(issuedAt)
    ensures keyed.WasIssuedFor(Some(keyed.TicketFor(emailAddress, issuedAt)), claimed)
            <==> keyed.mac(keyed.utf8(AddressCodes.Key(emailAddress)))
                 == keyed.mac(keyed.utf8(AddressCodes.Key(claimed)))
    ensures AddressCodes.SameAddress(emailAddress, claimed) ==>
              keyed.WasIssuedFor(Some(keyed.TicketFor(emailAddress, issuedAt)), claimed)
  {
    IssuedIsRead(keyed, emailAddress, issuedAt);
    AddressCodes.KeysAgreeExactlyWhen(emailAddress, claimed);
  }
}
