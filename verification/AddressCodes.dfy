/** What one address is held under, and the three things done to it: asking for a code, answering one,
    and taking one back.  Instants are ticks of 100 nanoseconds since the first of January of year one. */
module AddressCodes {
  import opened Text

  const VALID_FOR := 15 * 60 * TICKS_PER_SECOND
  const ANSWERS_ALLOWED := 5
  const CODES_PER_ADDRESS := 3
  const CODE_BUDGET_WINDOW := 60 * 60 * TICKS_PER_SECOND

  type Code = s: string | |s| == 6 && forall i :: 0 <= i < 6 ==> '0' <= s[i] <= '9' witness "000000"

  datatype Record = Record(code: Option<Code>, expiresAt: int, answersLeft: int, codesSent: int, openedAt: int)

  /** An answer comes with the space around it trimmed away. */
  datatype Act = Ask(drawn: Code) | Answer(trimmed: Option<string>) | TakeBack
  datatype Timed = At(now: int, act: Act)
  datatype Reply = Sent(code: Code) | Exhausted | Accepted | Refused | TakenBack

  function Key(emailAddress: string): string {
    Lower(Trim(emailAddress))
  }

  function Trimmed(answered: Option<string>): Option<string> {
    if answered.None? then None else Some(Trim(answered.value))
  }

  /** The same but for the white space at either end, and for case. */
  ghost predicate SameAddress(a: string, b: string) {
    exists s, t :: TrimsTo(a, s) && TrimsTo(b, t) && SameLetters(s, t)
  }

  lemma KeysAgreeExactlyWhen(a: string, b: string)
    ensures Key(a) == Key(b) <==> SameAddress(a, b)
  {
    TrimIs(a, Trim(a));
    TrimIs(b, Trim(b));
    SameNameIs(Trim(a), Trim(b));
    if s, t :| TrimsTo(a, s) && TrimsTo(b, t) && SameLetters(s, t) {
      TrimIs(a, s);
      TrimIs(b, t);
    }
  }

  lemma TrimmedIs(answered: Option<string>, text: string)
    ensures Trimmed(answered) == Some(text) <==> answered.Some? && TrimsTo(answered.value, text)
  {
    if answered.Some? {
      TrimIs(answered.value, text);
    }
  }

  predicate BudgetRunning(r: Record, now: int) {
    now - r.openedAt < CODE_BUDGET_WINDOW
  }

  predicate Reopens(held: Option<Record>, now: int) {
    held.None? || !BudgetRunning(held.value, now)
  }

  /** A record nobody has been sent a code under; its other fields hold what the runtime gives them. */
  function Opened(now: int): Record {
    Record(None, 0, 0, 0, now)
  }

  function Asked(held: Option<Record>, now: int, drawn: Code): (Record, Reply) {
    Drawn(if Reopens(held, now) then Opened(now) else held.value, now, drawn)
  }

  function Drawn(r: Record, now: int, drawn: Code): (Record, Reply) {
    if r.codesSent >= CODES_PER_ADDRESS then (r, Exhausted)
    else (Record(Some(drawn), now + VALID_FOR, ANSWERS_ALLOWED, r.codesSent + 1, r.openedAt), Sent(drawn))
  }

  /** The answer reaches the comparison with the code. */
  predicate Compared(held: Option<Record>, now: int) {
    held.Some? && held.value.code.Some? && now < held.value.expiresAt && held.value.answersLeft > 0
  }

  function Answered(held: Option<Record>, now: int, trimmed: Option<string>): (Option<Record>, Reply) {
    if !Compared(held, now) then (held, Refused)
    else
      var tried := held.value.(answersLeft := held.value.answersLeft - 1);
      if trimmed == held.value.code then (Some(tried.(code := None)), Accepted)
      else (Some(tried), Refused)
  }

  function TookBack(r: Record): Record {
    r.(code := None, codesSent := if r.codesSent > 0 then r.codesSent - 1 else r.codesSent)
  }

  function Serve(held: Option<Record>, e: Timed): (Option<Record>, Reply) {
    match e.act
    case Ask(drawn) => var (r, reply) := Asked(held, e.now, drawn); (Some(r), reply)
    case Answer(trimmed) => Answered(held, e.now, trimmed)
    case TakeBack => (if held.None? then None else Some(TookBack(held.value)), TakenBack)
  }

  // ---- histories ----

  /** One call, with its reply and what it left held. */
  datatype Entry = Entry(call: Timed, reply: Reply, after: Option<Record>)

  predicate Follows(held: Option<Record>, e: Entry) {
    (e.after, e.reply) == Serve(held, e.call)
  }

  function Before(start: Option<Record>, h: seq<Entry>, n: nat): Option<Record>
    requires n <= |h|
  {
    if n == 0 then start else h[n - 1].after
  }

  predicate FollowsAt(start: Option<Record>, h: seq<Entry>, i: nat)
    requires i < |h|
  {
    Follows(Before(start, h, i), h[i])
  }

  /** The calls made of one address, one after another. */
  ghost predicate IsHistory(start: Option<Record>, h: seq<Entry>) {
    forall i :: 0 <= i < |h| ==> FollowsAt(start, h, i)
  }

  ghost predicate Clocked(h: seq<Entry>) {
    forall i, j :: 0 <= i <= j < |h| ==> h[i].call.now <= h[j].call.now
  }

  /** Nothing happens before `t`. */
  ghost predicate From(t: int, h: seq<Entry>) {
    forall i :: 0 <= i < |h| ==> t <= h[i].call.now
  }

  ghost predicate ClockedFrom(t: int, h: seq<Entry>) {
    Clocked(h) && From(t, h)
  }

  ghost predicate SameCalls(g: seq<Entry>, h: seq<Entry>) {
    |g| == |h| && forall i :: 0 <= i < |g| ==> g[i].call == h[i].call
  }

  ghost predicate SameReplies(g: seq<Entry>, h: seq<Entry>) {
    |g| == |h| && forall i :: 0 <= i < |g| ==> g[i].reply == h[i].reply
  }

  // ---- forgetting a record ----

  /** Something a later call could still see: a budget that is running, or a code that could be accepted. */
  predicate Matters(r: Record, now: int) {
    BudgetRunning(r, now) || Compared(Some(r), now)
  }

  /** What a store holds for an address, against what it would hold had it never removed anything. */
  predicate Agrees(held: Option<Record>, ledger: Option<Record>, now: int) {
    held == ledger || (held.None? && !Matters(ledger.value, now))
  }

  lemma AgreementIsKept(held: Option<Record>, ledger: Option<Record>, t: int, e: Timed)
    requires Agrees(held, ledger, t) && t <= e.now
    ensures Serve(held, e).1 == Serve(ledger, e).1
    ensures Agrees(Serve(held, e).0, Serve(ledger, e).0, t)
  {}

  /** In whatever order the calls read the clock, from `t` on. */
  lemma {:induction false} AgreementRuns(held: Option<Record>, ledger: Option<Record>, t: int,
                                         g: seq<Entry>, h: seq<Entry>, n: nat)
    requires Agrees(held, ledger, t) && IsHistory(held, g) && IsHistory(ledger, h)
    requires SameCalls(g, h) && From(t, g) && n <= |g|
    ensures Agrees(Before(held, g, n), Before(ledger, h, n), t)
    ensures forall i :: 0 <= i < n ==> g[i].reply == h[i].reply
  {
    if n > 0 {
      AgreementRuns(held, ledger, t, g, h, n - 1);
      assert FollowsAt(held, g, n - 1) && FollowsAt(ledger, h, n - 1);
      AgreementIsKept(Before(held, g, n - 1), Before(ledger, h, n - 1), t, g[n - 1].call);
    }
  }

  /** Every later run of calls is answered the same with and without the record. */
  ghost predicate ForgettingIsInvisible(r: Record, t: int) {
    forall g, h :: IsHistory(None, g) && IsHistory(Some(r), h) && SameCalls(g, h) && ClockedFrom(t, g)
      ==> SameReplies(g, h)
  }

  /** A history of four calls. */
  function Four(held: Option<Record>, a: Timed, b: Timed, c: Timed, d: Timed): (h: seq<Entry>)
    ensures IsHistory(held, h)
  {
    var s0 := Serve(held, a);
    var s1 := Serve(s0.0, b);
    var s2 := Serve(s1.0, c);
    var s3 := Serve(s2.0, d);
    [Entry(a, s0.1, s0.0), Entry(b, s1.1, s1.0), Entry(c, s2.1, s2.0), Entry(d, s3.1, s3.0)]
  }

  /** Three asks while a budget runs, and a fourth at the instant it ends, tell it from a forgotten one. */
  lemma RunningBudgetShows(r: Record, t: int)
    requires BudgetRunning(r, t)
    ensures !ForgettingIsInvisible(r, t)
  {
    var ask := At(if r.openedAt < t then t else r.openedAt + 1, Ask("000000"));
    var last := At(r.openedAt + CODE_BUDGET_WINDOW, Ask("000000"));
    var g, h := Four(None, ask, ask, ask, last), Four(Some(r), ask, ask, ask, last);
    assert SameCalls(g, h) && ClockedFrom(t, g);
    if r.codesSent > 0 {
      assert g[2].reply != h[2].reply;
    } else {
      assert g[3].reply != h[3].reply;
    }
  }

  lemma UsableCodeShows(r: Record, t: int)
    requires Compared(Some(r), t)
    ensures !ForgettingIsInvisible(r, t)
  {
    var answer := At(t, Answer(r.code));
    var g := [Entry(answer, Refused, None)];
    var h := [Entry(answer, Accepted, Serve(Some(r), answer).0)];
    assert IsHistory(None, g) && IsHistory(Some(r), h) && SameCalls(g, h) && ClockedFrom(t, g);
    assert g[0].reply != h[0].reply;
  }

  /** A record may be let go unseen exactly when its budget has run out and its code can no longer be
      accepted; letting it go any sooner, some caller could tell. */
  lemma ForgettingIsInvisibleExactlyWhen(r: Record, t: int)
    ensures ForgettingIsInvisible(r, t) <==> !Matters(r, t)
  {
    if !Matters(r, t) {
      forall g, h | IsHistory(None, g) && IsHistory(Some(r), h) && SameCalls(g, h) && ClockedFrom(t, g)
        ensures SameReplies(g, h)
      {
        AgreementRuns(None, Some(r), t, g, h, |g|);
      }
    } else if BudgetRunning(r, t) {
      RunningBudgetShows(r, t);
    } else {
      UsableCodeShows(r, t);
    }
  }
}
