/** The two caches of an exchanged token, the shared one and the Go service's, asked one call at a time. */
module TokenCaches {
  import opened Text
  import opened TokenSource
  import Tickets = SubmissionTickets

  /** What the exchange answered: nothing a token can be read from; or a status and a token, with the second it
      says it expires in where it says one. */
  datatype Answer = NoToken | Issued(status: int, token: string, expiry: Option<Tickets.Int64>)

  /** A token whose expiry can be read has three parts, so it is not empty. */
  predicate WellFormed(a: Answer) {
    a.Issued? && a.expiry.Some? ==> a.token != ""
  }

  predicate HoldsAsAnInstant(second: int) {
    -Tickets.UNIX_EPOCH_SECONDS <= second <= Tickets.LAST_UNIX_SECOND
  }

  // ---- the shared source ----

  datatype Cache = Cache(held: Option<HeldToken>, earliestNext: int)

  /** The instants one call reads, in order. */
  datatype Readings = Readings(outside: int, inside: int, pause: int, done: int)

  predicate InOrder(r: Readings) {
    r.outside <= r.inside <= r.pause <= r.done
  }

  /** What a call returns, whether it made an exchange, and what it leaves held. */
  datatype Asked<T> = Asked(after: T, token: Option<string>, exchanged: bool)

  /** Any status of success will do. */
  predicate IsSuccess(status: int) {
    200 <= status <= 299
  }

  function Minted(a: Answer): Option<HeldToken> {
    if a.Issued? && IsSuccess(a.status) && a.expiry.Some? && HoldsAsAnInstant(a.expiry.value)
    then Some(HeldToken(a.token, Tickets.InstantOf(a.expiry.value))) else None
  }

  function Ask(cache: Cache, r: Readings, a: Answer): Asked<Cache> {
    if Usable(cache.held, r.outside) || Usable(cache.held, r.inside)
    then Asked(cache, Some(cache.held.value.token), false)
    else if r.pause < cache.earliestNext then Asked(cache, None, false)
    else match Minted(a)
      case Some(minted) => Asked(cache.(held := Some(minted)), Some(minted.token), true)
      case None => Asked(cache.(earliestNext := r.done + RETRY_DELAY), None, true)
  }

  class ApiKeyTokenSource {
    var held: Option<HeldToken>
    var earliestNext: int

    constructor ()
      ensures View() == Cache(None, 0)
    {
      held, earliestNext := None, 0;
    }

    function View(): Cache
      reads this
    {
      Cache(held, earliestNext)
    }

    /** A call that finds the permit free and is not cancelled. */
    method GetToken(r: Readings, a: Answer) returns (token: Option<string>, exchanged: bool)
      modifies this
      ensures Asked(View(), token, exchanged) == Ask(old(View()), r, a)
    {
      exchanged := false;
      if Usable(held, r.outside) { return Some(held.value.token), false; }
      if Usable(held, r.inside) { return Some(held.value.token), false; }
      if r.pause < earliestNext { return None, false; }

      var minted := Minted(a);
      if minted.None? {
        earliestNext := r.done + RETRY_DELAY;
        return None, true;
      }
      held := minted;
      return Some(minted.value.token), true;
    }
  }

  // ---- the Go service ----

  datatype GoCache = GoCache(token: string, expiry: int)

  function GoAsk(cache: GoCache, now: int, a: Answer): Asked<GoCache> {
    if cache.token != "" && now < Tickets.InstantOf(cache.expiry) - REPLACEMENT_LEAD_TIME
    then Asked(cache, Some(cache.token), false)
    else if a.Issued? && a.status == 200 && a.expiry.Some? && a.expiry.value != 0
    then Asked(GoCache(a.token, a.expiry.value), Some(a.token), true)
    else Asked(cache, None, true)
  }

  class GoService {
    var heldToken: string
    var heldTokenExpiry: int

    constructor ()
      ensures View() == GoCache("", 0)
    {
      heldToken, heldTokenExpiry := "", 0;
    }

    function View(): GoCache
      reads this
    {
      GoCache(heldToken, heldTokenExpiry)
    }

    method TokenFromTheKey(now: int, a: Answer) returns (token: Option<string>, exchanged: bool)
      modifies this
      ensures Asked(View(), token, exchanged) == GoAsk(old(View()), now, a)
    {
      if heldToken != "" && now < Tickets.InstantOf(heldTokenExpiry) - REPLACEMENT_LEAD_TIME {
        return Some(heldToken), false;
      }
      if a.NoToken? || a.status != 200 { return None, true; }
      if a.expiry.None? || a.expiry.value == 0 { return None, true; }

      heldToken, heldTokenExpiry := a.token, a.expiry.value;
      return Some(heldToken), true;
    }
  }

  // ---- when they agree ----

  predicate SameHeld(c: Cache, g: GoCache) {
    if g.token == "" then c.held == None else c.held == Some(HeldToken(g.token, Tickets.InstantOf(g.expiry)))
  }

  predicate SameAnswer(c: Asked<Cache>, g: Asked<GoCache>) {
    c.token == g.token && c.exchanged == g.exchanged
  }

  /** Both take the token, or neither: a plain 200 says it expires at an instant the shared source can hold and
      in some other second than the first of 1970; any other success, at none that it can hold. */
  predicate TakenAlike(a: Answer) {
    a.Issued? && a.expiry.Some? ==>
      var held := -Tickets.UNIX_EPOCH_SECONDS <= a.expiry.value <= Tickets.LAST_UNIX_SECOND;
      if a.status == 200 then a.expiry.value != 0 && held else 200 <= a.status <= 299 ==> !held
  }

  /** The call is served from what is held; or no pause is on, and what is exchanged for is taken alike. */
  predicate Alike(c: Cache, r: Readings, a: Answer) {
    Usable(c.held, r.outside) || (c.earliestNext <= r.pause && TakenAlike(a))
  }

  lemma OneCallAgreesExactlyWhenAlike(c: Cache, g: GoCache, r: Readings, a: Answer)
    requires SameHeld(c, g) && InOrder(r) && WellFormed(a)
    ensures SameAnswer(Ask(c, r, a), GoAsk(g, r.outside, a)) <==> Alike(c, r, a)
    ensures Alike(c, r, a) ==> SameHeld(Ask(c, r, a).after, GoAsk(g, r.outside, a).after)
  {}

  datatype Call = Call(readings: Readings, answer: Answer)

  predicate Sensible(calls: seq<Call>) {
    forall i :: 0 <= i < |calls| ==> InOrder(calls[i].readings) && WellFormed(calls[i].answer)
  }

  function SharedAnswers(c: Cache, calls: seq<Call>): seq<(Option<string>, bool)>
    decreases |calls|
  {
    if calls == [] then []
    else
      var asked := Ask(c, calls[0].readings, calls[0].answer);
      [(asked.token, asked.exchanged)] + SharedAnswers(asked.after, calls[1..])
  }

  function GoAnswers(g: GoCache, calls: seq<Call>): seq<(Option<string>, bool)>
    decreases |calls|
  {
    if calls == [] then []
    else
      var asked := GoAsk(g, calls[0].readings.outside, calls[0].answer);
      [(asked.token, asked.exchanged)] + GoAnswers(asked.after, calls[1..])
  }

  predicate AllAlike(c: Cache, calls: seq<Call>)
    decreases |calls|
  {
    calls != [] ==>
      Alike(c, calls[0].readings, calls[0].answer)
      && AllAlike(Ask(c, calls[0].readings, calls[0].answer).after, calls[1..])
  }

  /** Over any run of calls the two return the same tokens and make the same exchanges exactly when no call
      falls in the pause only one of them keeps, and no token comes with a status or an expiry that only one of
      them takes. */
  lemma {:induction false} RunsAgreeExactlyWhenAlike(c: Cache, g: GoCache, calls: seq<Call>)
    requires SameHeld(c, g) && Sensible(calls)
    ensures SharedAnswers(c, calls) == GoAnswers(g, calls) <==> AllAlike(c, calls)
    decreases |calls|
  {
    if calls != [] {
      var r, a := calls[0].readings, calls[0].answer;
      var shared, go := Ask(c, r, a), GoAsk(g, r.outside, a);
      OneCallAgreesExactlyWhenAlike(c, g, r, a);
      assert SharedAnswers(c, calls)[0] == (shared.token, shared.exchanged);
      assert GoAnswers(g, calls)[0] == (go.token, go.exchanged);
      assert SharedAnswers(c, calls)[1..] == SharedAnswers(shared.after, calls[1..]);
      assert GoAnswers(g, calls)[1..] == GoAnswers(go.after, calls[1..]);
      if Alike(c, r, a) {
        RunsAgreeExactlyWhenAlike(shared.after, go.after, calls[1..]);
      }
    }
  }

  /** In particular wherever every exchange is answered 200 with a token that expires at some later instant than
      1970. */
  lemma {:induction false} RunsOfTokensAgree(c: Cache, g: GoCache, calls: seq<Call>)
    requires SameHeld(c, g) && Sensible(calls)
    requires forall i :: 0 <= i < |calls| ==>
               c.earliestNext <= calls[i].readings.pause
               && calls[i].answer.Issued? && calls[i].answer.status == 200 && calls[i].answer.expiry.Some?
               && 0 < calls[i].answer.expiry.value <= Tickets.LAST_UNIX_SECOND
    ensures SharedAnswers(c, calls) == GoAnswers(g, calls)
  {
    TokensAreAlike(c, calls);
    RunsAgreeExactlyWhenAlike(c, g, calls);
  }

  lemma {:induction false} TokensAreAlike(c: Cache, calls: seq<Call>)
    requires forall i :: 0 <= i < |calls| ==>
               c.earliestNext <= calls[i].readings.pause
               && calls[i].answer.Issued? && calls[i].answer.status == 200 && calls[i].answer.expiry.Some?
               && 0 < calls[i].answer.expiry.value <= Tickets.LAST_UNIX_SECOND
    ensures AllAlike(c, calls)
    decreases |calls|
  {
    if calls != [] {
      TokensAreAlike(Ask(c, calls[0].readings, calls[0].answer).after, calls[1..]);
    }
  }

  /** Two calls a tick apart, the first of them fruitless: the one source keeps its pause, the other gets a
      token. */
  lemma APauseTellsThemApart()
    ensures var t := Tickets.InstantOf(0);
            var calls := [Call.Call(Readings(t, t, t, t), NoToken),
                          Call.Call(Readings(t + 1, t + 1, t + 1, t + 1), Issued(200, "a.b.c", Some(60)))];
            && Sensible(calls) && SameHeld(Cache(None, 0), GoCache("", 0))
            && SharedAnswers(Cache(None, 0), calls) == [(None, true), (None, false)]
            && GoAnswers(GoCache("", 0), calls) == [(None, true), (Some("a.b.c"), true)]
  {
    var t := Tickets.InstantOf(0);
    var late := Call.Call(Readings(t + 1, t + 1, t + 1, t + 1), Issued(200, "a.b.c", Some(60)));
    var calls := [Call.Call(Readings(t, t, t, t), NoToken), late];
    assert calls[1..] == [late];
    assert SharedAnswers(Cache(None, t + RETRY_DELAY), [late]) == [(None, false)];
    assert GoAnswers(GoCache("", 0), [late]) == [(Some("a.b.c"), true)];
  }

  /** A status of success other than 200, with a token that could be held. */
  lemma AStatusTellsThemApart()
    ensures var t := Tickets.InstantOf(0);
            var calls := [Call.Call(Readings(t, t, t, t), Issued(201, "a.b.c", Some(60)))];
            && Sensible(calls)
            && SharedAnswers(Cache(None, 0), calls) == [(Some("a.b.c"), true)]
            && GoAnswers(GoCache("", 0), calls) == [(None, true)]
  {}

  // ---- a call on its own, as the interleaved steps take it ----

  ghost predicate Extends(run: Run, longer: Run) {
    longer == run || (longer.Then? && Extends(run, longer.past))
  }

  lemma Take(start: Run, run: Run, e: Event) returns (longer: Run)
    requires IsRun(run) && Extends(start, run) && Can(StateOf(run), e)
    ensures IsRun(longer) && Extends(start, longer) && StateOf(longer) == TokenSource.After(StateOf(run), e)
  {
    longer := Then(run, e);
  }

  function CacheOf(s: State): Cache {
    Cache(s.held, s.earliestNext)
  }

  function ResultOf(token: Option<string>): Result {
    if token.Some? then Token(token.value) else Nothing
  }

  /** What a call alone leaves, its caller in this phase. */
  ghost predicate Leaves(s: State, t: State, c: nat, p: Phase, after: Cache, exchanged: bool) {
    && CacheOf(t) == after && t.callers == s.callers[c := p]
    && |t.exchanges| == |s.exchanges| + if exchanged then 1 else 0
  }

  lemma PastTheRecheck(start: Run, run: Run, c: nat, r: Readings, a: Answer) returns (longer: Run)
    requires IsRun(run) && Extends(start, run) && InOrder(r) && StateOf(run).now <= r.pause
    requires c in StateOf(run).callers && StateOf(run).callers[c].Rechecked?
    requires !Usable(StateOf(run).held, r.outside) && !Usable(StateOf(run).held, r.inside)
    ensures IsRun(longer) && Extends(start, longer) && StateOf(longer).permits == StateOf(run).permits
    ensures var asked := Ask(CacheOf(StateOf(run)), r, a);
            Leaves(StateOf(run), StateOf(longer), c, Leaving(ResultOf(asked.token)), asked.after, asked.exchanged)
  {
    longer := Take(start, run, Tick(r.pause));
    longer := Take(start, longer, Begin(c));
    if StateOf(run).earliestNext <= r.pause {
      longer := Take(start, longer, Tick(r.done));
      longer := Take(start, longer, if Minted(a).Some? then Mint(c, Minted(a).value) else ComeToNothing(c));
    }
  }

  lemma ThroughTheLock(start: Run, run: Run, c: nat, r: Readings, a: Answer) returns (longer: Run)
    requires IsRun(run) && Extends(start, run) && InOrder(r) && StateOf(run).now <= r.inside
    requires c in StateOf(run).callers && StateOf(run).callers[c].Waiting? && StateOf(run).permits == 1
    requires !Usable(StateOf(run).held, r.outside)
    ensures IsRun(longer) && Extends(start, longer) && StateOf(longer).permits == 1
    ensures var asked := Ask(CacheOf(StateOf(run)), r, a);
            Leaves(StateOf(run), StateOf(longer), c, Done(ResultOf(asked.token)), asked.after, asked.exchanged)
  {
    longer := Take(start, run, Acquire(c));
    longer := Take(start, longer, Tick(r.inside));
    longer := Take(start, longer, Recheck(c));
    if !Usable(StateOf(run).held, r.inside) {
      longer := PastTheRecheck(start, longer, c, r, a);
    }
    longer := Take(start, longer, Release(c));
  }

  lemma UpToTheCheck(run: Run, c: nat, r: Readings) returns (longer: Run)
    requires IsRun(run) && c !in StateOf(run).callers && StateOf(run).now <= r.outside
    ensures IsRun(longer) && Extends(run, longer) && StateOf(longer).permits == StateOf(run).permits
    ensures StateOf(longer).now == r.outside
    ensures var s := StateOf(run);
            Leaves(s, StateOf(longer), c,
                   if Usable(s.held, r.outside) then Done(Token(s.held.value.token)) else Waiting, CacheOf(s), false)
  {
    longer := Take(run, run, TokenSource.Call(c));
    longer := Take(run, longer, Tick(r.outside));
    longer := Take(run, longer, Check(c));
  }

  /** Where no other caller is inside, a call can go through its steps alone, and comes out with what one
      call at a time gives. */
  lemma ACallAloneIsAsk(run: Run, c: nat, r: Readings, a: Answer) returns (longer: Run)
    requires IsRun(run) && StateOf(run).permits == 1 && c !in StateOf(run).callers
    requires StateOf(run).now <= r.outside && InOrder(r)
    ensures IsRun(longer) && Extends(run, longer) && StateOf(longer).permits == 1
    ensures var asked := Ask(CacheOf(StateOf(run)), r, a);
            Leaves(StateOf(run), StateOf(longer), c, Done(ResultOf(asked.token)), asked.after, asked.exchanged)
  {
    longer := UpToTheCheck(run, c, r);
    if !Usable(StateOf(run).held, r.outside) {
      longer := ThroughTheLock(run, longer, c, r, a);
    }
  }
}
