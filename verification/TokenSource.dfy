/** The bearer an API key is exchanged for, and the callers that share it: a read without the lock, a lock
    with one permit, a second read under it, and a pause after an exchange that came to nothing.  What
    happens between two readings of shared state is one step, and the steps of any number of callers
    interleave. */
module TokenSource {
  import opened Text

  const REPLACEMENT_LEAD_TIME := 30 * TICKS_PER_SECOND
  const RETRY_DELAY := 5 * TICKS_PER_SECOND

  datatype HeldToken = HeldToken(token: string, expiresAt: int)

  datatype Result = Token(token: string) | Nothing | Cancelled

  /** Where a caller stands. */
  datatype Phase =
    | Peeked(seen: Option<HeldToken>)
    | Waiting
    | Entered
    | Rechecked
    | Minting(startedAt: int)
    | Leaving(result: Result)
    | Done(result: Result)

  /** An exchange that ran to its end. */
  datatype Exchange = Exchange(start: int, end: int, fruitless: bool)

  /** A token served from what was held, and when it was looked at. */
  datatype Serving = Serving(held: HeldToken, at: int)

  datatype State = State(held: Option<HeldToken>, earliestNext: int, permits: nat, callers: map<nat, Phase>, now: int,
                         exchanges: seq<Exchange>, served: seq<Serving>)

  datatype Event =
    | Tick(now: int)
    | Call(c: nat)
    | Check(c: nat)
    | Acquire(c: nat)
    | GiveUp(c: nat)
    | Recheck(c: nat)
    | Begin(c: nat)
    | Mint(c: nat, minted: HeldToken)
    | ComeToNothing(c: nat)
    | Cancel(c: nat)
    | Release(c: nat)

  predicate Usable(held: Option<HeldToken>, now: int) {
    held.Some? && held.value.expiresAt - now > REPLACEMENT_LEAD_TIME
  }

  /** The callers that hold the permit. */
  predicate Inside(p: Phase) {
    p.Entered? || p.Rechecked? || p.Minting? || p.Leaving?
  }

  predicate In(s: State, c: nat) {
    c in s.callers
  }

  predicate Can(s: State, e: Event) {
    match e
    case Tick(now) => s.now <= now
    case Call(c) => !In(s, c)
    case Check(c) => In(s, c) && s.callers[c].Peeked?
    case Acquire(c) => In(s, c) && s.callers[c].Waiting? && s.permits > 0
    case GiveUp(c) => In(s, c) && s.callers[c].Waiting?
    case Recheck(c) => In(s, c) && s.callers[c].Entered?
    case Begin(c) => In(s, c) && s.callers[c].Rechecked?
    case Mint(c, _) => In(s, c) && s.callers[c].Minting?
    case ComeToNothing(c) => In(s, c) && s.callers[c].Minting?
    case Cancel(c) => In(s, c) && s.callers[c].Minting?
    case Release(c) => In(s, c) && s.callers[c].Leaving?
  }

  function At(s: State, c: nat, p: Phase): State {
    s.(callers := s.callers[c := p])
  }

  function After(s: State, e: Event): State
    requires Can(s, e)
  {
    match e
    case Tick(now) => s.(now := now)
    case Call(c) => At(s, c, Peeked(s.held))
    case Check(c) =>
      var seen := s.callers[c].seen;
      if Usable(seen, s.now)
      then At(s.(served := s.served + [Serving(seen.value, s.now)]), c, Done(Token(seen.value.token)))
      else At(s, c, Waiting)
    case Acquire(c) => At(s.(permits := s.permits - 1), c, Entered)
    case GiveUp(c) => At(s, c, Done(Cancelled))
    case Recheck(c) =>
      if Usable(s.held, s.now)
      then At(s.(served := s.served + [Serving(s.held.value, s.now)]), c, Leaving(Token(s.held.value.token)))
      else At(s, c, Rechecked)
    case Begin(c) => At(s, c, if s.now < s.earliestNext then Leaving(Nothing) else Minting(s.now))
    case Mint(c, minted) =>
      At(s.(held := Some(minted), exchanges := s.exchanges + [Exchange(s.callers[c].startedAt, s.now, false)]),
         c, Leaving(Token(minted.token)))
    case ComeToNothing(c) =>
      At(s.(earliestNext := s.now + RETRY_DELAY,
            exchanges := s.exchanges + [Exchange(s.callers[c].startedAt, s.now, true)]), c, Leaving(Nothing))
    case Cancel(c) => At(s, c, Leaving(Cancelled))
    case Release(c) => At(s.(permits := s.permits + 1), c, Done(s.callers[c].result))
  }

  /** A run from a source that holds nothing and has been refused nothing. */
  datatype Run = Start(from: int) | Then(past: Run, event: Event)

  ghost predicate IsRun(run: Run)
    decreases run, 0
  {
    run.Then? ==> IsRun(run.past) && Can(StateOf(run.past), run.event)
  }

  ghost function StateOf(run: Run): State
    requires IsRun(run)
    decreases run, 1
  {
    match run
    case Start(from) => State(None, from, 1, map[], from, [], [])
    case Then(past, e) => After(StateOf(past), e)
  }

  /** Every token minted has at least `life` left when it is stored. */
  ghost predicate TokensLast(run: Run, life: int)
    requires IsRun(run)
  {
    run.Then? ==>
      && TokensLast(run.past, life)
      && (run.event.Mint? ==> run.event.minted.expiresAt - StateOf(run.past).now >= life)
  }

  // ---- one at a time ----

  function Insiders(s: State): set<nat> {
    set c | c in s.callers && Inside(s.callers[c])
  }

  predicate OnePermit(s: State) {
    s.permits + |Insiders(s)| == 1
  }

  function CallerOf(e: Event): Option<nat> {
    match e
    case Tick(_) => None
    case Call(c) => Some(c)
    case Check(c) => Some(c)
    case Acquire(c) => Some(c)
    case GiveUp(c) => Some(c)
    case Recheck(c) => Some(c)
    case Begin(c) => Some(c)
    case Mint(c, _) => Some(c)
    case ComeToNothing(c) => Some(c)
    case Cancel(c) => Some(c)
    case Release(c) => Some(c)
  }

  lemma StepKeepsOnePermit(s: State, e: Event)
    requires OnePermit(s) && Can(s, e)
    ensures OnePermit(After(s, e))
  {
    var t := After(s, e);
    match e
    case Acquire(c) => assert Insiders(t) == Insiders(s) + {c};
    case Release(c) => assert Insiders(t) == Insiders(s) - {c};
    case _ => assert Insiders(t) == Insiders(s);
  }

  lemma {:induction false} RunKeepsOnePermit(run: Run)
    requires IsRun(run)
    ensures OnePermit(StateOf(run))
  {
    if run.Then? {
      RunKeepsOnePermit(run.past);
      StepKeepsOnePermit(StateOf(run.past), run.event);
    } else {
      assert Insiders(StateOf(run)) == {};
    }
  }

  lemma OneOrNone(a: set<nat>, x: nat, y: nat)
    requires |a| <= 1 && x in a && y in a
    ensures x == y
  {
    assert |a - {x}| == 0;
    assert y in a - {x} + {x};
  }

  lemma InsideIsAlone(s: State, c: nat, d: nat)
    requires OnePermit(s) && c in Insiders(s) && d in Insiders(s)
    ensures c == d && s.permits == 0
  {
    OneOrNone(Insiders(s), c, d);
    assert |Insiders(s)| >= 1 by { assert Insiders(s) != {}; }
  }

  /** At most one caller is inside; while none is, the permit is there for the next, whatever way the ones
      before it left. */
  lemma OneCallerInside(run: Run, c: nat, d: nat)
    requires IsRun(run)
    ensures c in Insiders(StateOf(run)) && d in Insiders(StateOf(run)) ==> c == d
    ensures (forall b :: b in StateOf(run).callers ==> !Inside(StateOf(run).callers[b])) <==> StateOf(run).permits == 1
  {
    RunKeepsOnePermit(run);
    var s := StateOf(run);
    if c in Insiders(s) && d in Insiders(s) {
      InsideIsAlone(s, c, d);
    }
    if forall b :: b in s.callers ==> !Inside(s.callers[b]) {
      assert Insiders(s) == {};
    } else {
      var b :| b in s.callers && Inside(s.callers[b]);
      InsideIsAlone(s, b, b);
    }
  }

  /** How many steps of its own a caller inside is from having released the permit. */
  function StepsLeft(p: Phase): nat {
    match p case Entered => 4 case Rechecked => 3 case Minting(_) => 2 case Leaving(_) => 1 case _ => 0
  }

  /** A caller inside waits for no other: it has a step to take, and each one it takes brings the release
      nearer, however the exchange ends. */
  lemma InsideAlwaysGetsOut(s: State, c: nat)
    requires c in Insiders(s)
    ensures exists e :: Can(s, e) && CallerOf(e) == Some(c)
    ensures forall e :: Can(s, e) && CallerOf(e) == Some(c) ==>
              StepsLeft(After(s, e).callers[c]) < StepsLeft(s.callers[c])
              && (c !in Insiders(After(s, e)) <==> e.Release?)
  {
    var e := match s.callers[c]
      case Entered => Recheck(c)
      case Rechecked => Begin(c)
      case Minting(_) => Cancel(c)
      case _ => Release(c);
    assert Can(s, e) && CallerOf(e) == Some(c);
  }

  // ---- never too often ----

  /** How far apart exchanges are kept, when a token lasts `life`. */
  function Apart(life: int): int {
    if life - REPLACEMENT_LEAD_TIME < RETRY_DELAY then life - REPLACEMENT_LEAD_TIME else RETRY_DELAY
  }

  /** What the last exchange that ran to its end left behind it: a token that lasts, or a pause. */
  predicate Remembered(s: State, life: int) {
    s.exchanges != [] ==>
      var last := s.exchanges[|s.exchanges| - 1];
      && last.end <= s.now
      && (if last.fruitless then s.earliestNext == last.end + RETRY_DELAY
          else s.held.Some? && s.held.value.expiresAt >= last.end + life)
  }

  /** `start` is far enough after the end of the last exchange. */
  predicate FarEnough(s: State, start: int, life: int) {
    s.exchanges != [] ==> start >= s.exchanges[|s.exchanges| - 1].end + Apart(life)
  }

  predicate PhaseKept(s: State, p: Phase, life: int) {
    match p
    case Rechecked => !Usable(s.held, s.now)
    case Minting(start) => start <= s.now && FarEnough(s, start, life)
    case _ => true
  }

  ghost predicate Spaced(exchanges: seq<Exchange>, life: int) {
    && (forall i :: 0 <= i < |exchanges| ==> exchanges[i].start <= exchanges[i].end)
    && (forall i :: 0 < i < |exchanges| ==> exchanges[i].start >= exchanges[i - 1].end + Apart(life))
  }

  ghost predicate Kept(s: State, life: int) {
    && Remembered(s, life) && Spaced(s.exchanges, life)
    && forall c :: c in s.callers ==> PhaseKept(s, s.callers[c], life)
  }

  lemma OwnPhaseIsKept(s: State, e: Event, life: int)
    requires Kept(s, life) && Can(s, e) && !e.Tick? && life > REPLACEMENT_LEAD_TIME
    ensures PhaseKept(After(s, e), After(s, e).callers[e.c], life)
  {
    if e.Begin? {
      assert PhaseKept(s, s.callers[e.c], life);
    }
  }

  lemma OtherPhaseIsKept(s: State, e: Event, c: nat, life: int)
    requires OnePermit(s) && c in s.callers && PhaseKept(s, s.callers[c], life) && Can(s, e) && Some(c) != CallerOf(e)
    ensures PhaseKept(After(s, e), s.callers[c], life)
  {
    if (e.Mint? || e.ComeToNothing?) && Inside(s.callers[c]) {
      InsideIsAlone(s, c, e.c);
    }
  }

  lemma ExchangesAreKept(s: State, e: Event, life: int)
    requires Kept(s, life) && Can(s, e)
    requires e.Mint? ==> e.minted.expiresAt - s.now >= life
    ensures Remembered(After(s, e), life) && Spaced(After(s, e).exchanges, life)
  {
    if e.Mint? || e.ComeToNothing? {
      assert PhaseKept(s, s.callers[e.c], life);
    }
  }

  lemma StepIsKept(s: State, e: Event, life: int)
    requires OnePermit(s) && Kept(s, life) && Can(s, e) && life > REPLACEMENT_LEAD_TIME
    requires e.Mint? ==> e.minted.expiresAt - s.now >= life
    ensures Kept(After(s, e), life)
  {
    var t := After(s, e);
    ExchangesAreKept(s, e, life);
    forall c | c in t.callers ensures PhaseKept(t, t.callers[c], life) {
      if Some(c) == CallerOf(e) {
        OwnPhaseIsKept(s, e, life);
      } else {
        OtherPhaseIsKept(s, e, c, life);
      }
    }
  }

  lemma {:induction false} RunIsKept(run: Run, life: int)
    requires IsRun(run) && life > REPLACEMENT_LEAD_TIME && TokensLast(run, life)
    ensures Kept(StateOf(run), life)
  {
    if run.Then? {
      RunIsKept(run.past, life);
      RunKeepsOnePermit(run.past);
      StepIsKept(StateOf(run.past), run.event, life);
    }
  }

  lemma {:induction false} SpacedApart(exchanges: seq<Exchange>, life: int, i: nat, j: nat)
    requires Spaced(exchanges, life) && i <= j < |exchanges| && life > REPLACEMENT_LEAD_TIME
    ensures exchanges[j].start - exchanges[i].start >= (j - i) * Apart(life)
    decreases j - i
  {
    if i < j {
      SpacedApart(exchanges, life, i, j - 1);
      assert (j - i) * Apart(life) == (j - 1 - i) * Apart(life) + Apart(life);
    }
  }

  /** Whatever the number of callers and however they interleave, an exchange that its caller does not
      cancel starts a pause or a token's useful life after the one before it ended. */
  lemma ExchangesAreSpaced(run: Run, life: int, i: nat)
    requires IsRun(run) && life > REPLACEMENT_LEAD_TIME && TokensLast(run, life)
    requires 0 < i < |StateOf(run).exchanges|
    ensures StateOf(run).exchanges[i].start
            >= StateOf(run).exchanges[i - 1].end + Apart(life) >= StateOf(run).exchanges[i - 1].start + Apart(life)
  {
    RunIsKept(run, life);
  }

  /** So the exchanges from the `i`th to the `j`th that start within a span are no more than fit in it. */
  lemma ExchangesFitTheSpan(run: Run, life: int, i: nat, j: nat, span: nat)
    requires IsRun(run) && life > REPLACEMENT_LEAD_TIME && TokensLast(run, life)
    requires i <= j < |StateOf(run).exchanges|
    requires StateOf(run).exchanges[j].start - StateOf(run).exchanges[i].start <= span
    ensures j - i + 1 <= span / Apart(life) + 1
  {
    RunIsKept(run, life);
    SpacedApart(StateOf(run).exchanges, life, i, j);
    DividesOut(j - i, Apart(life), span);
  }

  lemma DividesOut(n: nat, d: int, span: nat)
    requires d > 0 && n * d <= span
    ensures n <= span / d
  {
    var q := span / d;
    assert span < (q + 1) * d;
    TimesKeepsOrder(q + 1, if n > q then n else q + 1, d);
  }

  lemma TimesKeepsOrder(m: nat, n: nat, d: nat)
    requires m <= n
    ensures m * d <= n * d
  {}

  /** What a fruitless exchange leaves behind it, until the next that runs to its end. */
  predicate Paused(s: State) {
    s.exchanges != [] ==>
      var last := s.exchanges[|s.exchanges| - 1];
      last.fruitless ==> s.earliestNext == last.end + RETRY_DELAY
  }

  lemma StepKeepsThePause(s: State, e: Event)
    requires Can(s, e) && Paused(s)
    ensures Paused(After(s, e))
  {}

  lemma {:induction false} RunKeepsThePause(run: Run)
    requires IsRun(run)
    ensures Paused(StateOf(run))
  {
    if run.Then? {
      RunKeepsThePause(run.past);
      StepKeepsThePause(StateOf(run.past), run.event);
    }
  }

  /** A caller that reaches the lock within the pause after a fruitless exchange leaves with nothing, or with
      a token, but without an exchange of its own; however long any token lasts. */
  lemma NoExchangeDuringThePause(run: Run)
    requires IsRun(run) && run.Then?
    requires StateOf(run.past).exchanges != []
    requires var s := StateOf(run.past); var last := s.exchanges[|s.exchanges| - 1];
             last.fruitless && s.now < last.end + RETRY_DELAY
    ensures run.event.Begin? ==> StateOf(run).callers[run.event.c] == Leaving(Nothing)
    ensures !run.event.Begin? ==> NobodyBegins(StateOf(run.past), StateOf(run))
  {
    RunKeepsThePause(run.past);
    if !run.event.Begin? {
      OnlyBeginBegins(StateOf(run.past), run.event);
    }
  }

  ghost predicate NobodyBegins(s: State, t: State) {
    forall c :: c in t.callers && t.callers[c].Minting? ==> c in s.callers && s.callers[c].Minting?
  }

  lemma OnlyBeginBegins(s: State, e: Event)
    requires Can(s, e) && !e.Begin?
    ensures NobodyBegins(s, After(s, e))
  {}

  // ---- tokens that do not last ----

  /** So many exchanges, one caller after another and all at one instant, each for a token that is stored with
      this much left. */
  ghost predicate AtOnce(run: Run, n: nat, left: int) {
    && IsRun(run) && TokensLast(run, left)
    && var s := StateOf(run);
    && s.now == 0 && s.earliestNext == 0 && s.permits == 1
    && (forall c :: c in s.callers ==> c < n)
    && (s.held.Some? ==> s.held.value.expiresAt == left)
    && |s.exchanges| == n && forall i :: 0 <= i < n ==> s.exchanges[i] == Exchange(0, 0, false)
  }

  lemma OneMoreEvent(run: Run, e: Event, left: int) returns (longer: Run)
    requires IsRun(run) && TokensLast(run, left) && Can(StateOf(run), e)
    requires e.Mint? ==> e.minted.expiresAt - StateOf(run).now >= left
    ensures IsRun(longer) && TokensLast(longer, left) && StateOf(longer) == After(StateOf(run), e)
  {
    longer := Then(run, e);
  }

  /** A caller that finds nothing usable comes to wait for the permit. */
  lemma OneMoreWaits(run: Run, n: nat, left: int) returns (longer: Run)
    requires AtOnce(run, n, left) && left <= REPLACEMENT_LEAD_TIME
    ensures IsRun(longer) && TokensLast(longer, left) && StateOf(longer) == At(StateOf(run), n, Waiting)
  {
    longer := OneMoreEvent(run, Call(n), left);
    longer := OneMoreEvent(longer, Check(n), left);
    assert StateOf(longer).callers == StateOf(run).callers[n := Waiting];
  }

  /** And, having it, to the exchange. */
  lemma OneMoreBegins(run: Run, n: nat, left: int) returns (longer: Run)
    requires AtOnce(run, n, left) && left <= REPLACEMENT_LEAD_TIME
    ensures IsRun(longer) && TokensLast(longer, left)
    ensures StateOf(longer) == At(StateOf(run).(permits := 0), n, Minting(0))
  {
    longer := OneMoreWaits(run, n, left);
    longer := OneMoreEvent(longer, Acquire(n), left);
    longer := OneMoreEvent(longer, Recheck(n), left);
    longer := OneMoreEvent(longer, Begin(n), left);
    assert StateOf(longer).callers == StateOf(run).callers[n := Minting(0)];
  }

  /** A life of more than the lead time is what the spacing needs: of tokens stored with no more than that left,
      any number is exchanged for within no time at all. */
  lemma {:induction false} ShortTokensAreExchangedForAtOnce(n: nat, left: int) returns (run: Run)
    requires left <= REPLACEMENT_LEAD_TIME
    ensures AtOnce(run, n, left)
  {
    run := Start(0);
    if n > 0 {
      run := ShortTokensAreExchangedForAtOnce(n - 1, left);
      run := OneMoreBegins(run, n - 1, left);
      run := OneMoreEvent(run, Mint(n - 1, HeldToken("", left)), left);
      run := OneMoreEvent(run, Release(n - 1), left);
    }
  }

  // ---- what is served ----

  predicate ServedFresh(s: State) {
    forall i :: 0 <= i < |s.served| ==> s.served[i].held.expiresAt - s.served[i].at > REPLACEMENT_LEAD_TIME
  }

  lemma StepServesFresh(s: State, e: Event)
    requires Can(s, e) && ServedFresh(s)
    ensures ServedFresh(After(s, e))
  {}

  /** Every token served from what is held had more than the lead time left when it was looked at. */
  lemma {:induction false} ServedTokensHaveTimeLeft(run: Run)
    requires IsRun(run)
    ensures ServedFresh(StateOf(run))
  {
    if run.Then? {
      ServedTokensHaveTimeLeft(run.past);
      StepServesFresh(StateOf(run.past), run.event);
    }
  }
}
