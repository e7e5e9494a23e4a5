/** Who can tell that a record was evicted: exactly the address it mattered to. */
module CodeEviction {
  import opened Text
  import opened AddressCodes
  import opened CodeHistory
  import CodesAnHour
  import opened CodeStore
  import opened CodeRuns

  /** The one run goes on as the other, with calls for this address alone, in the order of their clock, which
      they read from this instant on.  It may be earlier than that of the calls before. */
  ghost predicate GoesOnAs(run: Run, longer: Run, key: string, from: int)
    decreases longer
  {
    longer == run
    || (&& longer.Next? && GoesOnAs(run, longer.past, key, from)
        && longer.step.event.key == key && StepOk(State(longer.past), longer.step) && from <= Instant(longer.step)
        && (longer.past != run && longer.past.Next? ==> Instant(longer.past.step) <= Instant(longer.step)))
  }

  lemma {:induction false} StillARun(run: Run, longer: Run, key: string, from: int)
    requires IsRun(run) && GoesOnAs(run, longer, key, from)
    ensures IsRun(longer)
    ensures RunClocked(run) && (run.Next? ==> Instant(run.step) <= from) ==> RunClocked(longer)
    decreases longer
  {
    if longer != run {
      StillARun(run, longer.past, key, from);
    }
  }

  // ---- going on ----

  lemma {:induction false} OldestThereIs(s: Store) returns (victim: string)
    requires s.Keys != {}
    ensures Oldest(s, victim)
    decreases |s|
  {
    var k :| k in s;
    var rest := s - {k};
    assert s.Keys == rest.Keys + {k};
    if rest.Keys == {} {
      victim := k;
    } else {
      var other := OldestThereIs(rest);
      victim := if s[k].openedAt <= s[other].openedAt then k else other;
      forall j | j in s ensures s[victim].openedAt <= s[j].openedAt {
        assert j == k || j in rest;
      }
    }
  }

  lemma RoomCanBeMade(before: Store, now: int) returns (roomed: Store)
    ensures RoomMade(before, now, roomed)
  {
    roomed := before;
    if |before| >= MOST_ADDRESSES_HELD {
      roomed := Swept(before, now);
      if |roomed| >= MOST_ADDRESSES_HELD {
        var victim := OldestThereIs(roomed);
        roomed := roomed - {victim};
      }
    }
  }

  /** Any call can be made of any store. */
  lemma CallCanBeMade(before: Store, key: string, call: Timed) returns (step: Step)
    ensures StepOk(before, step) && step.event == Event(key, call)
  {
    var roomed := before;
    if call.act.Ask? && Reopens(Lookup(before, key), call.now) {
      roomed := RoomCanBeMade(before, call.now);
    }
    var served := Serve(Lookup(before, key), call);
    step := Step(Event(key, call), roomed, if served.0.None? then roomed else roomed[key := served.0.value], served.1);
  }

  /** The run has gone on with the first `n` calls of two histories: the store answered them as in the one, the
      ledger as in the other. */
  ghost predicate Replayed(run: Run, longer: Run, key: string, from: int, g: seq<Entry>, h: seq<Entry>, n: nat)
    requires n <= |g| && n <= |h|
  {
    && GoesOnAs(run, longer, key, from) && IsRun(longer)
    && (n > 0 ==> longer.Next? && Instant(longer.step) == g[n - 1].call.now)
    && Lookup(State(longer), key) == Before(Lookup(State(run), key), g, n)
    && Replies(longer, key) == Replies(run, key) + LedgerReplies(g[..n])
    && Ledger(longer, key) == Ledger(run, key) + h[..n]
  }

  lemma RepliesGrow(run: Run, shorter: Run, step: Step, key: string, g: seq<Entry>, n: nat)
    requires n < |g| && Replies(shorter, key) == Replies(run, key) + LedgerReplies(g[..n])
    requires step.event.key == key && step.reply == g[n].reply
    ensures Replies(Next(shorter, step), key) == Replies(run, key) + LedgerReplies(g[..n + 1])
  {
    assert LedgerReplies(g[..n + 1]) == LedgerReplies(g[..n]) + [g[n].reply];
  }

  lemma LedgerGrows(run: Run, shorter: Run, step: Step, key: string, h: seq<Entry>, n: nat)
    requires n < |h| && IsHistory(LedgerHeld(run, key), h) && Ledger(shorter, key) == Ledger(run, key) + h[..n]
    requires step.event == Event(key, h[n].call)
    ensures Ledger(Next(shorter, step), key) == Ledger(run, key) + h[..n + 1]
  {
    var ledger := Ledger(run, key);
    assert FollowsAt(LedgerHeld(run, key), h, n);
    assert Held(ledger + h[..n], |ledger| + n) == Before(LedgerHeld(run, key), h, n);
    assert ledger + h[..n] + [h[n]] == ledger + h[..n + 1];
  }

  lemma OneMoreReplayed(run: Run, shorter: Run, step: Step, key: string, from: int, g: seq<Entry>, h: seq<Entry>,
                        n: nat)
    requires n < |g| && IsHistory(Lookup(State(run), key), g) && IsHistory(LedgerHeld(run, key), h)
    requires SameCalls(g, h) && ClockedFrom(from, g) && Replayed(run, shorter, key, from, g, h, n)
    requires (n == 0 ==> shorter == run) && StepOk(State(shorter), step) && step.event == Event(key, g[n].call)
    ensures Replayed(run, Next(shorter, step), key, from, g, h, n + 1)
  {
    ServedIsHeld(State(shorter), step);
    assert FollowsAt(Lookup(State(run), key), g, n);
    RepliesGrow(run, shorter, step, key, g, n);
    LedgerGrows(run, shorter, step, key, h, n);
  }

  /** The calls of a history can be made of the store, and are answered as in that history; while the ledger
      answers them as in another, where it holds something else. */
  lemma {:induction false} Replay(run: Run, key: string, from: int, g: seq<Entry>, h: seq<Entry>, n: nat)
    returns (longer: Run)
    requires IsRun(run) && n <= |g|
    requires IsHistory(Lookup(State(run), key), g) && IsHistory(LedgerHeld(run, key), h)
    requires SameCalls(g, h) && ClockedFrom(from, g)
    ensures Replayed(run, longer, key, from, g, h, n)
    ensures n == 0 ==> longer == run
  {
    longer := run;
    if n > 0 {
      var shorter := Replay(run, key, from, g, h, n - 1);
      var step := CallCanBeMade(State(shorter), key, g[n - 1].call);
      OneMoreReplayed(run, shorter, step, key, from, g, h, n - 1);
      longer := Next(shorter, step);
    }
  }

  // ---- who can tell ----

  /** Some calls for this address alone, made from this instant on, are answered otherwise than by a store that
      never removes anything. */
  ghost predicate CanBeTold(run: Run, key: string, from: int) {
    exists longer :: GoesOnAs(run, longer, key, from) && Replies(longer, key) != LedgerReplies(Ledger(longer, key))
  }

  /** The address's record is gone and would matter. */
  ghost predicate Missed(run: Run, key: string, from: int) {
    key !in State(run) && LedgerHeld(run, key).Some? && Matters(LedgerHeld(run, key).value, from)
  }

  lemma MissedIsTold(run: Run, key: string, from: int)
    requires IsRun(run) && Replies(run, key) == LedgerReplies(Ledger(run, key)) && Missed(run, key, from)
    ensures CanBeTold(run, key, from)
  {
    var r := LedgerHeld(run, key).value;
    ForgettingIsInvisibleExactlyWhen(r, from);
    var g, h :| IsHistory(None, g) && IsHistory(Some(r), h) && SameCalls(g, h) && ClockedFrom(from, g)
        && !SameReplies(g, h);
    var longer := Replay(run, key, from, g, h, |g|);
    assert g[..|g|] == g && h[..|h|] == h;
    RepliesDiffer(Replies(run, key), Ledger(run, key), g, h);
  }

  lemma RepliesDiffer(replies: seq<Reply>, ledger: seq<Entry>, g: seq<Entry>, h: seq<Entry>)
    requires replies == LedgerReplies(ledger) && |g| == |h| && !SameReplies(g, h)
    ensures replies + LedgerReplies(g) != LedgerReplies(ledger + h)
  {
    var i :| 0 <= i < |g| && g[i].reply != h[i].reply;
    assert (replies + LedgerReplies(g))[|ledger| + i] == g[i].reply;
    assert LedgerReplies(ledger + h)[|ledger| + i] == h[i].reply;
  }

  /** What agrees goes on agreeing, whatever the address calls from then on. */
  lemma {:induction false} NothingIsTold(run: Run, longer: Run, key: string, from: int)
    requires IsRun(run) && GoesOnAs(run, longer, key, from)
    requires Agrees(Lookup(State(run), key), LedgerHeld(run, key), from)
    requires Replies(run, key) == LedgerReplies(Ledger(run, key))
    ensures Agrees(Lookup(State(longer), key), LedgerHeld(longer, key), from)
    ensures Replies(longer, key) == LedgerReplies(Ledger(longer, key))
    decreases longer
  {
    if longer != run {
      NothingIsTold(run, longer.past, key, from);
      AgreementIsKept(Lookup(State(longer.past), key), LedgerHeld(longer.past, key), from, longer.step.event.timed);
      ServedIsHeld(State(longer.past), longer.step);
    }
  }

  /** Where nothing was forgotten before the last step, the record is as in the ledger, or is gone. */
  lemma HeldOrGone(run: Run, key: string)
    requires IsRun(run) && InStep(run, key) && (run.Next? ==> NeverForgotten(run.past, key))
    ensures Lookup(State(run), key) == LedgerHeld(run, key) || (key !in State(run) && LedgerHeld(run, key).Some?)
    ensures Replies(run, key) == LedgerReplies(Ledger(run, key))
  {
    if NeverForgotten(run, key) {
      LedgerAgrees(run, key);
    } else {
      LedgerAgrees(run.past, key);
      CapIsKept(run.past);
      OthersAreUntouched(State(run.past), run.step, key);
    }
  }

  /** In whatever order calls are served, and whatever the last step removed: calls of an address that read the
      clock from an instant on can tell that its record is gone exactly when it would matter at that instant. */
  lemma RemovalShowsExactlyWhen(run: Run, key: string, from: int)
    requires IsRun(run) && InStep(run, key) && (run.Next? ==> NeverForgotten(run.past, key))
    ensures CanBeTold(run, key, from) <==> Missed(run, key, from)
  {
    HeldOrGone(run, key);
    if Missed(run, key, from) {
      MissedIsTold(run, key, from);
    } else {
      forall longer | GoesOnAs(run, longer, key, from)
        ensures Replies(longer, key) == LedgerReplies(Ledger(longer, key))
      {
        NothingIsTold(run, longer, key, from);
      }
    }
  }

  /** Where nothing was forgotten before and calls are served in order, a step can be told from one of a store
      that never removes anything exactly when it removes a record that still matters to its address. */
  lemma EvictionShowsExactlyWhenItForgets(run: Run, key: string)
    requires IsRun(run) && RunClocked(run) && run.Next? && NeverForgotten(run.past, key)
    ensures CanBeTold(run, key, Instant(run.step)) <==> Forgets(State(run.past), run.step, key)
  {
    ClockedIsInStep(run, key);
    RemovalShowsExactlyWhen(run, key, Instant(run.step));
    LedgerAgrees(run.past, key);
    CapIsKept(run.past);
    if Forgets(State(run.past), run.step, key) {
      OthersAreUntouched(State(run.past), run.step, key);
    } else {
      LedgerAgrees(run, key);
    }
  }

  // ---- that it happens ----

  /** As many addresses as there are lengths. */
  function Letters(n: nat): string {
    seq(n, _ => 'a')
  }

  function AskedAtOnce(): Record {
    Record(Some("000000"), VALID_FOR, ANSWERS_ALLOWED, 1, 0)
  }

  /** Nothing that mattered was removed, and the calls came in order. */
  ghost predicate AllThere(run: Run) {
    && IsRun(run) && RunClocked(run) && NeverCrowded(run)
    && Addresses(run) == State(run).Keys
    && forall key :: NeverForgotten(run, key)
  }

  /** This many addresses that were each sent a code at once. */
  ghost predicate Crowded(run: Run, n: nat) {
    && AllThere(run) && |State(run)| == n
    && (run.Next? ==> Instant(run.step) == 0)
    && forall k :: k in State(run) ==> |k| < n && State(run)[k] == AskedAtOnce()
  }

  lemma AsksAtOnce(before: Store, key: string, step: Step)
    requires key !in before && StepOk(before, step) && step.event == Event(key, At(0, Ask("000000")))
    ensures RoomMade(before, 0, step.roomed) && step.after == step.roomed[key := AskedAtOnce()]
  {}

  /** A call that nothing is removed for. */
  lemma OneMoreThere(run: Run, step: Step)
    requires AllThere(run) && StepOk(State(run), step) && step.roomed == State(run) && step.event.key in step.after
    requires run.Next? ==> Instant(run.step) <= Instant(step)
    requires MakesRoom(State(run), step) ==> |State(run)| < MOST_ADDRESSES_HELD
    ensures AllThere(Next(run, step))
  {
    var now := Instant(step);
    CodesAnHour.Within(LiveAddresses(run, now), State(run).Keys);
    assert step.after.Keys == State(run).Keys + {step.event.key};
    assert forall key :: NeverForgotten(run, key) ==> NeverForgotten(Next(run, step), key);
  }

  lemma {:induction false} CrowdOf(n: nat) returns (run: Run)
    requires n <= MOST_ADDRESSES_HELD
    ensures Crowded(run, n)
  {
    run := Begin;
    if n > 0 {
      var past := CrowdOf(n - 1);
      assert Letters(n - 1) !in State(past);
      var step := CallCanBeMade(State(past), Letters(n - 1), At(0, Ask("000000")));
      AsksAtOnce(State(past), Letters(n - 1), step);
      OneMoreThere(past, step);
      run := Next(past, step);
      OneMoreKept(State(past), Letters(n - 1), AskedAtOnce());
    }
  }

  /** Evictions that show do happen: with the store full of live records, one more address is sent a code, and
      another is answered from then on as it never would be by a store that removes nothing. */
  lemma EvictionShows() returns (run: Run, key: string)
    ensures IsRun(run) && RunClocked(run) && Replies(run, key) != LedgerReplies(Ledger(run, key))
  {
    var n := MOST_ADDRESSES_HELD;
    var past := CrowdOf(n);
    var before := State(past);
    assert Letters(n) !in before;
    var step := CallCanBeMade(before, Letters(n), At(0, Ask("000000")));
    AsksAtOnce(before, Letters(n), step);
    assert Swept(before, 0) == before;
    key :| Oldest(before, key) && step.roomed == before - {key};
    var evicted := Next(past, step);
    assert Forgets(before, step, key);
    EvictionShowsExactlyWhenItForgets(evicted, key);
    run :| GoesOnAs(evicted, run, key, 0) && Replies(run, key) != LedgerReplies(Ledger(run, key));
    StillARun(evicted, run, key, 0);
  }

  // ---- one tick out of step ----

  lemma NoneIsLive(run: Run, now: int)
    requires AllThere(run) && forall k :: k in State(run) ==> Dead(State(run)[k], now)
    ensures LiveAddresses(run, now) == {}
  {
    forall k | k in Addresses(run) ensures LedgerHeld(run, k) == Some(State(run)[k]) {
      ClockedIsInStep(run, k);
      LedgerAgrees(run, k);
    }
  }

  /** A crowd all of whose budgets are over with the hour, one of whom was sent a second code that is accepted
      until then. */
  lemma SentAgain() returns (run: Run, key: string)
    ensures AllThere(run) && run.Next? && Instant(run.step) <= CODE_BUDGET_WINDOW
    ensures |State(run)| == MOST_ADDRESSES_HELD && Letters(MOST_ADDRESSES_HELD) !in State(run) && key in State(run)
    ensures State(run)[key] == Record(Some("111111"), CODE_BUDGET_WINDOW, ANSWERS_ALLOWED, 2, 0)
    ensures forall k :: k in State(run) ==> Dead(State(run)[k], CODE_BUDGET_WINDOW)
  {
    var past := CrowdOf(MOST_ADDRESSES_HELD);
    var before := State(past);
    key :| key in before;
    var step := CallCanBeMade(before, key, At(CODE_BUDGET_WINDOW - VALID_FOR, Ask("111111")));
    OneMoreThere(past, step);
    OneMoreKept(before, key, step.after[key]);
    run := Next(past, step);
  }

  /** The sweep that runs at the end of the hour, for an address that was sent nothing yet. */
  lemma AllAreSwept(past: Run) returns (run: Run)
    requires AllThere(past) && past.Next? && Instant(past.step) <= CODE_BUDGET_WINDOW
    requires |State(past)| == MOST_ADDRESSES_HELD && Letters(MOST_ADDRESSES_HELD) !in State(past)
    requires forall k :: k in State(past) ==> Dead(State(past)[k], CODE_BUDGET_WINDOW)
    ensures IsRun(run) && RunClocked(run) && NeverCrowded(run) && run.Next? && run.past == past
    ensures forall k :: NeverForgotten(run, k)
    ensures State(run).Keys == {Letters(MOST_ADDRESSES_HELD)} && Instant(run.step) == CODE_BUDGET_WINDOW
    ensures run.step.event.key == Letters(MOST_ADDRESSES_HELD)
  {
    var before, now, other := State(past), CODE_BUDGET_WINDOW, Letters(MOST_ADDRESSES_HELD);
    var step := CallCanBeMade(before, other, At(now, Ask("000000")));
    NoneIsLive(past, now);
    assert Swept(before, now) == map[];
    run := Next(past, step);
    assert forall k :: NeverForgotten(past, k) ==> NeverForgotten(run, k);
  }

  /** The sweep does show once two calls change places by one tick, with no crowd and nothing removed that
      mattered then: an answer that read the clock a tick before the sweep, and is served after it, is refused
      where a store that never removes anything accepts it. */
  lemma OneTickOutOfStepShows() returns (run: Run, key: string)
    ensures IsRun(run) && NeverCrowded(run) && (forall k :: NeverForgotten(run, k))
    ensures run.Next? && run.past.Next? && RunClocked(run.past) && Instant(run.step) == Instant(run.past.step) - 1
    ensures run.step.event.key == key && run.step.reply == Refused
    ensures LedgerReplies(Ledger(run, key)) == Replies(run.past, key) + [Accepted]
  {
    var sent, swept;
    sent, key := SentAgain();
    swept := AllAreSwept(sent);
    LedgerStillAccepts(sent, swept, key);
    var step := CallCanBeMade(State(swept), key, At(CODE_BUDGET_WINDOW - 1, Answer(Some("111111"))));
    ServedIsHeld(State(swept), step);
    run := Next(swept, step);
    assert forall k :: NeverForgotten(swept, k) ==> NeverForgotten(run, k);
    var h := Ledger(swept, key);
    assert LedgerReplies(Ledger(run, key)) == LedgerReplies(h) + [Accepted];
  }

  lemma LedgerStillAccepts(sent: Run, swept: Run, key: string)
    requires AllThere(sent) && swept.Next? && swept.past == sent && swept.step.event.key != key && key in State(sent)
    ensures LedgerHeld(swept, key) == Some(State(sent)[key])
    ensures LedgerReplies(Ledger(swept, key)) == Replies(swept, key)
  {
    ClockedIsInStep(sent, key);
    LedgerAgrees(sent, key);
  }
}
