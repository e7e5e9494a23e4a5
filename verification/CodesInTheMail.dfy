/** What each failed mail gives back and what it clears, over every trace of the routes. */
module CodesInTheMail {
  import opened Text
  import opened AddressCodes
  import opened CodeHistory
  import opened CodesAnHour
  import CodeStore
  import opened CodeRuns
  import CodeEviction
  import opened SubmissionTickets
  import opened IntakeRoutes

  ghost function LedgerOf(trace: Trace, key: string): seq<Entry> {
    Ledger(StateOf(trace).codes, key)
  }

  /** The mail that fails here, where it is to this address. */
  ghost predicate FailsFor(s: State, e: IntakeRoutes.Event, key: string) {
    e.MailFailed? && e.id in s.flights && s.flights[e.id].Mailing? && Key(s.flights[e.id].address) == key
  }

  /** For each of the address's calls that takes a code back, the call that sent it: the one whose mail failed. */
  ghost function RefundsIn(trace: Trace, key: string): map<nat, nat> {
    if trace.Start? then map[]
    else if FailsFor(StateOf(trace.past), trace.event, key)
    then RefundsIn(trace.past, key)[|LedgerOf(trace.past, key)| := StateOf(trace.past).flights[trace.event.id].call]
    else RefundsIn(trace.past, key)
  }

  /** What the calls and the mails in flight are to each other. */
  ghost predicate Tracked(h: seq<Entry>, of: map<nat, nat>, flights: map<nat, Flight>, key: string) {
    && Refunds(h, of)
    && (forall j :: j in of ==> j < |h| && h[j].call.act.TakeBack?)
    && (forall id :: id in flights && IsMailTo(flights[id], key) ==> InFlight(h, of, flights[id].call))
    && forall i, j :: i in flights && j in flights && i != j && IsMailTo(flights[i], key) && IsMailTo(flights[j], key)
         ==> flights[i].call != flights[j].call
  }

  predicate IsMailTo(f: Flight, key: string) {
    f.Mailing? && Key(f.address) == key
  }

  /** Sent, and not taken back. */
  ghost predicate InFlight(h: seq<Entry>, of: map<nat, nat>, call: nat) {
    call < |h| && h[call].reply.Sent? && forall j :: j in of ==> of[j] != call
  }

  lemma OtherCallsKeep(h: seq<Entry>, of: map<nat, nat>, flights: map<nat, Flight>, key: string, e: Entry)
    requires Tracked(h, of, flights, key) && !e.call.act.TakeBack?
    ensures Tracked(h + [e], of, flights, key)
  {
    forall id | id in flights && IsMailTo(flights[id], key) ensures InFlight(h + [e], of, flights[id].call) {
      assert InFlight(h, of, flights[id].call);
    }
  }

  lemma FewerFlightsKeep(h: seq<Entry>, of: map<nat, nat>, flights: map<nat, Flight>, fewer: map<nat, Flight>,
                         key: string)
    requires Tracked(h, of, flights, key)
    requires forall id :: id in fewer && IsMailTo(fewer[id], key) ==> id in flights && fewer[id] == flights[id]
    ensures Tracked(h, of, fewer, key)
  {}

  lemma SendingKeeps(h: seq<Entry>, of: map<nat, nat>, flights: map<nat, Flight>, key: string, e: Entry, id: nat,
                     f: Flight)
    requires Tracked(h, of, flights, key) && e.reply.Sent? && !e.call.act.TakeBack?
    requires id !in flights && f.Mailing? && f.call == |h|
    ensures Tracked(h + [e], of, flights[id := f], key)
  {
    OtherCallsKeep(h, of, flights, key, e);
    assert InFlight(h + [e], of, |h|);
    forall i | i in flights && IsMailTo(flights[i], key) ensures flights[i].call < |h| {
      assert InFlight(h, of, flights[i].call);
    }
  }

  lemma RefundsGain(h: seq<Entry>, of: map<nat, nat>, e: Entry, call: nat)
    requires Refunds(h, of) && (forall j :: j in of ==> j < |h| && h[j].call.act.TakeBack?)
    requires e.call.act.TakeBack? && InFlight(h, of, call)
    ensures Refunds(h + [e], of[|h| := call])
  {
    var g, now := h + [e], of[|h| := call];
    forall j | 0 <= j < |g| && g[j].call.act.TakeBack? ensures j in now && now[j] < j && g[now[j]].reply.Sent? {
      if j < |h| {
        assert h[j] == g[j];
      }
    }
    forall j, k | 0 <= j < k < |g| && g[j].call.act.TakeBack? && g[k].call.act.TakeBack? && j in now && k in now
      ensures now[j] != now[k]
    {
      assert h[j] == g[j];
      if k < |h| {
        assert h[k] == g[k];
      }
    }
  }

  lemma FailingKeeps(h: seq<Entry>, of: map<nat, nat>, flights: map<nat, Flight>, key: string, e: Entry, id: nat)
    requires Tracked(h, of, flights, key) && e.call.act.TakeBack?
    requires id in flights && IsMailTo(flights[id], key)
    ensures Tracked(h + [e], of[|h| := flights[id].call], flights - {id}, key)
  {
    var call := flights[id].call;
    var g, now := h + [e], of[|h| := call];
    assert InFlight(h, of, call);
    RefundsGain(h, of, e, call);
    forall i | i in flights - {id} && IsMailTo(flights[i], key) ensures InFlight(g, now, flights[i].call) {
      assert InFlight(h, of, flights[i].call);
    }
  }

  /** The codes of a trace make a clocked run. */
  ghost predicate CodesRun(s: State) {
    CodeStore.IsRun(s.codes) && RunClocked(s.codes) && (s.codes.Next? ==> CodeRuns.Instant(s.codes.step) <= s.now)
  }

  lemma {:induction false} TraceRuns(keyed: Keyed, trace: Trace)
    requires IsTrace(keyed, trace)
    ensures CodesRun(StateOf(trace))
  {
    if trace.Then? {
      TraceRuns(keyed, trace.past);
    }
  }

  /** The ledger's last entry is the run's last call of the address, with the reply the run gave. */
  lemma LastReply(run: CodeStore.Run, key: string)
    requires CodeStore.IsRun(run) && RunClocked(run) && NeverForgotten(run, key) && run.Next?
             && run.step.event.key == key
    ensures var h := Ledger(run, key);
            h == Ledger(run.past, key) + [h[|h| - 1]] && h[|h| - 1].call == run.step.event.timed
            && h[|h| - 1].reply == run.step.reply
  {
    ClockedIsInStep(run, key);
    LedgerAgrees(run, key);
    LedgerAgrees(run.past, key);
    assert Replies(run, key)[|Replies(run.past, key)|] == run.step.reply;
  }

  /** A verification that sends a code puts its mail in flight. */
  lemma VerifyIsTracked(s: State, t: State, of: map<nat, nat>, id: nat, address: string, step: CodeStore.Step,
                        key: string)
    requires Tracked(Ledger(s.codes, key), of, s.flights, key) && id !in s.flights
    requires CodesRun(t) && NeverForgotten(t.codes, key) && t.codes == CodeStore.Next(s.codes, step)
    requires step.event.key == Key(address) && step.event.timed.act.Ask?
    requires t.flights == if step.reply.Sent? then s.flights[id := MailedTo(s, address)] else s.flights
    ensures Tracked(Ledger(t.codes, key), of, t.flights, key)
  {
    var h := Ledger(s.codes, key);
    if Key(address) != key {
      FewerFlightsKeep(h, of, s.flights, t.flights, key);
    } else {
      LastReply(t.codes, key);
      var e := Ledger(t.codes, key)[|h|];
      if step.reply.Sent? {
        SendingKeeps(h, of, s.flights, key, e, id, MailedTo(s, address));
      } else {
        OtherCallsKeep(h, of, s.flights, key, e);
      }
    }
  }

  /** A mail that fails takes its own code back. */
  lemma FailureIsTracked(s: State, t: State, of: map<nat, nat>, id: nat, step: CodeStore.Step, key: string)
    requires Tracked(Ledger(s.codes, key), of, s.flights, key) && id in s.flights && s.flights[id].Mailing?
    requires t.codes == CodeStore.Next(s.codes, step) && t.flights == s.flights - {id}
    requires step.event.key == Key(s.flights[id].address) && step.event.timed.act.TakeBack?
    ensures Tracked(Ledger(t.codes, key),
                    if IsMailTo(s.flights[id], key) then of[|Ledger(s.codes, key)| := s.flights[id].call] else of,
                    t.flights, key)
  {
    var h := Ledger(s.codes, key);
    if IsMailTo(s.flights[id], key) {
      FailingKeeps(h, of, s.flights, key, Ledger(t.codes, key)[|h|], id);
    } else {
      FewerFlightsKeep(h, of, s.flights, t.flights, key);
    }
  }

  /** Any other step puts no mail in flight and takes nothing back. */
  lemma OthersAreTracked(s: State, t: State, of: map<nat, nat>, key: string)
    requires Tracked(Ledger(s.codes, key), of, s.flights, key)
    requires t.codes == s.codes || (t.codes.Next? && t.codes.past == s.codes && !t.codes.step.event.timed.act.TakeBack?)
    requires forall id :: id in t.flights && IsMailTo(t.flights[id], key) ==>
               id in s.flights && t.flights[id] == s.flights[id]
    ensures Tracked(Ledger(t.codes, key), of, t.flights, key)
  {
    var h := Ledger(s.codes, key);
    if t.codes != s.codes && t.codes.step.event.key == key {
      OtherCallsKeep(h, of, s.flights, key, Ledger(t.codes, key)[|h|]);
    }
    FewerFlightsKeep(Ledger(t.codes, key), of, s.flights, t.flights, key);
  }

  lemma StepIsTracked(keyed: Keyed, trace: Trace, key: string)
    requires IsTrace(keyed, trace) && trace.Then? && NeverForgotten(StateOf(trace).codes, key)
    requires Tracked(LedgerOf(trace.past, key), RefundsIn(trace.past, key), StateOf(trace.past).flights, key)
    ensures Tracked(LedgerOf(trace, key), RefundsIn(trace, key), StateOf(trace).flights, key)
  {
    var s, t, of := StateOf(trace.past), StateOf(trace), RefundsIn(trace.past, key);
    TraceRuns(keyed, trace);
    match trace.event
    case Verify(id, address, step) => VerifyIsTracked(s, t, of, id, address, step, key);
    case MailFailed(id, step) => FailureIsTracked(s, t, of, id, step, key);
    case _ => OthersAreTracked(s, t, of, key);
  }

  /** Every place given back in a budget is that of a code sent to that address before, the one whose mail failed,
      and is given back once; so what is given back is matched to what was sent, and nothing need be supposed of
      it.  This is of the budget only: the code that is cleared may be another. */
  lemma {:induction false} EveryRefundIsMatched(keyed: Keyed, trace: Trace, key: string)
    requires IsTrace(keyed, trace) && NeverForgotten(StateOf(trace).codes, key)
    ensures Tracked(LedgerOf(trace, key), RefundsIn(trace, key), StateOf(trace).flights, key)
    ensures Refunds(LedgerOf(trace, key), RefundsIn(trace, key))
  {
    if trace.Then? {
      EveryRefundIsMatched(keyed, trace.past, key);
      StepIsTracked(keyed, trace, key);
    }
  }

  // ---- how many stand ----

  /** The hour the code's budget opened has not run out. */
  predicate InTime(h: seq<Entry>, call: nat, now: int) {
    SentAt(h, call) && now < PeriodOf(h, call) + CODE_BUDGET_WINDOW
  }

  /** Every mail to this address that fails does so inside its own budget period. */
  ghost predicate MailsFailInTime(trace: Trace, key: string) {
    trace.Then? ==>
      && MailsFailInTime(trace.past, key)
      && (FailsFor(StateOf(trace.past), trace.event, key) ==>
            InTime(LedgerOf(trace.past, key), StateOf(trace.past).flights[trace.event.id].call, trace.now))
  }

  lemma InTimeIsNotLate(h: seq<Entry>, call: nat)
    requires Played(h) && call < |h| - 1 && InTime(h, call, h[|h| - 1].call.now)
    ensures h[|h| - 1].after.Some? && PeriodOf(h, |h| - 1) == PeriodOf(h, call)
  {
    PeriodsAreApart(h, call, |h| - 1);
    var k := OpenerOf(h, |h|);
    assert h[k].call.now <= h[|h| - 1].call.now;
  }

  lemma LateBefore(h: seq<Entry>, of: map<nat, nat>, g: seq<Entry>, now: map<nat, nat>)
    requires h <= g && |g| <= |h| + 1 && Late(h, of) == {} && Refunds(h, of)
    requires forall j :: 0 <= j < |h| && h[j].call.act.TakeBack? ==> j in now && now[j] == of[j]
    requires |g| == |h| + 1 ==> !IsLate(g, now, |h|)
    ensures Late(g, now) == {}
  {
    forall j | 0 <= j < |h| ensures !IsLate(g, now, j) {
      assert j !in Late(h, of);
      assert h[j] == g[j];
      if h[j].call.act.TakeBack? {
        assert g[of[j]] == h[of[j]];
      }
    }
  }

  lemma {:induction false} NothingIsLate(keyed: Keyed, trace: Trace, key: string)
    requires IsTrace(keyed, trace) && NeverForgotten(StateOf(trace).codes, key) && MailsFailInTime(trace, key)
    ensures Late(LedgerOf(trace, key), RefundsIn(trace, key)) == {}
  {
    if trace.Then? {
      NothingIsLate(keyed, trace.past, key);
      EveryRefundIsMatched(keyed, trace.past, key);
      TraceRuns(keyed, trace);
      var h, g := LedgerOf(trace.past, key), LedgerOf(trace, key);
      LedgerIsPlayed(StateOf(trace).codes, key);
      LedgerStep(keyed, trace, key);
      if FailsFor(StateOf(trace.past), trace.event, key) {
        InTimeIsNotLate(g, StateOf(trace.past).flights[trace.event.id].call);
      }
      LateBefore(h, RefundsIn(trace.past, key), g, RefundsIn(trace, key));
    }
  }

  /** What one step adds to the ledger of an address. */
  lemma LedgerStep(keyed: Keyed, trace: Trace, key: string)
    requires IsTrace(keyed, trace) && trace.Then?
    ensures var h, g := LedgerOf(trace.past, key), LedgerOf(trace, key);
            && h <= g && |g| <= |h| + 1
            && (|g| == |h| + 1 ==>
                  g[|h|].call.now == trace.now
                  && (g[|h|].call.act.TakeBack? <==> FailsFor(StateOf(trace.past), trace.event, key)))
            && (FailsFor(StateOf(trace.past), trace.event, key) ==> |g| == |h| + 1)
  {}

  /** Over every trace, whatever mails fail and whenever: the codes that stand of an hour are no more than six
      and as many as were taken back after their own budget period. */
  lemma StandingOfAnHour(keyed: Keyed, trace: Trace, key: string, a: int)
    requires IsTrace(keyed, trace) && NeverForgotten(StateOf(trace).codes, key)
    ensures var h, of := LedgerOf(trace, key), RefundsIn(trace, key);
            && CodesInHour(StateOf(trace).codes, key, a) - |TakenBackOfHour(h, of, a)| == |StandInHour(h, of, a)|
            && |StandInHour(h, of, a)| <= 6 + |Late(h, of)|
            && (MailsFailInTime(trace, key) ==> |StandInHour(h, of, a)| <= 6)
  {
    TraceRuns(keyed, trace);
    EveryRefundIsMatched(keyed, trace, key);
    LedgerIsPlayed(StateOf(trace).codes, key);
    ClockedIsInStep(StateOf(trace).codes, key);
    AtMostSixAndTheLateStandOfAnHour(StateOf(trace).codes, key, RefundsIn(trace, key), a);
    if MailsFailInTime(trace, key) {
      NothingIsLate(keyed, trace, key);
    }
  }

  // ---- whose code a failed mail clears ----

  /** A mail that fails gives its code's place in the budget back, and clears that code exactly when it has not
      been replaced, accepted or cleared since; otherwise it clears a later one, if one is held. */
  lemma AFailedMailClearsExactlyWhenUnspent(keyed: Keyed, trace: Trace, key: string)
    requires IsTrace(keyed, trace) && trace.Then? && NeverForgotten(StateOf(trace).codes, key)
    requires FailsFor(StateOf(trace.past), trace.event, key)
    ensures var h, call := LedgerOf(trace, key), StateOf(trace.past).flights[trace.event.id].call;
            var n := |LedgerOf(trace.past, key)|;
            && call < n == |h| - 1 && CodeFrom(h, n + 1) == None
            && (CodeFrom(h, n) == Some(call) <==> Unspent(h, call, n))
            && (CodeFrom(h, n).Some? && !Unspent(h, call, n) ==> call < CodeFrom(h, n).value)
  {
    var h, n := LedgerOf(trace, key), |LedgerOf(trace.past, key)|;
    var call := StateOf(trace.past).flights[trace.event.id].call;
    EveryRefundIsMatched(keyed, trace.past, key);
    assert InFlight(LedgerOf(trace.past, key), RefundsIn(trace.past, key), call);
    TraceRuns(keyed, trace);
    LedgerIsPlayed(StateOf(trace).codes, key);
    LedgerStep(keyed, trace, key);
    WhichCodeIsCleared(h, call, n);
  }

  lemma OneMoreEvent(keyed: Keyed, past: Trace, e: IntakeRoutes.Event) returns (trace: Trace)
    requires IsTrace(keyed, past) && StateOf(past).now == 0 && Can(keyed, StateOf(past), 0, e)
    ensures IsTrace(keyed, trace) && trace == Then(past, 0, e, After(keyed, StateOf(past), 0, e))
    ensures StateOf(trace).now == 0
  {
    trace := Then(past, 0, e, After(keyed, StateOf(past), 0, e));
  }

  /** One call on the store of codes, at the start. */
  lemma OneMoreCall(s: State, address: string, act: Act) returns (step: CodeStore.Step)
    requires CodeStore.IsRun(s.codes)
    ensures Calls(s, 0, address, step) && step.event.timed == At(0, act)
    ensures var served := Serve(CodeStore.Lookup(CodeStore.State(s.codes), Key(address)), At(0, act));
            step.reply == served.1 && CodeStore.Lookup(step.after, Key(address)) == served.0
  {
    step := CodeEviction.CallCanBeMade(CodeStore.State(s.codes), Key(address), At(0, act));
    ServedIsHeld(CodeStore.State(s.codes), step);
  }

  /** Two codes asked for, one after the other, both on their way. */
  lemma TwoInFlight(keyed: Keyed, address: string) returns (trace: Trace, first: CodeStore.Step, second: CodeStore.Step)
    ensures IsTrace(keyed, trace) && StateOf(trace).now == 0
    ensures trace.Then? && trace.event == Verify(2, address, second) && second.reply == Sent("222222")
    ensures trace.past.Then? && trace.past.event == Verify(1, address, first) && first.reply == Sent("111111")
    ensures var s := StateOf(trace);
            && s.flights.Keys == {1, 2} && s.flights[1] == Mailing(address, 0) && s.flights[2] == Mailing(address, 1)
            && CodeStore.Lookup(CodeStore.State(s.codes), Key(address))
               == Some(Record(Some("222222"), AddressCodes.VALID_FOR, ANSWERS_ALLOWED, 2, 0))
  {
    trace := Start(0);
    first := OneMoreCall(StateOf(trace), address, Ask("111111"));
    trace := OneMoreEvent(keyed, trace, Verify(1, address, first));
    TraceRuns(keyed, trace);
    second := OneMoreCall(StateOf(trace), address, Ask("222222"));
    trace := OneMoreEvent(keyed, trace, Verify(2, address, second));
  }

  /** The last code sent need not be the one that works: when the mail of an earlier code to the same address
      fails after it was sent, it is cleared, and refused though it arrived and is answered at once. */
  lemma TheLastCodeSentIsRefused(keyed: Keyed, address: string)
    returns (sent: Trace, first: CodeStore.Step, second: CodeStore.Step, failed: Trace, failure: CodeStore.Step,
             arrived: Trace, trace: Trace, step: CodeStore.Step)
    ensures IsTrace(keyed, trace) && trace.Then? && trace.past == arrived
    ensures sent.Then? && sent.event == Verify(2, address, second) && second.reply == Sent("222222")
    ensures sent.past.Then? && sent.past.event == Verify(1, address, first) && first.reply == Sent("111111")
    ensures var flights := StateOf(sent).flights;
            flights.Keys == {1, 2} && flights[1] == Mailing(address, 0) && flights[2] == Mailing(address, 1)
    ensures failed.Then? && failed.past == sent && failed.event == MailFailed(1, failure)
    ensures arrived.Then? && arrived.past == failed && arrived.event == MailWasSent(2)
    ensures trace.event == AnswerCode(3, address, step)
    ensures step.event == CodeStore.Event(Key(address), At(0, Answer(Some("222222")))) && step.reply == Refused
  {
    sent, first, second := TwoInFlight(keyed, address);
    TraceRuns(keyed, sent);
    failure := OneMoreCall(StateOf(sent), address, TakeBack);
    failed := OneMoreEvent(keyed, sent, MailFailed(1, failure));
    arrived := OneMoreEvent(keyed, failed, MailWasSent(2));
    TraceRuns(keyed, arrived);
    step := OneMoreCall(StateOf(arrived), address, Answer(Some("222222")));
    trace := OneMoreEvent(keyed, arrived, AnswerCode(3, address, step));
  }
}
