/** What holds over whole runs of the store of codes, whatever is asked of it and in whatever order. */
module CodeRuns {
  import opened Text
  import opened AddressCodes
  import opened CodeHistory
  import opened CodesAnHour
  import opened CodeStore

  function Instant(step: Step): int {
    step.event.timed.now
  }

  ghost predicate RunClocked(run: Run) {
    run.Next? ==> RunClocked(run.past) && (run.past.Next? ==> Instant(run.past.step) <= Instant(run.step))
  }

  /** The replies one address got. */
  function Replies(run: Run, key: string): seq<Reply> {
    if run.Begin? then []
    else Replies(run.past, key) + if run.step.event.key == key then [run.step.reply] else []
  }

  // ---- the store that never removes anything ----

  /** The history one address would have, were its record never removed. */
  function Ledger(run: Run, key: string): seq<Entry> {
    if run.Begin? then []
    else if run.step.event.key != key then Ledger(run.past, key)
    else Recorded(Ledger(run.past, key), run.step.event.timed)
  }

  function Recorded(h: seq<Entry>, call: Timed): seq<Entry> {
    var (after, reply) := Serve(Held(h, |h|), call);
    h + [Entry(call, reply, after)]
  }

  function LedgerReplies(h: seq<Entry>): seq<Reply> {
    seq(|h|, i requires 0 <= i < |h| => h[i].reply)
  }

  lemma RecordedIsHistory(h: seq<Entry>, call: Timed)
    requires IsHistory(None, h)
    ensures IsHistory(None, Recorded(h, call))
  {
    var g := Recorded(h, call);
    forall i | 0 <= i < |g| ensures FollowsAt(None, g, i) {
      if i < |h| {
        assert FollowsAt(None, h, i);
      }
    }
  }

  lemma {:induction false} LedgerIsHistory(run: Run, key: string)
    ensures IsHistory(None, Ledger(run, key))
  {
    if run.Next? {
      LedgerIsHistory(run.past, key);
      if run.step.event.key == key {
        RecordedIsHistory(Ledger(run.past, key), run.step.event.timed);
      }
    }
  }

  lemma {:induction false} LedgerIsPlayed(run: Run, key: string)
    requires RunClocked(run)
    ensures Played(Ledger(run, key))
    ensures var h := Ledger(run, key); h != [] ==> run.Next? && h[|h| - 1].call.now <= Instant(run.step)
  {
    LedgerIsHistory(run, key);
    if run.Next? {
      LedgerIsPlayed(run.past, key);
    }
  }

  function LedgerHeld(run: Run, key: string): Option<Record> {
    Held(Ledger(run, key), |Ledger(run, key)|)
  }

  /** The record of `key` is only ever removed to make room once nothing a caller could ask of it would
      show.  An ask that opens a budget replaces its own record, so that one does not count. */
  ghost predicate NeverForgotten(run: Run, key: string) {
    run.Next? ==> NeverForgotten(run.past, key) && !Forgets(State(run.past), run.step, key)
  }

  predicate Forgets(before: Store, step: Step, key: string) {
    key != step.event.key && key in before && key !in step.roomed && Matters(before[key], Instant(step))
  }

  /** When this address's record was removed, where none has been held for it since. */
  function RemovedAt(run: Run, key: string): Option<int> {
    if run.Begin? || key in State(run) then None
    else if key in State(run.past) then Some(Instant(run.step))
    else RemovedAt(run.past, key)
  }

  /** No call of this address that finds its record removed read the clock before it was.  Nothing is asked of
      the order of any others. */
  ghost predicate InStep(run: Run, key: string) {
    run.Next? ==> InStep(run.past, key) && (run.step.event.key == key ==> FoundInStep(run.past, key, Instant(run.step)))
  }

  predicate FoundInStep(run: Run, key: string, now: int) {
    RemovedAt(run, key).Some? ==> RemovedAt(run, key).value <= now
  }

  ghost predicate AllInStep(run: Run) {
    forall key :: InStep(run, key)
  }

  /** Calls served in the order of their clock are in step. */
  lemma {:induction false} ClockedIsInStep(run: Run, key: string)
    requires RunClocked(run)
    ensures InStep(run, key) && (run.Next? ==> FoundInStep(run, key, Instant(run.step)))
  {
    if run.Next? {
      ClockedIsInStep(run.past, key);
    }
  }

  /** Only a record that was removed may be missing, and it no longer matters from then on. */
  ghost predicate AgreesWithLedger(run: Run, key: string) {
    match RemovedAt(run, key)
    case None => Lookup(State(run), key) == LedgerHeld(run, key)
    case Some(t) => Agrees(Lookup(State(run), key), LedgerHeld(run, key), t)
  }

  /** What a step leaves of another address's record. */
  lemma OthersAreUntouched(before: Store, step: Step, key: string)
    requires StepOk(before, step) && |before| <= MOST_ADDRESSES_HELD && key != step.event.key
    ensures key in step.after <==> key in step.roomed
    ensures key in step.after ==> key in before && step.after[key] == before[key]
    ensures key in before && !MakesRoom(before, step) ==> key in step.after
  {}

  lemma {:induction false} LedgerAgrees(run: Run, key: string)
    requires IsRun(run) && InStep(run, key) && NeverForgotten(run, key)
    ensures AgreesWithLedger(run, key)
    ensures Replies(run, key) == LedgerReplies(Ledger(run, key))
  {
    if run.Next? {
      LedgerAgrees(run.past, key);
      CapIsKept(run.past);
      var before, removed := State(run.past), RemovedAt(run.past, key);
      if run.step.event.key == key {
        AgreementIsKept(Lookup(before, key), LedgerHeld(run.past, key),
                        if removed.Some? then removed.value else Instant(run.step), run.step.event.timed);
        ServedIsHeld(before, run.step);
      } else {
        OthersAreUntouched(before, run.step, key);
      }
    }
  }

  lemma ServedIsHeld(before: Store, step: Step)
    requires StepOk(before, step)
    ensures Lookup(step.after, step.event.key) == Serve(Lookup(before, step.event.key), step.event.timed).0
    ensures step.reply == Serve(Lookup(before, step.event.key), step.event.timed).1
  {}

  // ---- the cap ----

  lemma {:induction false} CapIsKept(run: Run)
    requires IsRun(run)
    ensures |State(run)| <= MOST_ADDRESSES_HELD
  {
    if run.Next? {
      CapIsKept(run.past);
      StepKeepsTheCap(State(run.past), run.step);
    }
  }

  lemma StepKeepsTheCap(before: Store, step: Step)
    requires StepOk(before, step) && |before| <= MOST_ADDRESSES_HELD
    ensures |step.after| <= MOST_ADDRESSES_HELD
  {
    var served := Serve(Lookup(before, step.event.key), step.event.timed).0;
    if served.Some? {
      OneMoreKept(step.roomed, step.event.key, served.value);
    }
    if MakesRoom(before, step) {
      RoomIsMade(before, Instant(step), step.roomed);
    }
  }

  lemma OneMoreKept(s: Store, key: string, r: Record)
    ensures |s[key := r]| == |s| + if key in s then 0 else 1
  {
    assert s[key := r].Keys == s.Keys + {key};
  }

  lemma RoomIsMade(before: Store, now: int, after: Store)
    requires |before| <= MOST_ADDRESSES_HELD && RoomMade(before, now, after)
    ensures |after| < MOST_ADDRESSES_HELD
  {
    var swept := Swept(before, now);
    Fewer(swept, before);
    if |before| >= MOST_ADDRESSES_HELD && |swept| >= MOST_ADDRESSES_HELD {
      var victim :| Oldest(swept, victim) && after == swept - {victim};
      assert swept.Keys == after.Keys + {victim};
    }
  }

  /** Making room leaves what it keeps as it was, and removes what is dead on both counts; or, when nothing
      is, a single record whose budget opened no later than that of any other. */
  lemma WhatMakingRoomRemoves(before: Store, now: int, after: Store)
    requires |before| <= MOST_ADDRESSES_HELD && RoomMade(before, now, after)
    ensures forall k :: k in after ==> k in before && after[k] == before[k]
    ensures (forall k :: k in before && k !in after ==> Dead(before[k], now))
            || (exists victim :: Oldest(before, victim) && !Dead(before[victim], now) && after == before - {victim}
                                 && forall k :: k in before ==> !Dead(before[k], now))
    ensures after != before ==> |before| == MOST_ADDRESSES_HELD
  {
    var swept := Swept(before, now);
    Fewer(swept, before);
    if |before| >= MOST_ADDRESSES_HELD && |swept| >= MOST_ADDRESSES_HELD {
      var victim :| Oldest(swept, victim) && after == swept - {victim};
      SameSize(swept, before);
      assert Oldest(before, victim);
    }
  }

  lemma SameSize(swept: Store, before: Store)
    requires swept.Keys <= before.Keys && |swept| == |before|
    requires forall k :: k in swept ==> swept[k] == before[k]
    ensures swept == before
  {
    assert (before.Keys - swept.Keys) + swept.Keys == before.Keys;
    assert |before.Keys - swept.Keys| == 0;
  }

  // ---- the sweep is invisible ----

  function Addresses(run: Run): set<string> {
    if run.Begin? then {} else Addresses(run.past) + {run.step.event.key}
  }

  /** The addresses that would still be held to something at `now`, had nothing been removed. */
  function LiveAddresses(run: Run, now: int): set<string> {
    set k | k in Addresses(run) && LedgerHeld(run, k).Some? && !Dead(LedgerHeld(run, k).value, now)
  }

  /** Whenever room is made, fewer addresses than the cap are live. */
  ghost predicate NeverCrowded(run: Run) {
    run.Next? ==>
      && NeverCrowded(run.past)
      && (MakesRoom(State(run.past), run.step) ==> |LiveAddresses(run.past, Instant(run.step))| < MOST_ADDRESSES_HELD)
  }

  lemma {:induction false} HeldIsAnAddress(run: Run, key: string)
    requires IsRun(run) && key in State(run)
    ensures key in Addresses(run)
  {
    CapIsKept(run.past);
    if key != run.step.event.key {
      OthersAreUntouched(State(run.past), run.step, key);
      HeldIsAnAddress(run.past, key);
    }
  }

  lemma InStepBefore(run: Run)
    requires AllInStep(run) && run.Next?
    ensures AllInStep(run.past)
  {
    forall key ensures InStep(run.past, key) {
      assert InStep(run, key);
    }
  }

  lemma {:induction false} UncrowdedForgetsNothing(run: Run, key: string)
    requires IsRun(run) && AllInStep(run) && NeverCrowded(run)
    ensures NeverForgotten(run, key)
    decreases run, 0
  {
    if run.Next? {
      InStepBefore(run);
      UncrowdedForgetsNothing(run.past, key);
      if key in State(run.past) && key !in run.step.roomed {
        CapIsKept(run.past);
        SweptAreLive(run.past, Instant(run.step));
      }
    }
  }

  lemma SweptIsLive(run: Run, now: int, key: string)
    requires IsRun(run) && AllInStep(run) && NeverCrowded(run) && key in Swept(State(run), now)
    ensures key in LiveAddresses(run, now)
    decreases run, 1
  {
    UncrowdedForgetsNothing(run, key);
    LedgerAgrees(run, key);
    HeldIsAnAddress(run, key);
  }

  lemma SweptAreLive(run: Run, now: int)
    requires IsRun(run) && AllInStep(run) && NeverCrowded(run)
    ensures |Swept(State(run), now)| <= |LiveAddresses(run, now)|
    decreases run, 2
  {
    forall k | k in Swept(State(run), now) ensures k in LiveAddresses(run, now) {
      SweptIsLive(run, now, k);
    }
    Within(Swept(State(run), now).Keys, LiveAddresses(run, now));
  }

  /** The cap, the sweep and its laziness are invisible: while fewer addresses than the cap are live
      whenever room is made, and no call finds its record removed later than its clock reads, every address is
      answered as by a store that never removes anything. */
  lemma SweepIsInvisible(run: Run, key: string)
    requires IsRun(run) && AllInStep(run) && NeverCrowded(run)
    ensures Replies(run, key) == LedgerReplies(Ledger(run, key))
  {
    UncrowdedForgetsNothing(run, key);
    LedgerAgrees(run, key);
  }

  // ---- how many, and which ----

  function Issued(run: Run, key: string): nat {
    if run.Begin? then 0
    else Issued(run.past, key) + if run.step.event.key == key && run.step.reply.Sent? then 1 else 0
  }

  function AcceptedFor(run: Run, key: string): nat {
    if run.Begin? then 0
    else AcceptedFor(run.past, key) + if run.step.event.key == key && run.step.reply.Accepted? then 1 else 0
  }

  /** The answers that reached the comparison with a code. */
  function ComparedFor(run: Run, key: string): nat {
    if run.Begin? then 0
    else ComparedFor(run.past, key) + if ComparesAt(State(run.past), run.step, key) then 1 else 0
  }

  predicate ComparesAt(before: Store, step: Step, key: string) {
    step.event.key == key && step.event.timed.act.Answer? && Compared(Lookup(before, key), Instant(step))
  }

  /** An answer is compared exactly when there is one that would have been accepted in its place. */
  lemma ComparedExactlyWhen(before: Store, step: Step, key: string)
    requires step.event.key == key && step.event.timed.act.Answer?
    ensures ComparesAt(before, step, key)
            <==> exists text :: Serve(Lookup(before, key), At(Instant(step), Answer(Some(text)))).1 == Accepted
  {
    if ComparesAt(before, step, key) {
      var code: string := Lookup(before, key).value.code.value;
      assert Serve(Lookup(before, key), At(Instant(step), Answer(Some(code)))).1 == Accepted;
    }
  }

  function AnswersLeft(held: Option<Record>): int {
    if held.Some? then held.value.answersLeft else 0
  }

  function Open(held: Option<Record>): nat {
    if held.Some? && held.value.code.Some? then 1 else 0
  }

  /** One step never takes more from the answers and the codes an address has left than it counts. */
  lemma StepSpends(before: Store, step: Step, key: string)
    requires StepOk(before, step) && |before| <= MOST_ADDRESSES_HELD && 0 <= AnswersLeft(Lookup(before, key))
    ensures var was, now := Lookup(before, key), Lookup(step.after, key);
            var mine := step.event.key == key;
            && 0 <= AnswersLeft(now)
            && AnswersLeft(now) + (if ComparesAt(before, step, key) then 1 else 0)
               <= (if mine && step.reply.Sent? then ANSWERS_ALLOWED else AnswersLeft(was))
            && Open(now) + (if mine && step.reply.Accepted? then 1 else 0)
               <= (if mine && step.reply.Sent? then 1 else Open(was))
  {
    if step.event.key == key {
      ServedIsHeld(before, step);
    } else {
      OthersAreUntouched(before, step, key);
    }
  }

  lemma {:induction false} NeverMoreThanIssued(run: Run, key: string)
    requires IsRun(run)
    ensures 0 <= AnswersLeft(Lookup(State(run), key))
    ensures ComparedFor(run, key) + AnswersLeft(Lookup(State(run), key)) <= ANSWERS_ALLOWED * Issued(run, key)
    ensures AcceptedFor(run, key) + Open(Lookup(State(run), key)) <= Issued(run, key)
  {
    if run.Next? {
      NeverMoreThanIssued(run.past, key);
      CapIsKept(run.past);
      StepSpends(State(run.past), run.step, key);
    }
  }

  /** Guessing is bounded: five answers are compared for each code sent, and one accepted. */
  lemma GuessingIsBounded(run: Run, key: string)
    requires IsRun(run)
    ensures ComparedFor(run, key) <= ANSWERS_ALLOWED * Issued(run, key)
    ensures AcceptedFor(run, key) <= Issued(run, key)
  {
    NeverMoreThanIssued(run, key);
  }

  /** The step that sent the last code to this address, unless that code was accepted or taken back since. */
  function LatestSent(run: Run, key: string): Option<Step> {
    if run.Begin? then None
    else if run.step.event.key != key then LatestSent(run.past, key)
    else match run.step.reply
      case Sent(_) => Some(run.step)
      case Accepted => None
      case TakenBack => None
      case _ => LatestSent(run.past, key)
  }

  lemma {:induction false} HeldIsTheLatestSent(run: Run, key: string)
    requires IsRun(run) && key in State(run) && State(run)[key].code.Some?
    ensures var s := LatestSent(run, key);
            s.Some? && s.value.event.key == key && s.value.reply == Sent(State(run)[key].code.value)
            && State(run)[key].expiresAt == Instant(s.value) + VALID_FOR
  {
    CapIsKept(run.past);
    if run.step.event.key == key {
      ServedIsHeld(State(run.past), run.step);
      if !run.step.reply.Sent? {
        HeldIsTheLatestSent(run.past, key);
      }
    } else {
      OthersAreUntouched(State(run.past), run.step, key);
      HeldIsTheLatestSent(run.past, key);
    }
  }

  /** Whatever was evicted in between, an answer is only accepted for the last code sent to that address,
      not accepted or taken back since, and less than fifteen minutes old. */
  lemma AcceptedIsTheLatestSent(run: Run)
    requires IsRun(run) && run.Next? && run.step.reply.Accepted?
    ensures var s := LatestSent(run.past, run.step.event.key);
            && s.Some? && s.value.reply.Sent? && s.value.event.key == run.step.event.key
            && run.step.event.timed.act.Answer?
            && run.step.event.timed.act.trimmed == Some(s.value.reply.code)
            && Instant(run.step) < Instant(s.value) + VALID_FOR
  {
    ServedIsHeld(State(run.past), run.step);
    HeldIsTheLatestSent(run.past, run.step.event.key);
  }

  /** Sent and answered one after the other, for one address in two spellings: accepted exactly when what was
      answered, the white space around it aside, is the code, and comes before it expires. */
  lemma SentIsAccepted(run: Run, asked: string, answered: string, text: Option<string>)
    requires IsRun(run) && run.Next? && run.past.Next? && SameAddress(asked, answered)
    requires run.past.step.event.key == Key(asked) && run.past.step.reply.Sent?
    requires run.step.event == Event(Key(answered), At(Instant(run.step), Answer(Trimmed(text))))
    ensures run.step.reply == (if IsRightInTime(run.past.step, text, Instant(run.step)) then Accepted else Refused)
  {
    KeysAgreeExactlyWhen(asked, answered);
    ServedIsHeld(State(run.past.past), run.past.step);
    ServedIsHeld(State(run.past), run.step);
    TrimmedIs(text, run.past.step.reply.code);
  }

  ghost predicate IsRightInTime(sent: Step, text: Option<string>, now: int)
    requires sent.reply.Sent?
  {
    text.Some? && TrimsTo(text.value, sent.reply.code) && now < Instant(sent) + VALID_FOR
  }

  /** A code sent to an address is taken for every spelling of it; and one is only ever taken for an address the
      last code of which was asked for under one of its spellings. */
  method VerifyAddress(verification: AddressVerification, asked: string, now: int, drawn: Code,
                       answered: string, text: Option<string>, later: int)
    returns (sent: Option<Code>, refused: bool)
    requires verification.Valid()
    modifies verification, verification.pending.Values
    ensures verification.Valid()
    ensures sent.Some? ==> sent.value == drawn
    ensures sent.Some? && SameAddress(asked, answered) ==>
              (!refused <==> text.Some? && TrimsTo(text.value, drawn) && later < now + VALID_FOR)
    ensures old(verification.run) == Begin && !SameAddress(asked, answered) ==> sent.Some? && refused
  {
    sent := verification.CodeFor(asked, now, drawn);
    ghost var run := verification.run;
    refused := verification.WhyRefused(answered, text, later);
    KeysAgreeExactlyWhen(asked, answered);
    ServedIsHeld(State(run.past), run.step);
    if sent.Some? && SameAddress(asked, answered) {
      SentIsAccepted(verification.run, asked, answered, text);
    } else if !refused {
      AcceptedIsTheLatestSent(verification.run);
    }
  }

  // ---- codes an hour ----

  function CodesInHour(run: Run, key: string, a: int): nat {
    if run.Begin? then 0
    else CodesInHour(run.past, key, a) + if SendsInHour(run.step, key, a) then 1 else 0
  }

  predicate SendsInHour(step: Step, key: string, a: int) {
    step.event.key == key && step.reply.Sent? && a <= Instant(step) < a + CODE_BUDGET_WINDOW
  }

  ghost predicate NeverTakenBack(run: Run, key: string) {
    run.Next? ==> NeverTakenBack(run.past, key) && (run.step.event.key == key ==> !run.step.event.timed.act.TakeBack?)
  }

  lemma OneMoreInHour(h: seq<Entry>, call: Timed, a: int)
    ensures var g := Recorded(h, call);
            |SentInHour(g, a)| == |SentInHour(h, a)|
              + if g[|h|].reply.Sent? && a <= call.now < a + CODE_BUDGET_WINDOW then 1 else 0
  {
    var g := Recorded(h, call);
    var more := if g[|h|].reply.Sent? && a <= call.now < a + CODE_BUDGET_WINDOW then {|h|} else {};
    assert SentInHour(g, a) == SentInHour(h, a) + more;
  }

  lemma {:induction false} LedgerCounts(run: Run, key: string, a: int)
    requires IsRun(run) && InStep(run, key) && NeverForgotten(run, key)
    ensures CodesInHour(run, key, a) == |SentInHour(Ledger(run, key), a)|
    ensures NeverTakenBack(run, key) ==> NothingTakenBack(Ledger(run, key))
  {
    if run.Next? {
      LedgerCounts(run.past, key, a);
      if run.step.event.key == key {
        LedgerAgrees(run, key);
        OneMoreInHour(Ledger(run.past, key), run.step.event.timed, a);
        var n := |Ledger(run.past, key)|;
        LedgerAgrees(run.past, key);
        assert Replies(run, key)[n] == run.step.reply;
      }
    }
  }

  /** No hour, wherever it starts, sees more than seven codes sent to an address whose codes are never taken
      back, and whose record is never removed while it matters; nor more than five, where the address's own
      calls change places by no more than a tick. */
  lemma AtMostSevenCodesAnHourAreSent(run: Run, key: string, skew: nat, a: int)
    requires IsRun(run) && InStep(run, key) && NeverForgotten(run, key) && NeverTakenBack(run, key)
    requires Skewed(Ledger(run, key), skew) && skew <= CODE_BUDGET_WINDOW
    ensures CodesInHour(run, key, a) <= 7 && (skew <= 1 ==> CodesInHour(run, key, a) <= 5)
  {
    LedgerCounts(run, key, a);
    LedgerIsHistory(run, key);
    AtMostSevenCodesAnHour(Ledger(run, key), skew, a);
  }

  lemma AtMostFiveCodesAnHourAreSent(run: Run, key: string, a: int)
    requires IsRun(run) && RunClocked(run) && NeverForgotten(run, key) && NeverTakenBack(run, key)
    ensures CodesInHour(run, key, a) <= 5
  {
    ClockedIsInStep(run, key);
    LedgerIsPlayed(run, key);
    AtMostSevenCodesAnHourAreSent(run, key, 0, a);
  }

  /** Those of an hour's codes that are taken back, sooner or later. */
  ghost function TakenBackOfHour(h: seq<Entry>, of: map<nat, nat>, a: int): set<nat> {
    set i | i in SentInHour(h, a) && IsTakenBack(h, of, |h|, i)
  }

  lemma HourInParts(h: seq<Entry>, of: map<nat, nat>, a: int)
    ensures |SentInHour(h, a)| == |StandInHour(h, of, a)| + |TakenBackOfHour(h, of, a)|
  {
    Apart(StandInHour(h, of, a), TakenBackOfHour(h, of, a));
    assert SentInHour(h, a) == StandInHour(h, of, a) + TakenBackOfHour(h, of, a);
  }

  /** Of the codes any hour sends an address, no more than six and as many as are taken back late are not taken
      back at all, where its record is not removed while it matters and its own calls are served in order. */
  lemma AtMostSixAndTheLateStandOfAnHour(run: Run, key: string, of: map<nat, nat>, a: int)
    requires IsRun(run) && InStep(run, key) && NeverForgotten(run, key) && Refunds(Ledger(run, key), of)
    requires Clocked(Ledger(run, key))
    ensures var h := Ledger(run, key);
            CodesInHour(run, key, a) - |TakenBackOfHour(h, of, a)| == |StandInHour(h, of, a)| <= 6 + |Late(h, of)|
  {
    var h := Ledger(run, key);
    LedgerCounts(run, key, a);
    LedgerIsHistory(run, key);
    AtMostSixAndTheLateStand(h, of, 0, a);
    HourInParts(h, of, a);
  }
}
