/** The store of codes: what is held for every address, capped, swept only when it is full, and the class
    that keeps it. */
module CodeStore {
  import opened Text
  import opened AddressCodes

  const MOST_ADDRESSES_HELD := 10_000

  type Store = map<string, Record>

  function Lookup(s: Store, key: string): Option<Record> {
    if key in s then Some(s[key]) else None
  }

  /** Neither half of a record applies any more. */
  predicate Dead(r: Record, now: int) {
    now >= r.expiresAt && !BudgetRunning(r, now)
  }

  ghost function Swept(s: Store, now: int): Store {
    map k | k in s && !Dead(s[k], now) :: s[k]
  }

  ghost predicate Oldest(s: Store, victim: string) {
    victim in s && forall k :: k in s ==> s[victim].openedAt <= s[k].openedAt
  }

  /** Nothing goes while there is room; then what is dead goes; and then, only if that freed nothing, one
      record whose budget opened no later than any other's. */
  ghost predicate RoomMade(before: Store, now: int, after: Store) {
    if |before| < MOST_ADDRESSES_HELD then after == before
    else if |Swept(before, now)| < MOST_ADDRESSES_HELD then after == Swept(before, now)
    else exists victim :: Oldest(Swept(before, now), victim) && after == Swept(before, now) - {victim}
  }

  // ---- runs ----

  datatype Event = Event(key: string, timed: Timed)

  /** One call: what was left once room was made for it, what is held after it, and what it answered. */
  datatype Step = Step(event: Event, roomed: Store, after: Store, reply: Reply)

  predicate MakesRoom(before: Store, step: Step) {
    step.event.timed.act.Ask? && Reopens(Lookup(before, step.event.key), step.event.timed.now)
  }

  ghost predicate StepOk(before: Store, step: Step) {
    && (if MakesRoom(before, step) then RoomMade(before, step.event.timed.now, step.roomed) else step.roomed == before)
    && Kept(step.roomed, step.event.key, Serve(Lookup(before, step.event.key), step.event.timed), step.after,
        step.reply)
  }

  /** What was served is kept under its key, and nothing else changes. */
  ghost predicate Kept(roomed: Store, key: string, served: (Option<Record>, Reply), after: Store, reply: Reply) {
    && reply == served.1
    && after == if served.0.None? then roomed else roomed[key := served.0.value]
  }

  lemma AskIsAStep(before: Store, key: string, now: int, drawn: Code, roomed: Store, mid: Record, after: Store)
    requires if Reopens(Lookup(before, key), now) then RoomMade(before, now, roomed) && mid == Opened(now)
             else roomed == before && key in before && mid == before[key]
    requires after == roomed[key := mid][key := Drawn(mid, now, drawn).0]
    ensures StepOk(before, Step(Event(key, At(now, Ask(drawn))), roomed, after, Drawn(mid, now, drawn).1))
  {}

  lemma AnswerIsAStep(before: Store, key: string, now: int, trimmed: Option<string>, after: Store)
    requires after == match Answered(Lookup(before, key), now,
             trimmed).0 { case None => before case Some(r) => before[key := r] }
    ensures StepOk(before, Step(Event(key, At(now, Answer(trimmed))), before, after,
                                Answered(Lookup(before, key), now, trimmed).1))
  {}

  /** Calls one after another, from a store that holds nothing. */
  datatype Run = Begin | Next(past: Run, step: Step)

  function State(run: Run): Store {
    if run.Begin? then map[] else run.step.after
  }

  ghost predicate IsRun(run: Run) {
    run.Next? ==> IsRun(run.past) && StepOk(State(run.past), run.step)
  }

  // ---- the class ----

  class Pending {
    var code: Option<Code>
    var expiresAt: int
    var answersLeft: int
    var codesSent: int
    var openedAt: int

    constructor (now: int)
      ensures Value() == Opened(now)
    {
      code, expiresAt, answersLeft, codesSent, openedAt := None, 0, 0, 0, now;
    }

    function Value(): Record
      reads this
    {
      Record(code, expiresAt, answersLeft, codesSent, openedAt)
    }

    /** The answer is compared, where there is a code to compare it with. */
    method Try(trimmed: Option<string>, now: int) returns (refused: bool)
      modifies this
      ensures Answered(Some(old(Value())), now, trimmed) == (Some(Value()), if refused then Refused else Accepted)
    {
      if code.None? || now >= expiresAt || answersLeft <= 0 { return true; }

      answersLeft := answersLeft - 1;
      if trimmed != code { return true; }

      code := None;
      refused := false;
    }

    method TakeBackCode()
      modifies this
      ensures Value() == TookBack(old(Value()))
    {
      code := None;
      if codesSent > 0 {
        codesSent := codesSent - 1;
      }
    }

    /** The part of asking that is left once the budget is open. */
    method Draw(now: int, drawn: Code) returns (sent: Option<Code>)
      modifies this
      ensures Value() == Drawn(old(Value()), now, drawn).0
      ensures Drawn(old(Value()), now, drawn).1 == if sent.Some? then Sent(sent.value) else Exhausted
    {
      if codesSent >= CODES_PER_ADDRESS { return None; }

      codesSent := codesSent + 1;
      code := Some(drawn);
      expiresAt := now + VALID_FOR;
      answersLeft := ANSWERS_ALLOWED;
      sent := code;
    }
  }

  ghost function Values(held: map<string, Pending>): (s: Store)
    reads held.Values
    ensures s.Keys == held.Keys && |s| == |held|
  {
    map k | k in held :: held[k].Value()
  }

  lemma OneHeld(held: map<string, Pending>, key: string, p: Pending)
    ensures Values(held[key := p]) == Values(held)[key := p.Value()]
    ensures held[key := p].Values <= held.Values + {p}
  {}

  lemma OneDropped(held: map<string, Pending>, key: string)
    ensures Values(held - {key}) == Values(held) - {key}
  {}

  ghost predicate Distinctly<T>(held: map<string, T>) {
    forall j, k :: j in held && k in held && held[j] == held[k] ==> j == k
  }

  lemma OneMoreHeld<T>(held: map<string, T>, key: string, p: T)
    requires Distinctly(held) && p !in held.Values
    ensures Distinctly(held[key := p]) && |held[key := p]| <= |held| + 1
  {
    assert held[key := p].Keys == held.Keys + {key};
  }

  lemma OneLessHeld<T>(held: map<string, T>, key: string)
    requires key in held
    ensures |held - {key}| == |held| - 1
  {
    assert held.Keys == (held - {key}).Keys + {key};
  }

  /** The keys a walk has left, with these still before it. */
  ghost function Unswept(s: Store, before: set<string>, now: int): set<string> {
    set k | k in s && (k in before || !Dead(s[k], now))
  }

  lemma OneWalked(s: Store, before: set<string>, now: int, key: string)
    requires key in before && key in s
    ensures Unswept(s, before - {key}, now)
            == if Dead(s[key], now) then Unswept(s, before, now) - {key} else Unswept(s, before, now)
  {}

  /** Every public method is one step of a run: `run` is that run, and what is held is the state it ends in.
      The instant and the code drawn are inputs. */
  class AddressVerification {
    var pending: map<string, Pending>
    ghost var run: Run

    ghost function Records(): (s: Store)
      reads this, pending.Values
    {
      Values(pending)
    }

    ghost predicate Distinct()
      reads this
    {
      Distinctly(pending)
    }

    ghost predicate Valid()
      reads this, pending.Values
    {
      Distinct() && |pending| <= MOST_ADDRESSES_HELD && IsRun(run) && Records() == State(run)
    }

    ghost predicate Called(was: Run, key: string, now: int, act: Act, reply: Reply)
      reads this
    {
      run.Next? && run.past == was && run.step.event == Event(key, At(now, act)) && run.step.reply == reply
    }

    constructor ()
      ensures Valid() && run == Begin
    {
      pending := map[];
      run := Begin;
    }

    ghost method Append(step: Step)
      requires Distinct() && |pending| <= MOST_ADDRESSES_HELD
      requires IsRun(run) && StepOk(State(run), step) && step.after == Records()
      modifies this`run
      ensures Valid() && run == Next(old(run), step)
    {
      run := Next(run, step);
    }

    method CodeFor(emailAddress: string, now: int, drawn: Code) returns (code: Option<Code>)
      requires Valid()
      modifies this, pending.Values
      ensures Valid()
      ensures Called(old(run), Key(emailAddress), now, Ask(drawn), if code.Some? then Sent(code.value) else Exhausted)
      ensures forall p :: p in pending.Values ==> fresh(p) || p in old(pending.Values)
    {
      var key := Key(emailAddress);
      ghost var step;
      code, step := Draw(key, now, drawn);
      Append(step);
    }

    method WhyRefused(emailAddress: string, answered: Option<string>, now: int) returns (refused: bool)
      requires Valid()
      modifies this, pending.Values
      ensures Valid()
      ensures Called(old(run), Key(emailAddress), now, Answer(Trimmed(answered)), if refused then Refused else Accepted)
    {
      var key := Key(emailAddress);
      ghost var step;
      refused, step := Try(key, Trimmed(answered), now);
      Append(step);
    }

    /** The clock is not read here, so the instant is only the run's. */
    method NothingWasSent(emailAddress: string, ghost now: int)
      requires Valid()
      modifies this, pending.Values
      ensures Valid()
      ensures Called(old(run), Key(emailAddress), now, TakeBack, TakenBack)
    {
      var key := Key(emailAddress);
      ghost var step := Refund(key, now);
      Append(step);
    }

    /** Only the fields of what is held under `key` were written. */
    twostate lemma OneChanged(key: string)
      requires old(Distinct()) && key in pending && pending == old(pending)
      requires forall p :: p in pending.Values && p != pending[key] ==> unchanged(p)
      ensures Records() == old(Records())[key := pending[key].Value()]
    {
      forall k | k in pending && k != key ensures pending[k].Value() == old(pending[k].Value()) {
        assert pending[k] in pending.Values && pending[k] != pending[key];
      }
    }

    method Draw(key: string, now: int, drawn: Code) returns (code: Option<Code>, ghost step: Step)
      requires Distinct() && |pending| <= MOST_ADDRESSES_HELD && Records() == State(run)
      modifies this`pending, pending.Values
      ensures Distinct() && |pending| <= MOST_ADDRESSES_HELD
      ensures step.event == Event(key, At(now, Ask(drawn))) && step.after == Records()
      ensures step.reply == if code.Some? then Sent(code.value) else Exhausted
      ensures StepOk(State(run), step)
      ensures forall p :: p in pending.Values ==> fresh(p) || p in old(pending.Values)
    {
      var held: Pending;
      ghost var roomed;
      held, roomed := HeldOrOpened(key, now);
      label found:
      ghost var mid := held.Value();
      code := held.Draw(now, drawn);
      OneChanged@found(key);
      AskIsAStep(State(run), key, now, drawn, roomed, mid, Records());
      step := Step(Event(key, At(now, Ask(drawn))), roomed, Records(), if code.Some? then Sent(code.value)
          else Exhausted);
    }

    method HeldOrOpened(key: string, now: int) returns (held: Pending, ghost roomed: Store)
      requires Distinct() && |pending| <= MOST_ADDRESSES_HELD
      modifies this`pending
      ensures Distinct() && |pending| <= MOST_ADDRESSES_HELD
      ensures key in pending && pending[key] == held && (fresh(held) || held in old(pending.Values))
      ensures held.Value() == if Reopens(Lookup(old(Records()), key), now) then Opened(now) else old(Records())[key]
      ensures forall p :: p in pending.Values ==> p == held || p in old(pending.Values)
      ensures Records() == roomed[key := held.Value()]
      ensures if Reopens(Lookup(old(Records()), key), now) then RoomMade(old(Records()), now, roomed)
              else roomed == old(Records())
    {
      roomed := Records();
      if key !in pending || now - pending[key].openedAt >= CODE_BUDGET_WINDOW {
        held, roomed := Open(key, now);
      } else {
        held := pending[key];
        assert roomed == roomed[key := held.Value()];
      }
    }

    method Open(key: string, now: int) returns (held: Pending, ghost roomed: Store)
      requires Distinct() && |pending| <= MOST_ADDRESSES_HELD
      modifies this`pending
      ensures Distinct() && |pending| <= MOST_ADDRESSES_HELD
      ensures fresh(held) && held.Value() == Opened(now) && key in pending && pending[key] == held
      ensures forall p :: p in pending.Values ==> p == held || p in old(pending.Values)
      ensures RoomMade(old(Records()), now, roomed) && Records() == roomed[key := held.Value()]
    {
      held := new Pending(now);
      MakeRoom(now);
      roomed := Records();
      Hold(key, held);
    }

    method Hold(key: string, held: Pending)
      requires Distinct() && |pending| < MOST_ADDRESSES_HELD && held !in pending.Values
      modifies this`pending
      ensures pending == old(pending)[key := held] && Distinct() && |pending| <= MOST_ADDRESSES_HELD
      ensures Records() == old(Records())[key := held.Value()]
    {
      OneHeld(pending, key, held);
      OneMoreHeld(pending, key, held);
      pending := pending[key := held];
    }

    method Try(key: string, trimmed: Option<string>, now: int) returns (refused: bool, ghost step: Step)
      requires Distinct() && Records() == State(run)
      modifies pending.Values
      ensures step.event == Event(key, At(now, Answer(trimmed))) && step.after == Records()
      ensures step.reply == if refused then Refused else Accepted
      ensures StepOk(State(run), step)
    {
      refused := true;
      if key in pending {
        refused := pending[key].Try(trimmed, now);
        OneChanged(key);
      }
      AnswerIsAStep(State(run), key, now, trimmed, Records());
      step := Step(Event(key, At(now, Answer(trimmed))), old(Records()), Records(),
                   if refused then Refused else Accepted);
    }

    method Refund(key: string, ghost now: int) returns (ghost step: Step)
      requires Distinct() && Records() == State(run)
      modifies pending.Values
      ensures step.event == Event(key, At(now, TakeBack)) && step.after == Records() && step.reply == TakenBack
      ensures StepOk(State(run), step)
    {
      if key in pending {
        pending[key].TakeBackCode();
        OneChanged(key);
      }
      step := Step(Event(key, At(now, TakeBack)), old(Records()), Records(), TakenBack);
    }

    ghost predicate HoldsOnly(was: map<string, Pending>)
      reads this
    {
      forall k :: k in pending ==> k in was && pending[k] == was[k]
    }

    method MakeRoom(now: int)
      requires Distinct() && |pending| <= MOST_ADDRESSES_HELD
      modifies this`pending
      ensures RoomMade(old(Records()), now, Records())
      ensures HoldsOnly(old(pending)) && |pending| < MOST_ADDRESSES_HELD
    {
      if |pending| < MOST_ADDRESSES_HELD { return; }
      Sweep(now);
      DropUntilThereIsRoom();
    }

    method DropUntilThereIsRoom()
      requires |pending| <= MOST_ADDRESSES_HELD
      modifies this`pending
      ensures HoldsOnly(old(pending)) && |pending| < MOST_ADDRESSES_HELD
      ensures if |old(pending)| < MOST_ADDRESSES_HELD then Records() == old(Records())
              else exists victim :: Oldest(old(Records()), victim) && Records() == old(Records()) - {victim}
    {
      ghost var gone := None;
      while |pending| >= MOST_ADDRESSES_HELD
        invariant gone.None? ==> pending == old(pending)
        invariant gone.Some? ==> HoldsOnly(old(pending)) && |pending| < MOST_ADDRESSES_HELD <= |old(pending)|
        invariant gone.Some? ==> Oldest(old(Records()), gone.value) && Records() == old(Records()) - {gone.value}
        decreases |pending|
      {
        var victim := Earliest();
        Drop(victim);
        gone := Some(victim);
      }
    }

    method Drop(victim: string)
      requires victim in pending
      modifies this`pending
      ensures HoldsOnly(old(pending)) && |pending| == |old(pending)| - 1
      ensures Records() == old(Records()) - {victim}
    {
      OneDropped(pending, victim);
      OneLessHeld(pending, victim);
      pending := pending - {victim};
    }

    /** The entries are walked in whatever order the dictionary gives. */
    method Sweep(now: int)
      modifies this`pending
      ensures Records() == Swept(old(Records()), now)
      ensures HoldsOnly(old(pending)) && |pending| <= |old(pending)|
    {
      ghost var were := Records();
      var all := pending;
      var left := all.Keys;
      while left != {}
        invariant left <= all.Keys && HoldsOnly(all)
        invariant pending.Keys == Unswept(were, left, now)
        decreases left
      {
        var key :| key in left;
        OneWalked(were, left, now, key);
        assert were[key] == all[key].Value();
        if now >= all[key].expiresAt && now - all[key].openedAt >= CODE_BUDGET_WINDOW {
          pending := pending - {key};
        }
        left := left - {key};
      }
      Fewer(pending, all);
    }

    method Earliest() returns (victim: string)
      requires pending.Keys != {}
      ensures Oldest(Records(), victim)
    {
      var left := pending.Keys;
      victim :| victim in left;
      left := left - {victim};
      while left != {}
        invariant left <= pending.Keys && victim in pending
        invariant forall k :: k in pending && k !in left ==> pending[victim].openedAt <= pending[k].openedAt
        decreases left
      {
        var key :| key in left;
        if pending[key].openedAt < pending[victim].openedAt {
          victim := key;
        }
        left := left - {key};
      }
    }
  }

  lemma Fewer<T>(small: map<string, T>, large: map<string, T>)
    requires small.Keys <= large.Keys
    ensures |small| <= |large|
  {
    assert |large.Keys - small.Keys| + |small.Keys| == |large.Keys| by {
      assert (large.Keys - small.Keys) + small.Keys == large.Keys;
    }
  }
}
