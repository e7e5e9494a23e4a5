/** The clock a service stamps model values with, and the follower that keeps it on the broker's. */
module ModelClock {
  import opened Text

  /** Instants and spans in seconds. */
  datatype Mapping = Mapping(modelInstant: real, realInstant: real, rate: real)

  datatype Reading = Reading(now: real, rate: real)

  /** What the clock reads at a real instant, for an anchor. */
  function At(anchor: Option<Mapping>, real_: real): real {
    match anchor
    case None => real_
    case Some(m) => m.modelInstant + (real_ - m.realInstant) * m.rate
  }

  class Clock {
    var anchor: Option<Mapping>

    constructor ()
      ensures anchor == None && Rate() == 1.0 && OffsetFromWallClock() == 0.0
      ensures forall t: real :: GetUtcNow(t) == t
    {
      anchor := None;
    }

    function Rate(): real
      reads this
    {
      if anchor.None? then 1.0 else anchor.value.rate
    }

    function GetUtcNow(real_: real): real
      reads this
    {
      At(anchor, real_)
    }

    function OffsetFromWallClock(): real
      reads this
    {
      if anchor.None? then 0.0 else anchor.value.modelInstant - anchor.value.realInstant
    }

    /** Takes a reading as it lands, and reads on from it at its rate; one that runs backwards is refused. */
    method AnchorTo(reading: Reading, real_: real) returns (raised: bool)
      modifies this
      ensures raised <==> reading.rate < 0.0
      ensures anchor == Anchored(old(anchor), reading, real_)
      ensures !raised ==>
                GetUtcNow(real_) == reading.now && GetUtcNow(real_) == real_ + OffsetFromWallClock()
                    && Rate() == reading.rate
      ensures !raised ==> forall t: real :: GetUtcNow(t) - reading.now == reading.rate * (t - real_)
    {
      raised := reading.rate < 0.0;
      if raised { return; }
      anchor := Some(Mapping(reading.now, real_, reading.rate));
    }
  }

  function Anchored(anchor: Option<Mapping>, reading: Reading, real_: real): Option<Mapping> {
    if reading.rate < 0.0 then anchor else Some(Mapping(reading.now, real_, reading.rate))
  }

  /** What asking the broker comes to: a reading, or none, or asking itself cancelled, as it is when the answer
      takes longer than the client waits. */
  datatype Answer = Answered(reading: Reading) | Unanswered | Cancelled

  /** Nothing catches a cancelled asking, nor a reading that the clock refuses. */
  predicate Raises(a: Answer) {
    a.Cancelled? || (a.Answered? && a.reading.rate < 0.0)
  }

  function Followed(anchor: Option<Mapping>, a: Answer, landed: real): Option<Mapping> {
    if a.Answered? then Anchored(anchor, a.reading, landed) else anchor
  }

  class Follower {
    const clock: Clock
    var unreachable: bool

    constructor (clock: Clock)
      ensures this.clock == clock && !unreachable
    {
      this.clock, unreachable := clock, false;
    }

    /** One asking of the broker, as it ends. */
    method FollowOnce(answer: Answer, landed: real) returns (raised: bool)
      modifies this, clock
      ensures raised == Raises(answer) && clock.anchor == Followed(old(clock.anchor), answer, landed)
      ensures raised ==> clock.anchor == old(clock.anchor)
      ensures unreachable == if answer.Cancelled? then old(unreachable) else answer.Unanswered?
    {
      if answer.Cancelled? { return true; }
      unreachable := answer.Unanswered?;
      if answer.Unanswered? { return false; }
      raised := clock.AnchorTo(answer.reading, landed);
    }

    /** The loop, given what would come of asking for as long as it is let run: it ends at the first asking that
        raises, and asks no more. */
    method Execute(b: Broker, offered: seq<Attempt>) returns (made: nat)
      requires clock.anchor == None
      modifies this, clock
      ensures made == |Made(b, offered)| && clock.anchor == AnchorAfter(b, Made(b, offered))
    {
      made := 0;
      MadeInTurn(b, offered, 0);
      while made < |offered|
        invariant made <= |offered| && NoneRaises(b, offered, made) && clock.anchor == AnchorAfter(b, offered[..made])
      {
        var a := offered[made];
        assert offered[..made + 1][..made] == offered[..made];
        var raised := FollowOnce(AnswerOf(b, a), a.landed);
        MadeInTurn(b, offered, made);
        made := made + 1;
        if raised { return; }
      }
      AllMade(b, offered);
      assert offered[..made] == offered;
    }
  }

  // ---- the broker's clock, and asking it ----

  /** What the broker's clock reads at a real instant, and the rate it says it runs at. */
  datatype Broker = Broker(reads_: real -> real, rate: real -> real)

  /** From one instant to another the broker's clock runs evenly, and says so. */
  ghost predicate Steady(b: Broker, rate: real, from: real, to: real) {
    forall x: real, y: real :: from <= x <= y <= to ==> b.reads_(y) - b.reads_(x) == rate * (y - x) && b.rate(x) == rate
  }

  /** What comes of one asking: a reading taken at an instant, or none, or a cancelling. */
  datatype Outcome = Taken(at: real) | Nothing | GivenUp

  /** The broker asked, and what comes of it landing. */
  datatype Attempt = Attempt(asked: real, landed: real, outcome: Outcome)

  function AnswerOf(b: Broker, a: Attempt): Answer {
    match a.outcome
    case Taken(at) => Answered(Reading(b.reads_(at), b.rate(at)))
    case Nothing => Unanswered
    case GivenUp => Cancelled
  }

  function ReadingOf(b: Broker, a: Attempt): Reading
    requires a.outcome.Taken?
  {
    Reading(b.reads_(a.outcome.at), b.rate(a.outcome.at))
  }

  predicate RaisesAt(b: Broker, a: Attempt) {
    Raises(AnswerOf(b, a))
  }

  ghost predicate NoneRaises(b: Broker, attempts: seq<Attempt>, n: nat)
    requires n <= |attempts|
  {
    forall i :: 0 <= i < n ==> !RaisesAt(b, attempts[i])
  }

  /** Of what would come of asking on and on, what is asked: up to the first that raises, and that. */
  function Made(b: Broker, offered: seq<Attempt>): seq<Attempt> {
    if offered == [] then []
    else if RaisesAt(b, offered[0]) then [offered[0]]
    else [offered[0]] + Made(b, offered[1..])
  }

  lemma {:induction false} MadeInTurn(b: Broker, offered: seq<Attempt>, n: nat)
    requires n <= |offered| && NoneRaises(b, offered, n)
    ensures n < |offered| && RaisesAt(b, offered[n]) ==> Made(b, offered) == offered[..n + 1]
    ensures offered[..n] <= Made(b, offered) <= offered
    decreases |offered|
  {
    if n == 0 {
      if offered != [] && !RaisesAt(b, offered[0]) {
        MadeInTurn(b, offered[1..], 0);
        assert offered == [offered[0]] + offered[1..];
      }
    } else {
      MadeInTurn(b, offered[1..], n - 1);
      assert offered[..n] == [offered[0]] + offered[1..][..n - 1];
      assert offered == [offered[0]] + offered[1..];
      if n < |offered| {
        assert offered[..n + 1] == [offered[0]] + offered[1..][..n];
      }
    }
  }

  lemma AllMade(b: Broker, offered: seq<Attempt>)
    requires NoneRaises(b, offered, |offered|)
    ensures Made(b, offered) == offered
  {
    MadeInTurn(b, offered, |offered|);
    assert offered[..|offered|] == offered;
  }

  /** The anchor after each attempt has landed in turn. */
  function AnchorAfter(b: Broker, attempts: seq<Attempt>): Option<Mapping> {
    if attempts == [] then None
    else
      var last := attempts[|attempts| - 1];
      Followed(AnchorAfter(b, attempts[..|attempts| - 1]), AnswerOf(b, last), last.landed)
  }

  /** Attempts one after another, no more than an interval apart, each landing within the patience given it. */
  ghost predicate IsFollowing(attempts: seq<Attempt>, interval: real, patience: real) {
    && (forall i :: 0 <= i < |attempts| ==> InTime(attempts[i], patience))
    && forall i :: 0 < i < |attempts| ==>
         attempts[i - 1].landed <= attempts[i].asked <= attempts[i - 1].landed + interval
  }

  ghost predicate InTime(a: Attempt, patience: real) {
    && a.asked <= a.landed <= a.asked + patience
    && (a.outcome.Taken? ==> a.asked <= a.outcome.at <= a.landed)
  }

  // ---- how the clock stands to the broker's ----

  /** A clock anchored on a reading stands behind a broker that has run evenly since by what the broker ran
      through while the answer was on its way; so it is never ahead, and exact when the answer took no time. */
  lemma LagsByTheAnswersWay(b: Broker, rate: real, taken: real, landed: real, t: real)
    requires Steady(b, rate, taken, t) && taken <= landed <= t && rate >= 0.0
    ensures var anchor := Anchored(None, Reading(b.reads_(taken), b.rate(taken)), landed);
            && b.reads_(t) - At(anchor, t) == rate * (landed - taken)
            && At(anchor, t) <= b.reads_(t)
  {
    assert b.reads_(t) - b.reads_(taken) == rate * (t - taken);
    assert rate * (t - taken) == rate * (t - landed) + rate * (landed - taken);
  }

  /** Between readings it never goes back. */
  lemma NeverGoesBackBetweenReadings(anchor: Option<Mapping>, t: real, u: real)
    requires t <= u && (anchor.Some? ==> anchor.value.rate >= 0.0)
    ensures At(anchor, t) <= At(anchor, u)
  {
    if anchor.Some? {
      var m := anchor.value;
      assert (u - m.realInstant) * m.rate == (t - m.realInstant) * m.rate + (u - t) * m.rate;
    }
  }

  /** As a second reading lands, the clock moves by the rate times what the first answer took longer than the
      second: back only where the second was the slower. */
  lemma MovesByTheDifferenceInDelay(b: Broker, rate: real, taken: real, landed: real, takenNext: real, landedNext: real)
    requires Steady(b, rate, taken, landedNext) && rate >= 0.0
    requires taken <= landed <= takenNext <= landedNext
    ensures var anchor := Anchored(None, Reading(b.reads_(taken), b.rate(taken)), landed);
            var next := Anchored(anchor, Reading(b.reads_(takenNext), b.rate(takenNext)), landedNext);
            At(next, landedNext) - At(anchor, landedNext) == rate * ((landed - taken) - (landedNext - takenNext))
  {
    LagsByTheAnswersWay(b, rate, taken, landed, landedNext);
    LagsByTheAnswersWay(b, rate, takenNext, landedNext, landedNext);
  }

  lemma {:induction false} LastAnswerHolds(b: Broker, attempts: seq<Attempt>, k: nat)
    requires k < |attempts| && attempts[k].outcome.Taken? && b.rate(attempts[k].outcome.at) >= 0.0
    requires forall i :: k < i < |attempts| ==> !attempts[i].outcome.Taken?
    ensures AnchorAfter(b, attempts) == Anchored(None, ReadingOf(b, attempts[k]), attempts[k].landed)
  {
    if k < |attempts| - 1 {
      LastAnswerHolds(b, attempts[..|attempts| - 1], k);
    }
  }

  /** The longest that so many attempts may take, each waited for first. */
  function Turns(n: nat, interval: real, patience: real): real {
    if n == 0 then 0.0 else Turns(n - 1, interval, patience) + interval + patience
  }

  lemma {:induction false} LandedNotLongAgo(attempts: seq<Attempt>, interval: real, patience: real, k: nat)
    requires IsFollowing(attempts, interval, patience) && k < |attempts|
    ensures attempts[|attempts| - 1].landed <= attempts[k].landed + Turns(|attempts| - 1 - k, interval, patience)
    decreases |attempts|
  {
    if k < |attempts| - 1 {
      var before := attempts[..|attempts| - 1];
      LandedNotLongAgo(before, interval, patience, k);
      assert attempts[|attempts| - 1].landed <= before[|before| - 1].landed + (interval + patience);
    }
  }

  lemma TakenSince(attempts: seq<Attempt>, interval: real, patience: real, failed: nat, since: real, t: real)
    requires IsFollowing(attempts, interval, patience)
    requires failed < |attempts| && attempts[|attempts| - 1 - failed].outcome.Taken?
    requires t <= attempts[|attempts| - 1].landed + interval + patience
    requires t >= since + Turns(failed + 1, interval, patience) + patience
    ensures var last := attempts[|attempts| - 1 - failed];
            since <= last.outcome.at <= last.landed <= last.outcome.at + patience
  {
    var k := |attempts| - 1 - failed;
    LandedNotLongAgo(attempts, interval, patience, k);
    assert InTime(attempts[k], patience);
  }

  /** The clock is behind the broker's, by what that runs through in this answer's way. */
  ghost predicate KeepsUp(b: Broker, rate: real, last: Attempt, patience: real, anchor: Option<Mapping>, t: real) {
    && last.outcome.Taken?
    && var behind := b.reads_(t) - At(anchor, t);
    behind == rate * (last.landed - last.outcome.at) && 0.0 <= behind <= rate * patience
  }

  /** Of what would come of asking until now, the last reading is the one before so many attempts that took
      none; and the broker has run evenly for as long as one interval and two answers may take, and another
      interval and answer for each of those. */
  ghost predicate IsDue(b: Broker, rate: real, offered: seq<Attempt>, interval: real, patience: real,
                        failed: nat, since: real, t: real)
  {
    && IsFollowing(offered, interval, patience) && interval >= 0.0 && patience >= 0.0 && rate >= 0.0
    && failed < |offered| && offered[|offered| - 1 - failed].outcome.Taken?
    && (forall i :: |offered| - failed <= i < |offered| ==> !offered[i].outcome.Taken?)
    && offered[|offered| - 1].landed <= t <= offered[|offered| - 1].landed + interval + patience
    && Steady(b, rate, since, t) && t >= since + Turns(failed + 1, interval, patience) + patience
  }

  lemma DueReading(b: Broker, rate: real, offered: seq<Attempt>, interval: real, patience: real,
                   failed: nat, since: real, t: real)
    requires IsDue(b, rate, offered, interval, patience, failed, since, t)
    ensures var last := offered[|offered| - 1 - failed];
            && since <= last.outcome.at && last.landed <= t && InTime(last, patience)
            && Steady(b, rate, last.outcome.at, t) && b.rate(last.outcome.at) == rate
  {
    var k := |offered| - 1 - failed;
    TakenSince(offered, interval, patience, failed, since, t);
    LandedInOrder(offered, interval, patience, k);
    SteadySince(b, rate, since, offered[k].outcome.at, t);
    assert InTime(offered[k], patience);
  }

  /** Whatever the broker's clock did before, a follower that no asking ended before its last reading keeps up. */
  lemma FollowsWhateverChanged(b: Broker, rate: real, offered: seq<Attempt>, interval: real, patience: real,
                               failed: nat, since: real, t: real)
    requires IsDue(b, rate, offered, interval, patience, failed, since, t)
    requires NoneRaises(b, offered, |offered| - 1 - failed)
    ensures KeepsUp(b, rate, offered[|offered| - 1 - failed], patience, AnchorAfter(b, Made(b, offered)), t)
  {
    var k := |offered| - 1 - failed;
    DueReading(b, rate, offered, interval, patience, failed, since, t);
    MadeInTurn(b, offered, k + 1);
    var made := Made(b, offered);
    assert offered[..k + 1][k] == made[k] == offered[k];
    forall i | k < i < |made| ensures !made[i].outcome.Taken? { assert made[i] == offered[i]; }
    LastAnswerHolds(b, made, k);
    StandsBehind(b, rate, offered[k], patience, AnchorAfter(b, made), t);
  }

  // ---- what ends the loop ----

  lemma {:induction false} FirstRaises(b: Broker, offered: seq<Attempt>, n: nat) returns (r: nat)
    requires n <= |offered| && !NoneRaises(b, offered, n)
    ensures r < n && RaisesAt(b, offered[r]) && NoneRaises(b, offered, r)
  {
    if NoneRaises(b, offered, n - 1) {
      r := n - 1;
    } else {
      r := FirstRaises(b, offered, n - 1);
    }
  }

  /** The first asking that raises leaves the clock as the ones before it left it, whatever would have come of
      asking again. */
  lemma NothingIsFollowedAfter(b: Broker, offered: seq<Attempt>, r: nat)
    requires r < |offered| && RaisesAt(b, offered[r]) && NoneRaises(b, offered, r)
    ensures Made(b, offered) == offered[..r + 1] && AnchorAfter(b, Made(b, offered)) == AnchorAfter(b, offered[..r])
  {
    MadeInTurn(b, offered, r);
    assert offered[..r + 1][..r] == offered[..r];
  }

  /** The same broker, set forward or back after an instant. */
  function Shifted(b: Broker, after: real, jump: real): Broker {
    Broker(x => if x <= after then b.reads_(x) else b.reads_(x) + jump, b.rate)
  }

  lemma SameRaising(b: Broker, after: real, jump: real, offered: seq<Attempt>, n: nat)
    requires n <= |offered|
    ensures NoneRaises(Shifted(b, after, jump), offered, n) <==> NoneRaises(b, offered, n)
  {
    forall i | 0 <= i < n ensures RaisesAt(Shifted(b, after, jump), offered[i]) <==> RaisesAt(b, offered[i]) {}
  }

  lemma {:induction false} SameAnchor(b: Broker, after: real, jump: real, attempts: seq<Attempt>)
    requires forall i :: 0 <= i < |attempts| && attempts[i].outcome.Taken? ==> attempts[i].outcome.at <= after
    ensures AnchorAfter(Shifted(b, after, jump), attempts) == AnchorAfter(b, attempts)
  {
    if attempts != [] {
      SameAnchor(b, after, jump, attempts[..|attempts| - 1]);
    }
  }

  lemma {:induction false} LandedBefore(attempts: seq<Attempt>, interval: real, patience: real, i: nat, j: nat)
    requires IsFollowing(attempts, interval, patience) && i <= j < |attempts|
    ensures attempts[i].landed <= attempts[j].landed
  {
    if i < j {
      LandedBefore(attempts, interval, patience, i, j - 1);
      assert InTime(attempts[j], patience);
    }
  }

  /** The follower keeps up with the broker as set forward or back so. */
  ghost predicate KeepsUpShifted(b: Broker, rate: real, offered: seq<Attempt>, patience: real, failed: nat,
                                 after: real, jump: real, t: real)
    requires failed < |offered|
  {
    var shifted := Shifted(b, after, jump);
    KeepsUp(shifted, rate, offered[|offered| - 1 - failed], patience, AnchorAfter(shifted, Made(shifted, offered)), t)
  }

  lemma ShiftedIsDue(b: Broker, rate: real, offered: seq<Attempt>, interval: real, patience: real,
                     failed: nat, since: real, after: real, jump: real, t: real)
    requires IsDue(b, rate, offered, interval, patience, failed, since, t) && after < since
    ensures IsDue(Shifted(b, after, jump), rate, offered, interval, patience, failed, since, t)
  {
    var shifted := Shifted(b, after, jump);
    forall x: real, y: real | since <= x <= y <= t
      ensures shifted.reads_(y) - shifted.reads_(x) == rate * (y - x) && shifted.rate(x) == rate
    {
      assert b.reads_(y) - b.reads_(x) == rate * (y - x) && b.rate(x) == rate;
    }
  }

  /** Once an asking raised, the broker may be set anywhere and the clock goes on as it was. */
  lemma EndedDoesNotKeepUp(b: Broker, rate: real, offered: seq<Attempt>, interval: real, patience: real,
                           failed: nat, r: nat, after: real, t: real)
    requires IsFollowing(offered, interval, patience) && failed < |offered| && r < |offered|
    requires RaisesAt(b, offered[r]) && NoneRaises(b, offered, r) && offered[r].landed <= after < t
    ensures !KeepsUpShifted(b, rate, offered, patience, failed, after, 0.0, t)
            || !KeepsUpShifted(b, rate, offered, patience, failed, after, 1.0, t)
  {
    forall jump: real
      ensures AnchorAfter(Shifted(b, after, jump), Made(Shifted(b, after, jump), offered)) == AnchorAfter(b,
              offered[..r])
    {
      SameRaising(b, after, jump, offered, r);
      NothingIsFollowedAfter(Shifted(b, after, jump), offered, r);
      forall i | 0 <= i < r && offered[i].outcome.Taken? ensures offered[i].outcome.at <= after {
        LandedBefore(offered, interval, patience, i, r);
        assert InTime(offered[i], patience);
      }
      SameAnchor(b, after, jump, offered[..r]);
    }
  }

  /** The follower keeps up with the broker, wherever that is set before it runs evenly again, if and only if no
      asking before the last reading raised: none was cancelled, and none was answered with a rate below zero. */
  lemma KeepsUpExactlyWhileNoneRaised(b: Broker, rate: real, offered: seq<Attempt>, interval: real, patience: real,
                                      failed: nat, since: real, after: real, t: real)
    requires IsDue(b, rate, offered, interval, patience, failed, since, t) && after < since
    requires forall i :: 0 <= i < |offered| - 1 - failed && RaisesAt(b, offered[i]) ==> offered[i].landed <= after
    ensures (forall jump: real :: KeepsUpShifted(b, rate, offered, patience, failed, after, jump, t))
            <==> NoneRaises(b, offered, |offered| - 1 - failed)
  {
    var k := |offered| - 1 - failed;
    if NoneRaises(b, offered, k) {
      forall jump: real ensures KeepsUpShifted(b, rate, offered, patience, failed, after, jump, t) {
        ShiftedIsDue(b, rate, offered, interval, patience, failed, since, after, jump, t);
        SameRaising(b, after, jump, offered, k);
        FollowsWhateverChanged(Shifted(b, after, jump), rate, offered, interval, patience, failed, since, t);
      }
    } else {
      var r := FirstRaises(b, offered, k);
      DueReading(b, rate, offered, interval, patience, failed, since, t);
      EndedDoesNotKeepUp(b, rate, offered, interval, patience, failed, r, after, t);
    }
  }

  /** One time-out at the start, or one answer that runs backwards, and the clock is the wall clock from then on,
      though the broker would answer the next asking at once. */
  lemma OneRaisingEndsIt(b: Broker, first: Outcome)
    requires first.GivenUp? || (first.Taken? && 0.0 <= first.at <= 5.0 && b.rate(first.at) < 0.0)
    ensures var offered := [Attempt(0.0, 5.0, first), Attempt(10.0, 10.0, Taken(10.0))];
            && IsFollowing(offered, 5.0, 5.0)
            && Made(b, offered) == [offered[0]]
            && forall t: real :: At(AnchorAfter(b, Made(b, offered)), t) == t
  {
    var offered := [Attempt(0.0, 5.0, first), Attempt(10.0, 10.0, Taken(10.0))];
    NothingIsFollowedAfter(b, offered, 0);
    assert offered[..0] == [];
  }

  lemma StandsBehind(b: Broker, rate: real, last: Attempt, patience: real, anchor: Option<Mapping>, t: real)
    requires last.outcome.Taken? && InTime(last, patience) && last.landed <= t && rate >= 0.0
    requires Steady(b, rate, last.outcome.at, t) && anchor == Anchored(None, ReadingOf(b, last), last.landed)
    ensures KeepsUp(b, rate, last, patience, anchor, t)
  {
    LagsByTheAnswersWay(b, rate, last.outcome.at, last.landed, t);
    AtMost(rate, last.landed - last.outcome.at, patience);
  }

  lemma SteadySince(b: Broker, rate: real, from: real, later: real, to: real)
    requires Steady(b, rate, from, to) && from <= later <= to
    ensures Steady(b, rate, later, to) && b.rate(later) == rate
  {
    assert b.reads_(to) - b.reads_(later) == rate * (to - later);
  }

  lemma AtMost(rate: real, x: real, y: real)
    requires rate >= 0.0 && 0.0 <= x <= y
    ensures 0.0 <= rate * x <= rate * y
  {}

  lemma {:induction false} LandedInOrder(attempts: seq<Attempt>, interval: real, patience: real, k: nat)
    requires IsFollowing(attempts, interval, patience) && interval >= 0.0 && k < |attempts|
    ensures attempts[k].landed <= attempts[|attempts| - 1].landed
  {
    if k < |attempts| - 1 {
      LandedInOrder(attempts[..|attempts| - 1], interval, patience, k);
    }
  }

  // ---- a broker that is changed ----

  /** The broker's clock set forward or back by a jump, and going on at another pace. */
  datatype Change = Change(at: real, jump: real, pace: real)

  /** What the broker's clock reads from one instant until another, through these changes, whatever rate it says
      it runs at. */
  ghost predicate Goes(b: Broker, from: real, pace: real, changes: seq<Change>, until: real)
    decreases |changes|
  {
    if changes == [] then
      from <= until && forall x: real :: from <= x <= until ==> b.reads_(x) == b.reads_(from) + pace * (x - from)
    else
      var c := changes[0];
      && from <= c.at && (forall x: real :: from <= x < c.at ==> b.reads_(x) == b.reads_(from) + pace * (x - from))
      && b.reads_(c.at) == b.reads_(from) + pace * (c.at - from) + c.jump
      && Goes(b, c.at, c.pace, changes[1..], until)
  }

  /** How far the broker's clock has dropped behind one that goes on evenly at a rate. */
  function Dropped(rate: real, from: real, pace: real, changes: seq<Change>, until: real): real
    decreases |changes|
  {
    if changes == [] then (rate - pace) * (until - from)
    else
      var c := changes[0];
      (rate - pace) * (c.at - from) - c.jump + Dropped(rate, c.at, c.pace, changes[1..], until)
  }

  lemma {:induction false} ReadsWhatWasNotDropped(b: Broker, rate: real, from: real, pace: real, changes: seq<Change>,
                                                  until: real)
    requires Goes(b, from, pace, changes, until)
    ensures from <= until
    ensures b.reads_(until) == b.reads_(from) + rate * (until - from) - Dropped(rate, from, pace, changes, until)
    decreases |changes|
  {
    if changes == [] {
      Apart(rate, pace, until - from);
    } else {
      var c := changes[0];
      ReadsWhatWasNotDropped(b, rate, c.at, c.pace, changes[1..], until);
      Apart(rate, pace, c.at - from);
      InTwo(rate, from, c.at, until);
    }
  }

  lemma Apart(rate: real, pace: real, span: real)
    ensures pace * span == rate * span - (rate - pace) * span
  {}

  lemma InTwo(rate: real, x: real, y: real, z: real)
    ensures rate * (z - x) == rate * (y - x) + rate * (z - y)
  {}

  /** A clock anchored on this reading is ahead of the broker by so much. */
  ghost function Lead(b: Broker, taken: real, landed: real, t: real): real {
    At(Anchored(None, Reading(b.reads_(taken), b.rate(taken)), landed), t) - b.reads_(t)
  }

  ghost predicate IsAhead(b: Broker, taken: real, landed: real, t: real) {
    Lead(b, taken, landed, t) > 0.0
  }

  /** However often the broker is changed: the clock is ahead of it by all it has dropped behind the rate it
      gave, less what it would have run through while the answer was on its way. */
  lemma AheadByWhatWasDropped(b: Broker, rate: real, taken: real, landed: real, changes: seq<Change>, t: real)
    requires Goes(b, taken, rate, changes, t) && b.rate(taken) == rate >= 0.0
    ensures Lead(b, taken, landed, t) == Dropped(rate, taken, rate, changes, t) - rate * (landed - taken)
  {
    ReadsWhatWasNotDropped(b, rate, taken, rate, changes, t);
    InTwo(rate, taken, landed, t);
  }

  /** Changed once, it is run ahead of exactly while it has lost more, by jumping back and by going slower, than
      it ran through while the answer was on its way: going slower, from an instant on; going faster, until one;
      and at the same pace always, if it jumped back so far. */
  lemma RunsAheadExactlyWhile(b: Broker, rate: real, taken: real, landed: real, c: Change, t: real)
    requires Goes(b, taken, rate, [c], t) && b.rate(taken) == rate >= 0.0
    ensures IsAhead(b, taken, landed, t) <==> (rate - c.pace) * (t - c.at) > Slack(rate, taken, landed, c)
    ensures IsAhead(b, taken, landed, t)
            <==> if c.pace < rate then t > Crossing(rate, taken, landed, c)
                 else if c.pace > rate then t < Crossing(rate, taken, landed, c)
                 else Slack(rate, taken, landed, c) < 0.0
  {
    AheadByWhatWasDropped(b, rate, taken, landed, [c], t);
    OnceDropped(rate, taken, c, t);
    var slack := Slack(rate, taken, landed, c);
    if c.pace < rate {
      Divided(slack, rate - c.pace, t - c.at);
    } else if c.pace > rate {
      Divided(-slack, c.pace - rate, t - c.at);
      Turned(slack, rate - c.pace, t - c.at);
    } else {
      assert (rate - c.pace) * (t - c.at) == 0.0;
    }
  }

  lemma OnceDropped(rate: real, taken: real, c: Change, t: real)
    ensures Dropped(rate, taken, rate, [c], t) == (rate - c.pace) * (t - c.at) - c.jump
  {
    assert [c][1..] == [];
    assert (rate - rate) * (c.at - taken) == 0.0;
  }

  /** How much the broker may lose before it is run ahead of, once it has jumped. */
  function Slack(rate: real, taken: real, landed: real, c: Change): real {
    c.jump + rate * (landed - taken)
  }

  /** When the two read the same. */
  function Crossing(rate: real, taken: real, landed: real, c: Change): real
    requires c.pace != rate
  {
    c.at + Slack(rate, taken, landed, c) / (rate - c.pace)
  }

  lemma Divided(a: real, d: real, x: real)
    requires d > 0.0
    ensures d * x > a <==> x > a / d
    ensures d * x < a <==> x < a / d
  {
    var q := a / d;
    assert q * d == a;
    if x > q {
      Grows(d, q, x);
    } else if x < q {
      Grows(d, x, q);
    }
  }

  lemma Turned(a: real, d: real, x: real)
    requires d < 0.0
    ensures (-a) / (-d) == a / d && d * x == -((-d) * x)
  {
    var q := a / d;
    assert q * d == a;
    assert q * (-d) == -a;
  }

  lemma Grows(d: real, x: real, y: real)
    requires d > 0.0 && x < y
    ensures d * x < d * y
  {}

  /** A broker that is changed once. */
  function Changing(rate: real, c: Change): Broker {
    Broker(t => if t < c.at then rate * (t - c.at) else c.jump + c.pace * (t - c.at), t => if t < c.at
        then rate else c.pace)
  }

  lemma ChangingGoes(rate: real, c: Change, from: real, until: real)
    requires from < c.at <= until
    ensures Goes(Changing(rate, c), from, rate, [c], until)
  {
    var b := Changing(rate, c);
    forall x: real | from <= x < c.at ensures b.reads_(x) == b.reads_(from) + rate * (x - from) {
      InTwo(rate, from, x, c.at);
    }
    ChangedGoes(rate, c, until);
    assert [c][1..] == [];
    assert b.reads_(from) == rate * (from - c.at);
    InTwo(rate, from, c.at, from);
  }

  lemma ChangedGoes(rate: real, c: Change, until: real)
    requires c.at <= until
    ensures Changing(rate, c).reads_(c.at) == c.jump && Goes(Changing(rate, c), c.at, c.pace, [], until)
  {
    assert c.pace * (c.at - c.at) == 0.0;
  }

  function Later(x: real, y: real): real {
    if x < y then y else x
  }

  lemma AheadOfChanging(rate: real, taken: real, landed: real, c: Change, t: real)
    requires rate >= 0.0 && taken < c.at <= t
    ensures IsAhead(Changing(rate, c), taken, landed, t)
            <==> (rate - c.pace) * (t - c.at) > Slack(rate, taken, landed, c)
    ensures c.pace < rate ==>
              (IsAhead(Changing(rate, c), taken, landed, t) <==> t > Crossing(rate, taken, landed, c))
  {
    ChangingGoes(rate, c, taken, t);
    RunsAheadExactlyWhile(Changing(rate, c), rate, taken, landed, c, t);
  }

  /** One that goes no slower is run ahead of at once if at all. */
  lemma AheadAtOnce(rate: real, taken: real, landed: real, c: Change, soon: real, t: real)
    requires rate >= 0.0 && taken < c.at <= soon <= t && c.pace >= rate
    ensures IsAhead(Changing(rate, c), taken, landed, t) ==> IsAhead(Changing(rate, c), taken, landed, soon)
  {
    AheadOfChanging(rate, taken, landed, c, soon);
    AheadOfChanging(rate, taken, landed, c, t);
    AtMostTimes(c.pace - rate, soon - c.at, t - c.at);
    Turn(rate, c.pace, t - c.at);
    Turn(rate, c.pace, soon - c.at);
  }

  lemma AheadInTheEnd(rate: real, taken: real, landed: real, c: Change, soon: real) returns (t: real)
    requires rate >= 0.0 && taken < c.at <= soon && c.pace < rate
    ensures soon <= t && IsAhead(Changing(rate, c), taken, landed, t)
  {
    t := Later(soon, Crossing(rate, taken, landed, c)) + 1.0;
    AheadOfChanging(rate, taken, landed, c, t);
  }

  /** So a broker changed once after a reading is never run ahead of from then on exactly when it does not go
      slower, and has not lost, by when both the change and the answer are there, more than it ran through while
      the answer was on its way. */
  lemma NeverAheadExactlyWhen(rate: real, taken: real, landed: real, c: Change)
    requires rate >= 0.0 && taken < c.at && taken <= landed
    ensures (forall t: real :: Later(c.at, landed) <= t ==> !IsAhead(Changing(rate, c), taken, landed, t))
            <==> c.pace >= rate
                 && -c.jump <= rate * (landed - taken) + (c.pace - rate) * (Later(c.at, landed) - c.at)
  {
    var both := Later(c.at, landed);
    if c.pace < rate {
      var t := AheadInTheEnd(rate, taken, landed, c, both);
    } else {
      forall t: real | both <= t
        ensures IsAhead(Changing(rate, c), taken, landed, t) ==> IsAhead(Changing(rate, c), taken, landed, both)
      {
        AheadAtOnce(rate, taken, landed, c, both, t);
      }
      AheadOfChanging(rate, taken, landed, c, both);
      Turn(rate, c.pace, both - c.at);
    }
  }

  lemma Turn(rate: real, pace: real, span: real)
    ensures (rate - pace) * span == -((pace - rate) * span)
  {}

  lemma AtMostTimes(d: real, x: real, y: real)
    requires d >= 0.0 && x <= y
    ensures d * x <= d * y
  {}

  /** A broker that stops a second after its answer has landed, which took a second, is run ahead of from a
      second after that. */
  lemma RunsAheadOfABrokerThatStops(t: real)
    requires t >= 0.0
    ensures IsAhead(Changing(1.0, Change(0.0, 0.0, 0.0)), -2.0, -1.0, t) <==> t > 1.0
  {
    var c := Change(0.0, 0.0, 0.0);
    ChangingGoes(1.0, c, -2.0, t);
    RunsAheadExactlyWhile(Changing(1.0, c), 1.0, -2.0, -1.0, c, t);
  }

  /** One that a simulation sets back by a year, at no other pace, is run ahead of from that instant on. */
  lemma RunsAheadOfABrokerSetBack(t: real)
    requires t >= 0.0
    ensures IsAhead(Changing(1.0, Change(0.0, -31536000.0, 1.0)), -2.0, -1.0, t)
  {
    var c := Change(0.0, -31536000.0, 1.0);
    ChangingGoes(1.0, c, -2.0, t);
    RunsAheadExactlyWhile(Changing(1.0, c), 1.0, -2.0, -1.0, c, t);
  }
}
