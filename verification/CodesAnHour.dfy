/** How many codes one address is sent in an hour, and how many of them stand once some are taken back.  Calls
    may be served out of the order their clock was read in, by no more than a skew. */
module CodesAnHour {
  import opened Text
  import opened AddressCodes
  import opened CodeHistory

  /** No call is served after one that read the clock more than `skew` later. */
  ghost predicate Skewed(h: seq<Entry>, skew: nat) {
    forall i, j :: 0 <= i <= j < |h| ==> h[i].call.now <= h[j].call.now + skew
  }

  /** When the budget period a call leaves running was opened. */
  function PeriodOf(h: seq<Entry>, i: nat): int
    requires i < |h| && h[i].after.Some?
  {
    h[i].after.value.openedAt
  }

  predicate SentAt(h: seq<Entry>, i: nat) {
    i < |h| && h[i].reply.Sent? && h[i].after.Some?
  }

  predicate TakesBackAt(h: seq<Entry>, j: nat) {
    j < |h| && h[j].call.act.TakeBack? && h[j].after.Some?
  }

  /** The codes sent from one instant until another. */
  ghost function SentWithin(h: seq<Entry>, from: int, until: int): set<nat> {
    set i | 0 <= i < |h| && h[i].reply.Sent? && from <= h[i].call.now < until
  }

  ghost function SentInHour(h: seq<Entry>, a: int): set<nat> {
    SentWithin(h, a, a + CODE_BUDGET_WINDOW)
  }

  ghost predicate NothingTakenBack(h: seq<Entry>) {
    forall i :: 0 <= i < |h| ==> !h[i].call.act.TakeBack?
  }

  /** `of[j]` is the call whose code the taking back at `j` is for: one sent before, and taken back once. */
  ghost predicate Refunds(h: seq<Entry>, of: map<nat, nat>) {
    && (forall j :: 0 <= j < |h| && h[j].call.act.TakeBack? ==> j in of && of[j] < j && h[of[j]].reply.Sent?)
    && forall j, k :: 0 <= j < k < |h| && h[j].call.act.TakeBack? && h[k].call.act.TakeBack? && j in of && k in of
         ==> of[j] != of[k]
  }

  /** The first `n` calls take this code back. */
  ghost predicate IsTakenBack(h: seq<Entry>, of: map<nat, nat>, n: nat, i: nat)
    requires n <= |h|
  {
    exists j :: 0 <= j < n && h[j].call.act.TakeBack? && j in of && of[j] == i
  }

  /** The codes sent in one period that the first `n` calls leave standing. */
  ghost function Standing(h: seq<Entry>, of: map<nat, nat>, n: nat, period: int): set<nat>
    requires n <= |h|
  {
    set i | 0 <= i < n && SentAt(h, i) && PeriodOf(h, i) == period && !IsTakenBack(h, of, n, i)
  }

  /** A code is taken back late when its own period is over. */
  ghost predicate IsLate(h: seq<Entry>, of: map<nat, nat>, j: nat) {
    TakesBackAt(h, j) && j in of && SentAt(h, of[j]) && PeriodOf(h, of[j]) != PeriodOf(h, j)
  }

  /** What one period takes back late, among the first `n` calls. */
  ghost function LateIn(h: seq<Entry>, of: map<nat, nat>, n: nat, period: int): set<nat>
    requires n <= |h|
  {
    set j | 0 <= j < n && IsLate(h, of, j) && PeriodOf(h, j) == period
  }

  ghost function Late(h: seq<Entry>, of: map<nat, nat>): set<nat> {
    set j | 0 <= j < |h| && IsLate(h, of, j)
  }

  ghost function StandWithin(h: seq<Entry>, of: map<nat, nat>, from: int, until: int): set<nat> {
    set i | i in SentWithin(h, from, until) && !IsTakenBack(h, of, |h|, i)
  }

  ghost function StandInHour(h: seq<Entry>, of: map<nat, nat>, a: int): set<nat> {
    StandWithin(h, of, a, a + CODE_BUDGET_WINDOW)
  }

  // ---- periods ----

  /** A sent code leaves a record, and a period is opened by the first code of it. */
  lemma {:induction false} OpenerOf(h: seq<Entry>, n: nat) returns (k: nat)
    requires IsHistory(None, h) && n <= |h| && Held(h, n).Some?
    ensures k < n && SentAt(h, k) && h[k].call.now == PeriodOf(h, k) == Held(h, n).value.openedAt
  {
    assert FollowsAt(None, h, n - 1);
    if h[n - 1].call.act.Ask? && Reopens(Held(h, n - 1), h[n - 1].call.now) {
      k := n - 1;
    } else {
      k := OpenerOf(h, n - 1);
    }
  }

  lemma SentLeavesARecord(h: seq<Entry>, i: nat)
    requires IsHistory(None, h) && i < |h| && h[i].reply.Sent?
    ensures SentAt(h, i)
  {
    assert FollowsAt(None, h, i);
  }

  /** A code is sent before its period is over, and before it opens by no more than the skew. */
  lemma SentInItsPeriod(h: seq<Entry>, skew: nat, i: nat)
    requires IsHistory(None, h) && Skewed(h, skew) && SentAt(h, i)
    ensures PeriodOf(h, i) - skew <= h[i].call.now < PeriodOf(h, i) + CODE_BUDGET_WINDOW
  {
    assert FollowsAt(None, h, i);
    var k := OpenerOf(h, i + 1);
  }

  /** Periods open at least an hour apart, and are never gone back to. */
  lemma {:induction false} PeriodsAreApart(h: seq<Entry>, i: nat, j: nat)
    requires IsHistory(None, h) && i <= j < |h| && h[i].after.Some?
    ensures h[j].after.Some?
    ensures PeriodOf(h, j) == PeriodOf(h, i) || PeriodOf(h, j) >= PeriodOf(h, i) + CODE_BUDGET_WINDOW
  {
    if i < j {
      PeriodsAreApart(h, i, j - 1);
      assert FollowsAt(None, h, j);
    }
  }

  // ---- what stands of a period ----

  /** What stands of a period is no more than its record counts, while it runs, and than a budget once it is
      over; but for what it took back late. */
  ghost predicate Counted(h: seq<Entry>, of: map<nat, nat>, n: nat, period: int)
    requires n <= |h|
  {
    match Held(h, n)
    case None => Standing(h, of, n, period) == {}
    case Some(r) =>
      && 0 <= r.codesSent <= CODES_PER_ADDRESS
      && (r.openedAt < period ==> Standing(h, of, n, period) == {})
      && |Standing(h, of, n, period)|
         <= (if r.openedAt == period then r.codesSent else CODES_PER_ADDRESS) + |LateIn(h, of, n, period)|
  }

  /** A call that takes nothing back adds its own code to what stands, if it sends one. */
  lemma OneMoreCall(h: seq<Entry>, of: map<nat, nat>, n: nat, period: int)
    requires n < |h| && !h[n].call.act.TakeBack?
    requires Refunds(h, of)
    ensures LateIn(h, of, n + 1, period) == LateIn(h, of, n, period)
    ensures Standing(h, of, n + 1, period)
            == Standing(h, of, n, period) + if SentAt(h, n) && PeriodOf(h, n) == period then {n} else {}
  {
    forall i ensures IsTakenBack(h, of, n + 1, i) <==> IsTakenBack(h, of, n, i) {
      if j :| 0 <= j < n + 1 && h[j].call.act.TakeBack? && j in of && of[j] == i {
        assert j < n;
      }
    }
    assert !IsTakenBack(h, of, n, n);
    if SentAt(h, n) && PeriodOf(h, n) == period {
      assert Standing(h, of, n + 1, period) == Standing(h, of, n, period) + {n};
    } else {
      assert Standing(h, of, n + 1, period) == Standing(h, of, n, period);
    }
  }

  lemma OneMoreIsTakenBack(h: seq<Entry>, of: map<nat, nat>, n: nat, i: nat)
    requires n < |h| && Refunds(h, of) && h[n].call.act.TakeBack?
    ensures IsTakenBack(h, of, n + 1, i) <==> IsTakenBack(h, of, n, i) || i == of[n]
    ensures !IsTakenBack(h, of, n, of[n])
  {
    if i == of[n] {
      assert h[n].call.act.TakeBack? && n in of;
    }
  }

  /** A taking back takes its code from what stood of that code's period. */
  lemma StandingLoses(h: seq<Entry>, of: map<nat, nat>, n: nat, period: int)
    requires n < |h| && Refunds(h, of) && TakesBackAt(h, n) && !h[n].reply.Sent? && SentAt(h, of[n])
    ensures |Standing(h, of, n + 1, period)|
            == |Standing(h, of, n, period)| - if PeriodOf(h, of[n]) == period then 1 else 0
  {
    forall i: nat ensures IsTakenBack(h, of, n + 1, i) <==> IsTakenBack(h, of, n, i) || i == of[n] {
      OneMoreIsTakenBack(h, of, n, i);
    }
    OneMoreIsTakenBack(h, of, n, n);
    assert Standing(h, of, n + 1, period) == Standing(h, of, n, period) - {of[n]};
  }

  /** And it is late in its own, where that is another. */
  lemma LateGains(h: seq<Entry>, of: map<nat, nat>, n: nat, period: int)
    requires n < |h| && n in of && TakesBackAt(h, n) && SentAt(h, of[n])
    ensures |LateIn(h, of, n + 1, period)|
            == |LateIn(h, of, n, period)| + if PeriodOf(h, n) == period != PeriodOf(h, of[n]) then 1 else 0
  {
    if IsLate(h, of, n) && PeriodOf(h, n) == period {
      assert LateIn(h, of, n + 1, period) == LateIn(h, of, n, period) + {n};
    } else {
      assert LateIn(h, of, n + 1, period) == LateIn(h, of, n, period);
    }
  }

  /** What one call does to the record's count and period, apart from the sets. */
  predicate Moves(held: Option<Record>, e: Entry) {
    match e.after
    case None => held.None? && !e.reply.Sent?
    case Some(r) =>
      if e.reply.Sent? && Reopens(held, e.call.now) then r.openedAt == e.call.now && r.codesSent == 1
      else
        && held.Some? && r.openedAt == held.value.openedAt
        && if e.reply.Sent? then r.codesSent == held.value.codesSent + 1 <= CODES_PER_ADDRESS
           else if e.call.act.TakeBack?
           then r.codesSent == if held.value.codesSent > 0 then held.value.codesSent - 1 else held.value.codesSent
           else r.codesSent == held.value.codesSent
  }

  lemma CallMoves(held: Option<Record>, e: Entry)
    requires Follows(held, e)
    ensures Moves(held, e) && (e.reply.Sent? ==> e.after.Some?) && (e.call.act.TakeBack? ==> !e.reply.Sent?)
  {}

  lemma SendIsCounted(h: seq<Entry>, of: map<nat, nat>, n: nat, period: int)
    requires Refunds(h, of) && n < |h| && Counted(h, of, n, period)
    requires Moves(Held(h, n), h[n]) && SentAt(h, n) && !h[n].call.act.TakeBack?
    ensures Counted(h, of, n + 1, period)
  {
    OneMoreCall(h, of, n, period);
    assert n !in Standing(h, of, n, period);
  }

  lemma StepIsCounted(h: seq<Entry>, of: map<nat, nat>, n: nat, period: int)
    requires IsHistory(None, h) && Refunds(h, of) && n < |h| && Counted(h, of, n, period)
    ensures Counted(h, of, n + 1, period)
  {
    assert FollowsAt(None, h, n);
    CallMoves(Held(h, n), h[n]);
    if h[n].call.act.TakeBack? {
      SentLeavesARecord(h, of[n]);
      PeriodsAreApart(h, of[n], n);
      StandingLoses(h, of, n, period);
      LateGains(h, of, n, period);
    } else if h[n].reply.Sent? {
      SendIsCounted(h, of, n, period);
    } else {
      OneMoreCall(h, of, n, period);
    }
  }

  lemma {:induction false} StandingIsCounted(h: seq<Entry>, of: map<nat, nat>, n: nat, period: int)
    requires IsHistory(None, h) && Refunds(h, of) && n <= |h|
    ensures Counted(h, of, n, period)
  {
    if n > 0 {
      StandingIsCounted(h, of, n - 1, period);
      StepIsCounted(h, of, n - 1, period);
    }
  }

  // ---- how many an hour ----

  lemma Within<T>(small: set<T>, large: set<T>)
    requires small <= large
    ensures |small| <= |large|
  {
    if small != large {
      assert |large - small| + |small| == |large| by { assert (large - small) + small == large; }
    }
  }

  lemma Apart<T>(one: set<T>, other: set<T>)
    requires one !! other
    ensures |one + other| == |one| + |other|
  {}

  lemma BothWithin<T>(s: set<T>, one: set<T>, other: set<T>)
    requires s <= one + other
    ensures |s| <= |one| + |other|
  {
    Within(s, one + other);
    assert |one + other| == |one| + |other| - |one * other|;
  }

  /** What a whole history leaves standing of one period. */
  lemma PeriodStands(h: seq<Entry>, of: map<nat, nat>, period: int)
    requires IsHistory(None, h) && Refunds(h, of)
    ensures |Standing(h, of, |h|, period)| <= CODES_PER_ADDRESS + |LateIn(h, of, |h|, period)|
  {
    StandingIsCounted(h, of, |h|, period);
  }

  /** No three periods have a code in a span that is shorter than an hour by the skew. */
  lemma NoThreePeriods(h: seq<Entry>, skew: nat, i: nat, j: nat, k: nat)
    requires IsHistory(None, h) && Skewed(h, skew) && SentAt(h, i) && SentAt(h, j) && SentAt(h, k)
    requires PeriodOf(h, i) < PeriodOf(h, j) < PeriodOf(h, k)
    ensures h[k].call.now - h[i].call.now > CODE_BUDGET_WINDOW - skew
  {
    SentInItsPeriod(h, skew, i);
    SentInItsPeriod(h, skew, k);
    TwoPeriods(h, i, j);
    TwoPeriods(h, j, k);
  }

  lemma TwoPeriods(h: seq<Entry>, i: nat, j: nat)
    requires IsHistory(None, h) && SentAt(h, i) && SentAt(h, j) && PeriodOf(h, i) < PeriodOf(h, j)
    ensures PeriodOf(h, j) >= PeriodOf(h, i) + CODE_BUDGET_WINDOW
  {
    if i <= j { PeriodsAreApart(h, i, j); } else { PeriodsAreApart(h, j, i); }
  }

  /** The codes of a span that belong to one period. */
  ghost function OfPeriod(h: seq<Entry>, s: set<nat>, period: int): set<nat> {
    set i | i in s && SentAt(h, i) && PeriodOf(h, i) == period
  }

  /** Two periods between them have every code of such a span, the later at least an hour after the earlier. */
  lemma TwoPeriodsCover(h: seq<Entry>, skew: nat, s: set<nat>, from: int) returns (one: int, other: int)
    requires IsHistory(None, h) && Skewed(h, skew)
    requires forall i :: i in s ==> SentAt(h, i) && from <= h[i].call.now < from + CODE_BUDGET_WINDOW - skew
    ensures s == OfPeriod(h, s, one) + OfPeriod(h, s, other) && one != other
    ensures OfPeriod(h, s, other) == {} || (one + CODE_BUDGET_WINDOW <= other && OfPeriod(h, s, one) != {})
  {
    if i, j :| i in s && j in s && PeriodOf(h, i) < PeriodOf(h, j) {
      one, other := PeriodOf(h, i), PeriodOf(h, j);
      TwoPeriods(h, i, j);
      assert i in OfPeriod(h, s, one);
      forall k | k in s ensures PeriodOf(h, k) == one || PeriodOf(h, k) == other {
        if PeriodOf(h, k) < one {
          NoThreePeriods(h, skew, k, i, j);
        } else if one < PeriodOf(h, k) < other {
          NoThreePeriods(h, skew, i, k, j);
        } else if other < PeriodOf(h, k) {
          NoThreePeriods(h, skew, i, j, k);
        }
      }
    } else if s == {} {
      one, other := 0, 1;
    } else {
      var i :| i in s;
      one, other := PeriodOf(h, i), PeriodOf(h, i) + 1;
    }
  }

  /** Whatever is taken back and whenever, with a skew of the clock: a span shorter than an hour by the skew is
      left with no more than six codes that stand, and one more for every code taken back after its period. */
  lemma AtMostSixAndTheLateStand(h: seq<Entry>, of: map<nat, nat>, skew: nat, from: int)
    requires IsHistory(None, h) && Skewed(h, skew) && Refunds(h, of)
    ensures |StandWithin(h, of, from, from + CODE_BUDGET_WINDOW - skew)| <= 2 * CODES_PER_ADDRESS + |Late(h, of)|
  {
    var s := StandWithin(h, of, from, from + CODE_BUDGET_WINDOW - skew);
    forall i | i in s ensures SentAt(h, i) { SentLeavesARecord(h, i); }
    var one, other := TwoPeriodsCover(h, skew, s, from);
    BothWithin(s, Standing(h, of, |h|, one), Standing(h, of, |h|, other));
    PeriodStands(h, of, one);
    PeriodStands(h, of, other);
    LateOfTwo(h, of, one, other);
  }

  lemma LateOfTwo(h: seq<Entry>, of: map<nat, nat>, one: int, other: int)
    requires one != other
    ensures |LateIn(h, of, |h|, one)| + |LateIn(h, of, |h|, other)| <= |Late(h, of)|
  {
    Apart(LateIn(h, of, |h|, one), LateIn(h, of, |h|, other));
    Within(LateIn(h, of, |h|, one) + LateIn(h, of, |h|, other), Late(h, of));
  }

  /** Where each code taken back is taken back in its own period, no hour is left with more than six. */
  lemma AtMostSixCodesStandAnHour(h: seq<Entry>, of: map<nat, nat>, a: int)
    requires Played(h) && Refunds(h, of) && Late(h, of) == {}
    ensures |StandInHour(h, of, a)| <= 6
  {
    AtMostSixAndTheLateStand(h, of, 0, a);
  }

  lemma PeriodSends(h: seq<Entry>, s: set<nat>, period: int)
    requires IsHistory(None, h) && NothingTakenBack(h)
    ensures |OfPeriod(h, s, period)| <= CODES_PER_ADDRESS
    ensures forall k :: SentAt(h, k) && PeriodOf(h, k) == period && k !in s ==>
              |OfPeriod(h, s, period)| < CODES_PER_ADDRESS
  {
    var all := Standing(h, map[], |h|, period);
    PeriodStands(h, map[], period);
    assert LateIn(h, map[], |h|, period) == {};
    Within(OfPeriod(h, s, period), all);
    forall k | SentAt(h, k) && PeriodOf(h, k) == period && k !in s
        ensures |OfPeriod(h, s, period)| < CODES_PER_ADDRESS {
      Within(OfPeriod(h, s, period), all - {k});
    }
  }

  /** The first code of a period comes an hour before any of a later one, but for the skew. */
  lemma FirstComesBefore(h: seq<Entry>, skew: nat, i: nat, j: nat) returns (k: nat)
    requires IsHistory(None, h) && Skewed(h, skew) && SentAt(h, i) && SentAt(h, j)
    requires PeriodOf(h, i) + CODE_BUDGET_WINDOW <= PeriodOf(h, j)
    ensures SentAt(h, k) && PeriodOf(h, k) == PeriodOf(h, i)
    ensures h[k].call.now + CODE_BUDGET_WINDOW - skew <= h[j].call.now
  {
    SentInItsPeriod(h, skew, j);
    k := OpenerOf(h, i + 1);
  }

  /** With nothing taken back, a span shorter than an hour by the skew holds no more than five codes: two left
      over from the period it starts in, whose first came before, and three of the one that opens inside it. */
  lemma AtMostFiveCodes(h: seq<Entry>, skew: nat, from: int)
    requires IsHistory(None, h) && Skewed(h, skew) && NothingTakenBack(h)
    ensures |SentWithin(h, from, from + CODE_BUDGET_WINDOW - skew)| <= 5
  {
    var s := SentWithin(h, from, from + CODE_BUDGET_WINDOW - skew);
    forall i | i in s ensures SentAt(h, i) { SentLeavesARecord(h, i); }
    var one, other := TwoPeriodsCover(h, skew, s, from);
    PeriodSends(h, s, one);
    PeriodSends(h, s, other);
    BothWithin(s, OfPeriod(h, s, one), OfPeriod(h, s, other));
    if OfPeriod(h, s, other) != {} {
      var i :| i in OfPeriod(h, s, one);
      var j :| j in OfPeriod(h, s, other);
      var k := FirstComesBefore(h, skew, i, j);
      assert k !in s;
    }
  }

  /** No hour, wherever it starts, holds more than five codes for an address that takes none back. */
  lemma AtMostFiveCodesAnHour(h: seq<Entry>, a: int)
    requires Played(h) && NothingTakenBack(h)
    ensures |SentInHour(h, a)| <= 5
  {
    AtMostFiveCodes(h, 0, a);
  }

  // ---- the whole hour, with a skew ----

  /** The first code of a period, and when it came. */
  lemma FirstOf(h: seq<Entry>, i: nat) returns (k: nat)
    requires IsHistory(None, h) && SentAt(h, i)
    ensures SentAt(h, k) && PeriodOf(h, k) == PeriodOf(h, i) == h[k].call.now
  {
    k := OpenerOf(h, i + 1);
  }

  /** A period whose first code came outside the span has at most two in it. */
  lemma TwoOfPeriod(h: seq<Entry>, from: int, until: int, i: nat)
    requires IsHistory(None, h) && NothingTakenBack(h) && SentAt(h, i)
    requires PeriodOf(h, i) < from || PeriodOf(h, i) >= until
    ensures |OfPeriod(h, SentWithin(h, from, until), PeriodOf(h, i))| <= 2
  {
    var k := FirstOf(h, i);
    PeriodSends(h, SentWithin(h, from, until), PeriodOf(h, i));
    assert k !in SentWithin(h, from, until);
  }

  /** Four periods never meet in an hour, with up to an hour of skew. */
  lemma NoFourPeriods(h: seq<Entry>, skew: nat, i: nat, j: nat, k: nat, l: nat)
    requires IsHistory(None, h) && Skewed(h, skew) && skew <= CODE_BUDGET_WINDOW
    requires SentAt(h, i) && SentAt(h, j) && SentAt(h, k) && SentAt(h, l)
    requires PeriodOf(h, i) < PeriodOf(h, j) < PeriodOf(h, k) < PeriodOf(h, l)
    ensures h[l].call.now - h[i].call.now >= CODE_BUDGET_WINDOW
  {
    TwoPeriods(h, i, j);
    TwoPeriods(h, j, k);
    TwoPeriods(h, k, l);
    SentInItsPeriod(h, skew, i);
    SentInItsPeriod(h, skew, l);
  }

  /** Of three periods in an hour, the first code of the earliest and of the latest fall outside it. */
  lemma SevenOfThree(h: seq<Entry>, skew: nat, a: int, i: nat, j: nat, k: nat)
    requires IsHistory(None, h) && Skewed(h, skew) && skew <= CODE_BUDGET_WINDOW && NothingTakenBack(h)
    requires i in SentInHour(h, a) && j in SentInHour(h, a) && k in SentInHour(h, a)
    requires SentAt(h, i) && SentAt(h, j) && SentAt(h, k) && PeriodOf(h, i) < PeriodOf(h, j) < PeriodOf(h, k)
    ensures |SentInHour(h, a)| <= 7
  {
    var s := SentInHour(h, a);
    forall l | l in s ensures SentAt(h, l) && PeriodOf(h, l) in {PeriodOf(h, i), PeriodOf(h, j), PeriodOf(h, k)} {
      SentLeavesARecord(h, l);
      if PeriodOf(h, l) < PeriodOf(h, i) {
        NoFourPeriods(h, skew, l, i, j, k);
      } else if PeriodOf(h, i) < PeriodOf(h, l) < PeriodOf(h, j) {
        NoFourPeriods(h, skew, i, l, j, k);
      } else if PeriodOf(h, j) < PeriodOf(h, l) < PeriodOf(h, k) {
        NoFourPeriods(h, skew, i, j, l, k);
      } else if PeriodOf(h, k) < PeriodOf(h, l) {
        NoFourPeriods(h, skew, i, j, k, l);
      }
    }
    TwoPeriods(h, i, j);
    TwoPeriods(h, j, k);
    SentInItsPeriod(h, skew, i);
    SentInItsPeriod(h, skew, k);
    TwoOfPeriod(h, a, a + CODE_BUDGET_WINDOW, i);
    TwoOfPeriod(h, a, a + CODE_BUDGET_WINDOW, k);
    PeriodSends(h, s, PeriodOf(h, j));
    var x, y, z := OfPeriod(h, s, PeriodOf(h, i)), OfPeriod(h, s, PeriodOf(h, j)), OfPeriod(h, s, PeriodOf(h, k));
    BothWithin(s, x + y, z);
    BothWithin(x + y, x, y);
  }

  /** Three periods do not meet in an hour when calls change places by a tick at the most. */
  lemma NoThreeInTheHour(h: seq<Entry>, skew: nat, i: nat, j: nat, k: nat)
    requires IsHistory(None, h) && Skewed(h, skew) && skew <= 1 && SentAt(h, i) && SentAt(h, j) && SentAt(h, k)
    requires PeriodOf(h, i) < PeriodOf(h, j) < PeriodOf(h, k)
    ensures h[k].call.now - h[i].call.now >= CODE_BUDGET_WINDOW
  {
    NoThreePeriods(h, skew, i, j, k);
  }

  /** The codes of an hour that holds two periods and no third. */
  lemma OfTwo(h: seq<Entry>, skew: nat, a: int, i: nat, j: nat)
    requires IsHistory(None, h) && Skewed(h, skew) && NothingTakenBack(h)
    requires i in SentInHour(h, a) && j in SentInHour(h, a) && SentAt(h, i) && SentAt(h, j)
             && PeriodOf(h, i) < PeriodOf(h, j)
    requires forall l :: l in SentInHour(h, a) ==>
               SentAt(h, l) && (PeriodOf(h, l) == PeriodOf(h, i) || PeriodOf(h, l) == PeriodOf(h, j))
    ensures |SentInHour(h, a)| <= 6 && (skew <= 1 ==> |SentInHour(h, a)| <= 5)
  {
    var s := SentInHour(h, a);
    PeriodSends(h, s, PeriodOf(h, i));
    PeriodSends(h, s, PeriodOf(h, j));
    BothWithin(s, OfPeriod(h, s, PeriodOf(h, i)), OfPeriod(h, s, PeriodOf(h, j)));
    if skew <= 1 {
      TwoPeriods(h, i, j);
      SentInItsPeriod(h, skew, j);
      TwoOfPeriod(h, a, a + CODE_BUDGET_WINDOW, if PeriodOf(h, i) < a then i else j);
    }
  }

  lemma OfOne(h: seq<Entry>, a: int)
    requires IsHistory(None, h) && NothingTakenBack(h)
    requires forall i, j :: i in SentInHour(h, a) && j in SentInHour(h, a) && SentAt(h, i) && SentAt(h, j) ==>
               PeriodOf(h, i) == PeriodOf(h, j)
    ensures |SentInHour(h, a)| <= 3
  {
    var s := SentInHour(h, a);
    if s != {} {
      var i :| i in s;
      forall l | l in s ensures SentAt(h, l) { SentLeavesARecord(h, l); }
      PeriodSends(h, s, PeriodOf(h, i));
      Within(s, OfPeriod(h, s, PeriodOf(h, i)));
    }
  }

  /** With nothing taken back, a whole hour holds no more than seven codes when calls may change places by up to
      an hour, and no more than five when by a tick. */
  lemma AtMostSevenCodesAnHour(h: seq<Entry>, skew: nat, a: int)
    requires IsHistory(None, h) && Skewed(h, skew) && skew <= CODE_BUDGET_WINDOW && NothingTakenBack(h)
    ensures |SentInHour(h, a)| <= 7 && (skew <= 1 ==> |SentInHour(h, a)| <= 5)
  {
    var s := SentInHour(h, a);
    forall l | l in s ensures SentAt(h, l) { SentLeavesARecord(h, l); }
    if i, j, k :| i in s && j in s && k in s && PeriodOf(h, i) < PeriodOf(h, j) < PeriodOf(h, k) {
      if skew <= 1 {
        NoThreeInTheHour(h, skew, i, j, k);
      }
      SevenOfThree(h, skew, a, i, j, k);
    } else if i, j :| i in s && j in s && PeriodOf(h, i) < PeriodOf(h, j) {
      OfTwo(h, skew, a, i, j);
    } else {
      OfOne(h, a);
    }
  }

  // ---- the bounds are reached ----

  /** An ask that is answered with a code, the `sent`th its period counts. */
  function Sends(now: int, period: int, sent: int): Entry {
    Entry(At(now, Ask("000000")), Sent("000000"), Some(Record(Some("000000"), now + VALID_FOR, ANSWERS_ALLOWED, sent,
        period)))
  }

  /** The taking back of a code sent at `sentAt`, which leaves the period counting `sent`. */
  function TakesBack(now: int, period: int, sent: int, sentAt: int): Entry {
    Entry(At(now, TakeBack), TakenBack, Some(Record(None, sentAt + VALID_FOR, ANSWERS_ALLOWED, sent, period)))
  }

  /** Five is reached, so the three a period allows is not what an hour allows. */
  lemma FiveCodesAnHourAreReached() returns (h: seq<Entry>, a: int)
    ensures Played(h) && NothingTakenBack(h) && |SentInHour(h, a)| == 5
  {
    var w := CODE_BUDGET_WINDOW;
    h, a := [Sends(0, 0, 1), Sends(w - 1, 0, 2), Sends(w - 1, 0, 3), Sends(w, w, 1), Sends(w, w, 2), Sends(w, w, 3)],
        w - 1;
    assert SentInHour(h, a) == {1, 2, 3, 4, 5};
  }

  /** From two ticks on seven is reached: the last two calls read the clock before the one served first. */
  lemma SevenCodesAnHourAreReached(skew: nat) returns (h: seq<Entry>, a: int)
    requires skew >= 2
    ensures IsHistory(None, h) && Skewed(h, skew) && NothingTakenBack(h) && |SentInHour(h, a)| == 7
  {
    h, a := SevenCodes(), CODE_BUDGET_WINDOW - 1;
    SevenCodesArePlayed();
    SevenCodesInTheHour();
    SevenApart(SentInHour(h, a));
  }

  function SevenCodes(): (h: seq<Entry>)
    ensures |h| == 9
  {
    var w := CODE_BUDGET_WINDOW;
    [Sends(0, 0, 1), Sends(w - 1, 0, 2), Sends(w - 1, 0, 3),
     Sends(w, w, 1), Sends(w, w, 2), Sends(w, w, 3),
     Sends(2 * w, 2 * w, 1), Sends(2 * w - 2, 2 * w, 2), Sends(2 * w - 2, 2 * w, 3)]
  }

  lemma SevenCodesArePlayed()
    ensures IsHistory(None, SevenCodes()) && Skewed(SevenCodes(), 2) && NothingTakenBack(SevenCodes())
  {}

  lemma SevenCodesInTheHour()
    ensures SentInHour(SevenCodes(), CODE_BUDGET_WINDOW - 1) == {1, 2, 3, 4} + {5, 7, 8}
  {}

  lemma SevenApart(s: set<nat>)
    requires s == {1, 2, 3, 4} + {5, 7, 8}
    ensures |s| == 7
  {
    assert {1, 2, 3, 4} !! {5, 7, 8};
  }

  /** Codes sent an hour apart, each in a period of its own, and never seen to arrive; a code taken back at
      once, and three more as its period ends; and in the period after that, between asks, the taking back of
      every one of the early codes. */
  function LateEntry(late: nat, i: nat): Entry {
    var last := late * CODE_BUDGET_WINDOW;
    var next := last + CODE_BUDGET_WINDOW;
    if i < late then Sends(i * CODE_BUDGET_WINDOW, i * CODE_BUDGET_WINDOW, 1)
    else if i == late then Sends(last, last, 1)
    else if i == late + 1 then TakesBack(last, last, 0, last)
    else if i <= late + 4 then Sends(next - 1, last, i - late - 1)
    else if i == late + 5 then Sends(next, next, 1)
    else if i < 3 * late + 6 then
      if (i - late) % 2 == 0 then TakesBack(next, next, 0, next) else Sends(next, next, 1)
    else Sends(next, next, i - 3 * late - 4)
  }

  function LateHistory(late: nat): (h: seq<Entry>)
    ensures |h| == 3 * late + 8
  {
    seq(3 * late + 8, i requires 0 <= i => LateEntry(late, i))
  }

  predicate RefundsAt(late: nat, j: nat) {
    j == late + 1 || (late + 6 <= j < 3 * late + 6 && (j - late) % 2 == 0)
  }

  function LateRefunds(late: nat): map<nat, nat> {
    map j: nat | j < 3 * late + 6 && RefundsAt(late, j) :: RefundOf(late, j)
  }

  function RefundOf(late: nat, j: nat): nat
    requires RefundsAt(late, j)
  {
    if j == late + 1 then late else (j - late - 6) / 2
  }

  lemma LateEntryFollows(late: nat, i: nat)
    requires i < 3 * late + 8
    ensures Follows(if i == 0 then None else LateEntry(late, i - 1).after, LateEntry(late, i))
  {
    if i < late + 6 {
    } else if i < 3 * late + 6 {
      assert (i - late) % 2 != (i - 1 - late) % 2;
    } else if i == 3 * late + 6 && late > 0 {
      assert (i - 1 - late) % 2 == 1;
    }
  }

  lemma LateEntriesAreInOrder(late: nat, i: nat, j: nat)
    requires i <= j < 3 * late + 8
    ensures LateEntry(late, i).call.now <= LateEntry(late, j).call.now
  {}

  lemma LateHistoryIsPlayed(late: nat)
    ensures Played(LateHistory(late))
  {
    var h := LateHistory(late);
    forall i | 0 <= i < |h| ensures FollowsAt(None, h, i) { LateEntryFollows(late, i); }
    forall i, j | 0 <= i <= j < |h| ensures h[i].call.now <= h[j].call.now { LateEntriesAreInOrder(late, i, j); }
  }

  lemma RefundIsMatched(late: nat, j: nat)
    requires j < 3 * late + 8
    ensures LateEntry(late, j).call.act.TakeBack? <==> j in LateRefunds(late)
    ensures RefundsAt(late, j) ==> RefundOf(late, j) < j && LateEntry(late, RefundOf(late, j)).reply.Sent?
  {}

  lemma RefundsDiffer(late: nat, j: nat, k: nat)
    requires RefundsAt(late, j) && RefundsAt(late, k) && j < k
    ensures RefundOf(late, j) != RefundOf(late, k)
  {}

  lemma LateRefundsMatch(late: nat)
    ensures Refunds(LateHistory(late), LateRefunds(late))
  {
    var h, of := LateHistory(late), LateRefunds(late);
    forall j | 0 <= j < |h| && h[j].call.act.TakeBack? ensures j in of && of[j] < j && h[of[j]].reply.Sent? {
      RefundIsMatched(late, j);
    }
    forall j, k | 0 <= j < k < |h| && h[j].call.act.TakeBack? && h[k].call.act.TakeBack? && j in of && k in of
      ensures of[j] != of[k]
    {
      RefundsDiffer(late, j, k);
    }
  }

  /** So many numbers from one on. */
  function Stretch(from: nat, n: nat): set<nat> {
    if n == 0 then {} else Stretch(from, n - 1) + {from + n - 1}
  }

  lemma {:induction false} StretchIs(from: nat, n: nat)
    ensures |Stretch(from, n)| == n
    ensures forall i: nat :: i in Stretch(from, n) <==> from <= i < from + n
  {
    if n > 0 {
      StretchIs(from, n - 1);
    }
  }

  /** So many, leaving out every second. */
  function EveryOther(from: nat, n: nat): set<nat> {
    if n == 0 then {} else EveryOther(from, n - 1) + {from + 2 * (n - 1)}
  }

  predicate IsEveryOther(from: nat, n: nat, i: nat) {
    from <= i < from + 2 * n && (i - from) % 2 == 0
  }

  lemma {:induction false} EveryOtherAt(from: nat, n: nat, i: nat)
    ensures i in EveryOther(from, n) <==> IsEveryOther(from, n, i)
  {
    if n > 0 {
      EveryOtherAt(from, n - 1, i);
    }
  }

  lemma {:induction false} HowManyEveryOther(from: nat, n: nat)
    ensures |EveryOther(from, n)| == n && forall i :: i in EveryOther(from, n) ==> from <= i && i + 1 < from + 2 * n
  {
    if n > 0 {
      HowManyEveryOther(from, n - 1);
    }
  }

  /** The codes that the history leaves standing in the hour from just before its last period. */
  function LateStanding(late: nat): set<nat> {
    Stretch(late + 2, 4) + EveryOther(late + 7, late) + Stretch(3 * late + 6, 2)
  }

  lemma StandingIs(late: nat)
    ensures |LateStanding(late)| == 6 + late
    ensures forall i: nat :: i in LateStanding(late) <==> IsStanding(late, i)
  {
    StretchIs(late + 2, 4);
    var others := EveryOther(late + 7, late);
    HowManyEveryOther(late + 7, late);
    forall i: nat ensures i in others <==> IsEveryOther(late + 7, late, i) { EveryOtherAt(late + 7, late, i); }
    StretchIs(3 * late + 6, 2);
    InParts(late, Stretch(late + 2, 4), others, Stretch(3 * late + 6, 2));
  }

  predicate IsStanding(late: nat, i: nat) {
    || late + 2 <= i < late + 6
    || IsEveryOther(late + 7, late, i)
    || 3 * late + 6 <= i < 3 * late + 8
  }

  lemma InParts(late: nat, a: set<nat>, b: set<nat>, c: set<nat>)
    requires forall i: nat :: i in a <==> late + 2 <= i < late + 6
    requires forall i: nat :: i in b <==> IsEveryOther(late + 7, late, i)
    requires forall i :: i in b ==> late + 7 <= i && i + 1 < 3 * late + 7
    requires forall i: nat :: i in c <==> 3 * late + 6 <= i < 3 * late + 8
    ensures |a + b + c| == |a| + |b| + |c|
    ensures forall i: nat :: i in a + b + c <==> IsStanding(late, i)
  {
    assert a !! b && a !! c && b !! c;
    ThreeApart(a, b, c);
  }

  lemma ThreeApart<T>(a: set<T>, b: set<T>, c: set<T>)
    requires a !! b && a !! c && b !! c
    ensures |a + b + c| == |a| + |b| + |c|
  {
    Apart(a, b);
    Apart(a + b, c);
  }

  lemma SameMembers<T>(a: set<T>, b: set<T>)
    requires forall t :: t in a <==> t in b
    ensures a == b
  {}

  lemma StandsExactlyAt(late: nat, i: nat)
    ensures i in StandInHour(LateHistory(late), LateRefunds(late), (late + 1) * CODE_BUDGET_WINDOW - 1)
            <==> i < 3 * late + 8 && i >= late + 2 && LateEntry(late, i).reply.Sent?
  {
    var h, of := LateHistory(late), LateRefunds(late);
    if IsTakenBack(h, of, |h|, i) {
      var j :| 0 <= j < |h| && h[j].call.act.TakeBack? && j in of && of[j] == i;
      assert RefundsAt(late, j);
    }
  }

  lemma LateStandsInTheHour(late: nat)
    ensures |StandInHour(LateHistory(late), LateRefunds(late), (late + 1) * CODE_BUDGET_WINDOW - 1)| == 6 + late
  {
    var standing := StandInHour(LateHistory(late), LateRefunds(late), (late + 1) * CODE_BUDGET_WINDOW - 1);
    StandingIs(late);
    forall i: nat ensures i in standing <==> i in LateStanding(late) {
      StandsExactlyAt(late, i);
      SendsExactlyAt(late, i);
    }
    SameMembers(standing, LateStanding(late));
  }

  lemma SendsExactlyAt(late: nat, i: nat)
    ensures i < 3 * late + 8 && i >= late + 2 && LateEntry(late, i).reply.Sent?
            <==> IsStanding(late, i)
  {}

  lemma LateExactlyAt(late: nat, j: nat)
    requires j < 3 * late + 8
    ensures IsLate(LateHistory(late), LateRefunds(late), j) <==> late + 6 <= j && RefundsAt(late, j)
  {
    var h := LateHistory(late);
    assert h[j] == LateEntry(late, j);
    RefundIsMatched(late, j);
    if RefundsAt(late, j) {
      assert h[RefundOf(late, j)] == LateEntry(late, RefundOf(late, j));
    }
  }

  lemma LateIs(late: nat, j: nat)
    ensures j in Late(LateHistory(late), LateRefunds(late)) <==> IsEveryOther(late + 6, late, j)
  {
    if j < 3 * late + 8 {
      LateExactlyAt(late, j);
    }
  }

  lemma HowManyAreLate(late: nat)
    ensures |Late(LateHistory(late), LateRefunds(late))| == late
  {
    var lateOnes := Late(LateHistory(late), LateRefunds(late));
    HowManyEveryOther(late + 6, late);
    forall j: nat ensures j in EveryOther(late + 6, late) <==> j in lateOnes {
      EveryOtherAt(late + 6, late, j);
      LateIs(late, j);
    }
    SameMembers(EveryOther(late + 6, late), lateOnes);
  }

  /** The bound is reached for every number of late taking back, so none is kept whatever is taken back: an hour
      with this many codes taken back late, and six more than that standing. */
  lemma TheLateStandAnHour(late: nat) returns (h: seq<Entry>, of: map<nat, nat>, a: int)
    ensures Played(h) && Refunds(h, of) && |Late(h, of)| == late && |StandInHour(h, of, a)| == 6 + late
  {
    LateHistoryIsPlayed(late);
    LateRefundsMatch(late);
    LateStandsInTheHour(late);
    HowManyAreLate(late);
    h, of, a := LateHistory(late), LateRefunds(late), (late + 1) * CODE_BUDGET_WINDOW - 1;
  }

  /** Two mails that fail within two ticks of being sent, one of them across the end of a period. */
  function PromptHistory(): (h: seq<Entry>)
    ensures |h| == 12
  {
    var w := CODE_BUDGET_WINDOW;
    [Sends(0, 0, 1), Sends(w - 1, 0, 2),
     Sends(w, w, 1), Sends(w + 1, w, 2), TakesBack(w + 1, w, 1, w + 1), TakesBack(w + 1, w, 0, w + 1),
     Sends(w + 1, w, 1), Sends(w + 1, w, 2), Sends(w + 1, w, 3),
     Sends(2 * w, 2 * w, 1), Sends(2 * w, 2 * w, 2), Sends(2 * w, 2 * w, 3)]
  }

  function PromptRefunds(): map<nat, nat> {
    map[4 := 1, 5 := 2]
  }

  lemma PromptHistoryIsPlayed()
    ensures Played(PromptHistory())
  {}

  /** Every code taken back goes back this soon. */
  ghost predicate IsPrompt(h: seq<Entry>, of: map<nat, nat>, ticks: nat) {
    forall j :: j in of && j < |h| && of[j] < |h| ==> h[j].call.now <= h[of[j]].call.now + ticks
  }

  lemma PromptRefundsMatch()
    ensures Refunds(PromptHistory(), PromptRefunds())
  {
    assert forall i :: 0 <= i < 12 && PromptHistory()[i].call.act.TakeBack? ==> i == 4 || i == 5;
  }

  lemma PromptRefundsArePrompt()
    ensures IsPrompt(PromptHistory(), PromptRefunds(), 2)
  {}

  lemma PromptStands()
    ensures |StandInHour(PromptHistory(), PromptRefunds(), CODE_BUDGET_WINDOW + 1)| == 7
  {
    assert PromptHistory()[4].call.act.TakeBack? && PromptHistory()[5].call.act.TakeBack?;
    SevenOfThem(StandInHour(PromptHistory(), PromptRefunds(), CODE_BUDGET_WINDOW + 1));
  }

  lemma SevenOfThem(s: set<nat>)
    requires s == {3, 6, 7, 8} + {9, 10, 11}
    ensures |s| == 7
  {
    assert {3, 6, 7, 8} !! {9, 10, 11};
  }

  lemma PromptIsLateOnce()
    ensures |Late(PromptHistory(), PromptRefunds())| == 1
  {
    assert Late(PromptHistory(), PromptRefunds()) == {4};
  }

  /** One is enough for the six to be passed, however promptly it comes: both mails here fail within two ticks. */
  lemma OnePromptRefundPassesSix()
    ensures var h, of := PromptHistory(), PromptRefunds();
            && Played(h) && Refunds(h, of) && IsPrompt(h, of, 2)
            && |Late(h, of)| == 1 && |StandInHour(h, of, CODE_BUDGET_WINDOW + 1)| == 7
  {
    PromptHistoryIsPlayed();
    PromptRefundsMatch();
    PromptRefundsArePrompt();
    PromptStands();
    PromptIsLateOnce();
  }
}
