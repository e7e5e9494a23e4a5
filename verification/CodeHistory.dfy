/** What the history of one address says about the codes sent to it, read off the calls and their replies
    without looking at the record: which code is waited for, and which answer accepted. */
module CodeHistory {
  import opened Text
  import opened AddressCodes

  /** What is held after the first `n` calls of a history that began with nothing held. */
  function Held(h: seq<Entry>, n: nat): Option<Record>
    requires n <= |h|
  {
    Before(None, h, n)
  }

  ghost predicate Played(h: seq<Entry>) {
    IsHistory(None, h) && Clocked(h)
  }

  lemma {:induction false} HeldIsSound(h: seq<Entry>, n: nat)
    requires IsHistory(None, h) && n <= |h|
    ensures Held(h, n).Some? ==>
              && n > 0
              && 0 <= Held(h, n).value.codesSent <= CODES_PER_ADDRESS
              && 0 <= Held(h, n).value.answersLeft <= ANSWERS_ALLOWED
              && (Clocked(h) ==> Held(h, n).value.openedAt <= h[n - 1].call.now)
  {
    if n > 0 {
      HeldIsSound(h, n - 1);
      assert FollowsAt(None, h, n - 1);
    }
  }

  // ---- which code is waited for ----

  /** The code sent at `i` is the last one sent among the first `n` calls, and has been neither accepted
      nor taken back among them. */
  ghost predicate Unspent(h: seq<Entry>, i: nat, n: nat)
    requires n <= |h|
  {
    && i < n && h[i].reply.Sent?
    && forall j :: i < j < n ==> !h[j].call.act.TakeBack? && !h[j].reply.Sent? && !h[j].reply.Accepted?
  }

  /** The answers given after `i`, among the first `n` calls. */
  function AnswersSince(h: seq<Entry>, i: nat, n: nat): nat
    requires n <= |h|
  {
    if n <= i + 1 then 0
    else AnswersSince(h, i, n - 1) + if h[n - 1].call.act.Answer? then 1 else 0
  }

  /** The code sent at `i` is the one this service waits for at `now`. */
  ghost predicate WaitedFor(h: seq<Entry>, i: nat, now: int) {
    && Unspent(h, i, |h|)
    && now < h[i].call.now + VALID_FOR
    && AnswersSince(h, i, |h|) < ANSWERS_ALLOWED
  }

  /** The record holds this code, with the answers left that `given` answers leave it until it expires. */
  predicate Holds(held: Option<Record>, code: Code, expiresAt: int, given: nat, now: int) {
    && held.Some? && held.value.code == Some(code) && held.value.expiresAt == expiresAt
    && (now < expiresAt ==>
          held.value.answersLeft == if given < ANSWERS_ALLOWED then ANSWERS_ALLOWED - given else 0)
  }

  lemma HoldsOn(held: Option<Record>, e: Timed, code: Code, expiresAt: int, given: nat, now: int)
    requires Holds(held, code, expiresAt, given, now) && now <= e.now
    requires !e.act.TakeBack? && !Serve(held, e).1.Sent? && !Serve(held, e).1.Accepted?
    ensures Holds(Serve(held, e).0, code, expiresAt, given + if e.act.Answer? then 1 else 0, e.now)
  {}

  lemma {:induction false} UnspentIsHeld(h: seq<Entry>, i: nat, n: nat)
    requires Played(h) && n <= |h| && Unspent(h, i, n)
    ensures Holds(Held(h, n), h[i].reply.code, h[i].call.now + VALID_FOR, AnswersSince(h, i, n), h[n - 1].call.now)
  {
    assert FollowsAt(None, h, n - 1);
    if i < n - 1 {
      UnspentIsHeld(h, i, n - 1);
      HoldsOn(Held(h, n - 1), h[n - 1].call, h[i].reply.code, h[i].call.now + VALID_FOR, AnswersSince(h, i, n - 1),
              h[n - 2].call.now);
    }
  }

  lemma {:induction false} HeldIsUnspent(h: seq<Entry>, n: nat) returns (i: nat)
    requires IsHistory(None, h) && n <= |h| && Held(h, n).Some? && Held(h, n).value.code.Some?
    ensures Unspent(h, i, n)
  {
    assert FollowsAt(None, h, n - 1);
    if h[n - 1].reply.Sent? {
      i := n - 1;
    } else {
      i := HeldIsUnspent(h, n - 1);
    }
  }

  /** An answer is accepted exactly when it spells out the code waited for: the last one sent, less than
      fifteen minutes old, neither accepted nor taken back since, and answered fewer than five times. */
  lemma AcceptedExactlyWhenWaitedFor(h: seq<Entry>, now: int, trimmed: Option<string>)
    requires Played(h) && (h != [] ==> h[|h| - 1].call.now <= now)
    ensures Serve(Held(h, |h|), At(now, Act.Answer(trimmed))).1 == Accepted
            <==> exists i: nat :: WaitedFor(h, i, now) && trimmed == Some(h[i].reply.code)
  {
    if Compared(Held(h, |h|), now) {
      var i := HeldIsUnspent(h, |h|);
      UnspentIsHeld(h, i, |h|);
      assert WaitedFor(h, i, now);
    }
    forall i: nat | WaitedFor(h, i, now) ensures Compared(Held(h, |h|), now)
      ensures Held(h, |h|).value.code == Some(h[i].reply.code)
    {
      UnspentIsHeld(h, i, |h|);
    }
  }

  // ---- whose code is taken back ----

  /** The call that sent the code the record holds: the last that wrote one, where none has been cleared since. */
  function CodeFrom(h: seq<Entry>, n: nat): Option<nat>
    requires n <= |h|
  {
    if n == 0 || h[n - 1].after.None? || h[n - 1].after.value.code.None? then None
    else if h[n - 1].reply.Sent? then Some(n - 1)
    else CodeFrom(h, n - 1)
  }

  lemma {:induction false} HeldCodeIsFrom(h: seq<Entry>, n: nat)
    requires IsHistory(None, h) && n <= |h|
    ensures Held(h, n).Some? && Held(h, n).value.code.Some? <==> CodeFrom(h, n).Some?
    ensures CodeFrom(h, n).Some? ==>
              var i := CodeFrom(h, n).value;
              i < n && h[i].reply.Sent? && Held(h, n).value.code == Some(h[i].reply.code)
  {
    if n > 0 {
      HeldCodeIsFrom(h, n - 1);
      assert FollowsAt(None, h, n - 1);
    }
  }

  lemma {:induction false} HeldExactlyWhileUnspent(h: seq<Entry>, i: nat, n: nat)
    requires IsHistory(None, h) && i < n <= |h| && h[i].reply.Sent?
    ensures CodeFrom(h, n) == Some(i) <==> Unspent(h, i, n)
    decreases n
  {
    assert FollowsAt(None, h, n - 1);
    if i < n - 1 {
      HeldExactlyWhileUnspent(h, i, n - 1);
      HeldCodeIsFrom(h, n - 1);
      HeldCodeIsFrom(h, n);
      OneMoreCallSpends(h, i, n);
    }
  }

  lemma OneMoreCallSpends(h: seq<Entry>, i: nat, n: nat)
    requires i < n - 1 && n <= |h|
    ensures Unspent(h, i, n)
            <==> Unspent(h, i, n - 1)
                 && !h[n - 1].call.act.TakeBack? && !h[n - 1].reply.Sent? && !h[n - 1].reply.Accepted?
  {}

  /** A taking back clears whatever code is held.  That is the one sent at `i` if and only if it is unspent; and
      otherwise, if any, one sent after it. */
  lemma WhichCodeIsCleared(h: seq<Entry>, i: nat, n: nat)
    requires IsHistory(None, h) && i < n < |h| && h[i].reply.Sent? && h[n].call.act.TakeBack?
    ensures CodeFrom(h, n + 1) == None
    ensures CodeFrom(h, n) == Some(i) <==> Unspent(h, i, n)
    ensures CodeFrom(h, n).Some? && !Unspent(h, i, n) ==> i < CodeFrom(h, n).value
  {
    assert FollowsAt(None, h, n);
    HeldExactlyWhileUnspent(h, i, n);
    HeldCodeIsFrom(h, n);
    if CodeFrom(h, n).Some? {
      HeldExactlyWhileUnspent(h, CodeFrom(h, n).value, n);
    }
  }
}
