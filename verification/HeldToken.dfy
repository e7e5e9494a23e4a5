/** A token swapped for a longer one and held for work that outlives its call, replaced before it runs out by
    whichever piece of work finds it due.  Pieces of work share it without a lock, and their steps interleave. */
module HeldToken {
  import opened Text
  import opened ModelToken

  const REPLACEMENT_LEAD_TIME := 2 * 60 * 60 * TICKS_PER_SECOND

  datatype Bearer = Bearer(token: Token, expiresAt: int)

  /** What asking for a replacement comes to. */
  datatype Exchanged = Replaced(bearer: Bearer) | Refused | Raised

  predicate IsDue(held: Bearer, now: int) {
    held.expiresAt - now <= REPLACEMENT_LEAD_TIME
  }

  // ---- one piece of work ----

  /** What is held: nothing, for a call that carried no token. */
  class Holder {
    var bearer: Option<Bearer>

    /** A swap at the start of a call.  Without a token nothing is held; refused one, there is no holder. */
    static method SwapFromTheCall(ambient: Ambient, answer: Exchanged) returns (holder: Option<Holder>, raised: bool)
      ensures var none := ambient.current.None? || ambient.current.value == "";
              && raised == (!none && answer.Raised?)
              && (holder.None? <==> !none && !answer.Replaced?)
              && (holder.Some? ==> fresh(holder.value)
                                   && holder.value.bearer == if none then None else Some(answer.bearer))
    {
      if ambient.current.None? || ambient.current.value == "" {
        var empty := new Holder(None);
        return Some(empty), false;
      }
      match answer
      case Replaced(bearer) =>
        var holding := new Holder(Some(bearer));
        return Some(holding), false;
      case Refused => return None, false;
      case Raised => return None, true;
    }

    constructor (bearer: Option<Bearer>)
      ensures this.bearer == bearer
    {
      this.bearer := bearer;
    }

    /** Work done alone: under what is held, after replacing that where it is due; not at all where replacing
        it raised; and as the caller stands where nothing is held. */
    method Act(ambient: Ambient, work: Work, now: int, answer: Exchanged) returns (raised: bool)
      modifies this, ambient
      ensures ambient.current == old(ambient.current)
      ensures old(bearer).Some? && IsDue(old(bearer).value, now) && answer.Replaced? ==> bearer == Some(answer.bearer)
      ensures !(old(bearer).Some? && IsDue(old(bearer).value, now) && answer.Replaced?) ==> bearer == old(bearer)
      ensures var under := if bearer.None? then ambient.current else Some(bearer.value.token);
              if old(bearer).Some? && IsDue(old(bearer).value, now) && answer.Raised?
              then raised && ambient.seen == old(ambient.seen)
              else Seen(ambient.seen, raised)
                   == Seen(old(ambient.seen) + SeenUnder(work, under).tokens, SeenUnder(work, under).raised)
    {
      if bearer.None? {
        raised := ambient.Run(work);
        return;
      }
      if IsDue(bearer.value, now) {
        if answer.Raised? { return true; }
        if answer.Replaced? { bearer := Some(answer.bearer); }
      }
      raised := ambient.Run(ActingFor(bearer.value.token, work));
    }
  }

  // ---- any number of pieces of work ----

  /** Where a piece of work stands.  `read` is when it looked at what was held, `after` the last replacement
      there had been by then. */
  datatype Phase =
    | Read(held: Bearer, read: int, after: Option<int>)
    | Exchanging(read: int)
    | Ready(read: int, refused: bool)
    | Over

  /** Work begun: under which token, and how it came by it. */
  datatype Begun = Begun(bearer: Bearer, read: int, refused: bool)

  /** A replacement asked for: when, and the last there had been when what was held was read. */
  datatype Asked = Asked(at: int, after: Option<int>)

  datatype State = State(held: Bearer, now: int, lastReplaced: Option<int>, works: map<nat, Phase>,
                         begun: seq<Begun>, asked: seq<Asked>)

  datatype Event =
    | Tick(now: int)
    | Look(w: nat)
    | Check(w: nat)
    | Answer(w: nat, answer: Exchanged)
    | Begin(w: nat)

  predicate Can(s: State, e: Event) {
    match e
    case Tick(now) => s.now <= now
    case Look(w) => w !in s.works
    case Check(w) => w in s.works && s.works[w].Read?
    case Answer(w, _) => w in s.works && s.works[w].Exchanging?
    case Begin(w) => w in s.works && s.works[w].Ready?
  }

  function At(s: State, w: nat, p: Phase): State {
    s.(works := s.works[w := p])
  }

  function After(s: State, e: Event): State
    requires Can(s, e)
  {
    match e
    case Tick(now) => s.(now := now)
    case Look(w) => At(s, w, Read(s.held, s.now, s.lastReplaced))
    case Check(w) =>
      var p := s.works[w];
      if IsDue(p.held, s.now) then At(s.(asked := s.asked + [Asked(s.now, p.after)]), w, Exchanging(p.read))
      else At(s, w, Ready(p.read, false))
    case Answer(w, Replaced(bearer)) =>
      At(s.(held := bearer, lastReplaced := Some(s.now)), w, Ready(s.works[w].read, false))
    case Answer(w, Refused) => At(s, w, Ready(s.works[w].read, true))
    case Answer(w, Raised) => At(s, w, Over)
    case Begin(w) =>
      var p := s.works[w];
      At(s.(begun := s.begun + [Begun(s.held, p.read, p.refused)]), w, Over)
  }

  datatype Run = Start(held: Bearer, from: int) | Then(past: Run, event: Event)

  ghost predicate IsRun(run: Run)
    decreases run, 0
  {
    run.Then? ==> IsRun(run.past) && Can(StateOf(run.past), run.event)
  }

  ghost function StateOf(run: Run): State
    requires IsRun(run)
    decreases run, 1
  {
    match run
    case Start(held, from) => State(held, from, None, map[], [], [])
    case Then(past, e) => After(StateOf(past), e)
  }

  // ---- a piece of work on its own, as the interleaved steps take it ----

  ghost predicate Extends(run: Run, longer: Run) {
    longer == run || (longer.Then? && Extends(run, longer.past))
  }

  lemma Take(start: Run, run: Run, e: Event) returns (longer: Run)
    requires IsRun(run) && Extends(start, run) && Can(StateOf(run), e)
    ensures IsRun(longer) && Extends(start, longer) && StateOf(longer) == After(StateOf(run), e)
  {
    longer := Then(run, e);
  }

  lemma UpToTheCheck(run: Run, w: nat, read: int, now: int) returns (longer: Run)
    requires IsRun(run) && w !in StateOf(run).works && StateOf(run).now <= read <= now
    ensures IsRun(longer) && Extends(run, longer)
    ensures var s := StateOf(run);
            StateOf(longer) == At(s, w, Read(s.held, read, s.lastReplaced)).(now := now)
  {
    longer := Take(run, run, Tick(read));
    longer := Take(run, longer, Event.Look(w));
    longer := Take(run, longer, Tick(now));
  }

  lemma FromTheCheck(start: Run, run: Run, w: nat, answer: Exchanged) returns (longer: Run)
    requires IsRun(run) && Extends(start, run) && w in StateOf(run).works
    requires StateOf(run).works[w].Read? && StateOf(run).works[w].held == StateOf(run).held
    ensures IsRun(longer) && Extends(start, longer) && w in StateOf(longer).works
    ensures var s, t, p := StateOf(run), StateOf(longer), StateOf(longer).works[w];
            var due := IsDue(s.held, s.now);
            && t == At(s.(held := t.held, lastReplaced := t.lastReplaced, asked := t.asked), w, p)
            && t.held == (if due && answer.Replaced? then answer.bearer else s.held)
            && |t.asked| == |s.asked| + (if due then 1 else 0)
            && p == if due && answer.Raised? then Over else Ready(s.works[w].read, due && answer.Refused?)
  {
    longer := Take(start, run, Check(w));
    if IsDue(StateOf(run).held, StateOf(run).now) {
      longer := Take(start, longer, Answer(w, answer));
    }
  }

  /** Where no other piece of work comes in between, the steps of one leave held, and begin under, what acting
      alone does: the replacement where one was due and given, and otherwise what was held; nothing is begun
      where asking raised. */
  lemma APieceAloneActs(run: Run, w: nat, read: int, now: int, answer: Exchanged) returns (longer: Run)
    requires IsRun(run) && w !in StateOf(run).works && StateOf(run).now <= read <= now
    ensures IsRun(longer) && Extends(run, longer)
    ensures var s, t := StateOf(run), StateOf(longer);
            var due := IsDue(s.held, now);
            && t.works == s.works[w := Over] && t.now == now
            && t.held == (if due && answer.Replaced? then answer.bearer else s.held)
            && |t.asked| == |s.asked| + (if due then 1 else 0)
            && t.begun == s.begun + if due && answer.Raised? then []
                                    else [Begun(t.held, read, due && answer.Refused?)]
  {
    longer := UpToTheCheck(run, w, read, now);
    longer := FromTheCheck(run, longer, w, answer);
    if StateOf(longer).works[w].Ready? {
      longer := Take(run, longer, Begin(w));
    }
  }

  /** Every replacement has at least `life` left as it lands. */
  ghost predicate TokensLast(run: Run, life: int)
    requires IsRun(run)
  {
    run.Then? ==>
      && TokensLast(run.past, life)
      && (run.event.Answer? && run.event.answer.Replaced? ==>
            run.event.answer.bearer.expiresAt - StateOf(run.past).now >= life)
  }

  /** What a piece of work may count on: what is held now is what it read, or was replaced since it read. */
  predicate CountsOn(s: State, p: Phase) {
    match p
    case Read(held, read, _) => read <= s.now && (s.held == held || s.held.expiresAt > read + REPLACEMENT_LEAD_TIME)
    case Exchanging(read) => read <= s.now
    case Ready(read, refused) => read <= s.now && (refused || s.held.expiresAt > read + REPLACEMENT_LEAD_TIME)
    case Over => true
  }

  predicate EveryoneCounts(s: State) {
    forall w :: w in s.works ==> CountsOn(s, s.works[w])
  }

  predicate HasTimeLeft(b: Begun) {
    b.refused || b.bearer.expiresAt > b.read + REPLACEMENT_LEAD_TIME
  }

  predicate Lasts(s: State, e: Event, life: int) {
    e.Answer? && e.answer.Replaced? ==> e.answer.bearer.expiresAt - s.now >= life
  }

  lemma StepKeepsCount(s: State, e: Event, life: int)
    requires Can(s, e) && EveryoneCounts(s) && Lasts(s, e, life) && life > REPLACEMENT_LEAD_TIME
    ensures EveryoneCounts(After(s, e))
  {
    var t := After(s, e);
    forall w | w in t.works ensures CountsOn(t, t.works[w]) {
      if w in s.works {
        assert CountsOn(s, s.works[w]);
      }
    }
  }

  /** Whatever else shares the token, work begins under one that had more than the lead time left when the work
      looked at what was held, or else its own request for another was refused. */
  lemma {:induction false} WorkHasTimeLeft(run: Run, life: int)
    requires IsRun(run) && TokensLast(run, life) && life > REPLACEMENT_LEAD_TIME
    ensures EveryoneCounts(StateOf(run)) && forall i :: 0 <= i < |StateOf(run).begun| ==>
              HasTimeLeft(StateOf(run).begun[i])
  {
    if run.Then? {
      var s := StateOf(run.past);
      WorkHasTimeLeft(run.past, life);
      StepKeepsCount(s, run.event, life);
      if run.event.Begin? {
        assert CountsOn(s, s.works[run.event.w]);
      }
    }
  }

  /** What was held at a reading lasts from the last replacement before it. */
  predicate Fresh(s: State, life: int) {
    && (s.lastReplaced.Some? ==> s.lastReplaced.value <= s.now && s.held.expiresAt >= s.lastReplaced.value + life)
    && forall w :: w in s.works && s.works[w].Read? && s.works[w].after.Some? ==>
         s.works[w].held.expiresAt >= s.works[w].after.value + life
  }

  predicate NotTooSoon(a: Asked, life: int) {
    a.after.Some? ==> a.at >= a.after.value + life - REPLACEMENT_LEAD_TIME
  }

  /** A replacement is asked for no sooner after the last one the asker can have seen than a token's life less
      the lead time; so pieces of work that follow one another ask that far apart. */
  lemma {:induction false} ReplacementsAreSpaced(run: Run, life: int)
    requires IsRun(run) && TokensLast(run, life)
    ensures Fresh(StateOf(run), life)
    ensures forall i :: 0 <= i < |StateOf(run).asked| ==> NotTooSoon(StateOf(run).asked[i], life)
  {
    if run.Then? {
      ReplacementsAreSpaced(run.past, life);
    }
  }
}
