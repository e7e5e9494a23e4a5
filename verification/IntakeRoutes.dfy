/** The routes that verify an address and act on it, as steps that interleave: what happens between two
    awaits of a route is one step, and a route waiting in between is in flight. */
module IntakeRoutes {
  import opened Text
  import opened AddressCodes
  import opened CodeStore
  import CodeRuns
  import opened SubmissionTickets

  /** How a ticket came to be issued: on a code that was accepted, or on presenting an earlier ticket. */
  datatype Issuance =
    | First(address: string, acceptedAt: int, issuedAt: int)
    | Renewed(address: string, from: nat, presentedAt: int, issuedAt: int)

  datatype Flight =
    | Mailing(address: string, call: nat)
    | Verified(address: string, acceptedAt: int)
    | Holding(ticket: string, presentedAt: int)

  datatype State = State(codes: Run, flights: map<nat, Flight>, tickets: seq<Issuance>, now: int)

  /** What a route that was let in goes on to act for.  A submission names its own address, the findings are
      asked for under one, and the rest act for the address the model holds for the submission. */
  datatype Request =
    | Submission(emailAddress: Option<string>)
    | Findings(emailAddress: Option<string>, submissionId: Option<string>)
    | OnRecord(contactAddress: Option<string>)

  datatype Event =
    | Verify(id: nat, address: string, step: Step)
    | MailWasSent(id: nat)
    | MailFailed(id: nat, step: Step)
    | AnswerCode(id: nat, address: string, step: Step)
    | IssueFirst(id: nat)
    | Present(id: nat, presented: string)
    | Act(id: nat, request: Request, done: bool)

  /** The address a request is served for, or none when the route refuses it.  A submission that names no
      address gets past the ticket check, and is refused where it is composed. */
  function ServedFor(keyed: Keyed, ticket: string, request: Request): Option<string> {
    match request
    case Submission(email) =>
      if email.Some? && Trim(email.value) != "" && keyed.WasIssuedFor(Some(ticket), Trim(email.value))
      then Some(Trim(email.value)) else None
    case Findings(email, submissionId) =>
      if email.Some? && submissionId.Some? && keyed.WasIssuedFor(Some(ticket), email.value) then email else None
    case OnRecord(contact) =>
      if contact.Some? && keyed.WasIssuedFor(Some(ticket), contact.value) then contact else None
  }

  function IdOf(e: Event): nat {
    match e
    case Verify(id, _, _) => id
    case MailWasSent(id) => id
    case MailFailed(id, _) => id
    case AnswerCode(id, _, _) => id
    case IssueFirst(id) => id
    case Present(id, _) => id
    case Act(id, _, _) => id
  }

  /** One call on the store of codes. */
  ghost predicate Calls(s: State, now: int, address: string, step: Step) {
    StepOk(CodeStore.State(s.codes), step) && step.event.key == Key(address) && CodeRuns.Instant(step) == now
  }

  ghost predicate Can(keyed: Keyed, s: State, now: int, e: Event) {
    match e
    case Verify(id, address, step) => id !in s.flights && Calls(s, now, address, step) && step.event.timed.act.Ask?
    case MailWasSent(id) => id in s.flights && s.flights[id].Mailing?
    case MailFailed(id, step) =>
      && id in s.flights && s.flights[id].Mailing?
      && Calls(s, now, s.flights[id].address, step) && step.event.timed.act.TakeBack?
    case AnswerCode(id, address, step) =>
      id !in s.flights && Calls(s, now, address, step) && step.event.timed.act.Answer?
    case IssueFirst(id) => id in s.flights && s.flights[id].Verified? && Instant(now)
    case Present(id, presented) => id !in s.flights && keyed.WhyRefused(Some(presented), now).Live?
    case Act(id, request, done) => id in s.flights && s.flights[id].Holding? && Instant(now)
  }

  /** `from` is the ticket presented, where one of those issued is it. */
  ghost predicate Is(keyed: Keyed, ticket: string, issued: Issuance) {
    Instant(issued.issuedAt)
    && keyed.TryReadSigned(Some(ticket)) == Some(keyed.Signed(SecondOf(issued.issuedAt), keyed.MarkFor(issued.address)))
  }

  ghost function Presented(keyed: Keyed, tickets: seq<Issuance>, ticket: string): nat {
    if exists i: nat :: i < |tickets| && Is(keyed, ticket, tickets[i])
    then var i: nat :| i < |tickets| && Is(keyed, ticket, tickets[i]); i
    else 0
  }

  /** A code on its way, by which of the address's calls it was sent. */
  ghost function MailedTo(s: State, address: string): Flight {
    Mailing(address, |CodeRuns.Ledger(s.codes, Key(address))|)
  }

  ghost function After(keyed: Keyed, s: State, now: int, e: Event): State
    requires Can(keyed, s, now, e)
  {
    match e
    case Verify(id, address, step) =>
      State(Next(s.codes, step), if step.reply.Sent? then s.flights[id := MailedTo(s, address)]
          else s.flights, s.tickets, now)
    case MailWasSent(id) => State(s.codes, s.flights - {id}, s.tickets, now)
    case MailFailed(id, step) => State(Next(s.codes, step), s.flights - {id}, s.tickets, now)
    case AnswerCode(id, address, step) =>
      State(Next(s.codes, step), if step.reply.Accepted? then s.flights[id := Verified(address, now)] else s.flights,
            s.tickets, now)
    case IssueFirst(id) =>
      var f := s.flights[id];
      State(s.codes, s.flights - {id}, s.tickets + [First(f.address, f.acceptedAt, now)], now)
    case Present(id, presented) => State(s.codes, s.flights[id := Holding(presented, now)], s.tickets, now)
    case Act(id, request, done) =>
      var f := s.flights[id];
      var served := ServedFor(keyed, f.ticket, request);
      if served.Some? && done
      then State(s.codes, s.flights - {id},
                 s.tickets + [Renewed(served.value, Presented(keyed, s.tickets, f.ticket), f.presentedAt, now)], now)
      else State(s.codes, s.flights - {id}, s.tickets, now)
  }

  // ---- who is served ----

  /** The marks the two addresses leave in a ticket are one. */
  ghost predicate SameMark(keyed: Keyed, a: string, b: string) {
    keyed.mac(keyed.utf8(Key(a))) == keyed.mac(keyed.utf8(Key(b)))
  }

  /** A ticket issued for `a` gets this request served for `served`: it names that address, a submission with
      white space around it, and the two have one mark. */
  ghost predicate Serves(keyed: Keyed, a: string, request: Request, served: string) {
    && SameMark(keyed, a, served)
    && match request
       case Submission(email) => email.Some? && TrimsTo(email.value, served) && served != ""
       case Findings(email, submissionId) => email == Some(served) && submissionId.Some?
       case OnRecord(contact) => contact == Some(served)
  }

  lemma ServedExactlyWhen(keyed: Keyed, a: string, issuedAt: int, request: Request, served: string)
    requires keyed.Valid() && Instant(issuedAt)
    ensures ServedFor(keyed, keyed.TicketFor(a, issuedAt), request) == Some(served)
            <==> Serves(keyed, a, request, served)
  {
    MatchesItsAddress(keyed, a, issuedAt, served);
    match request
    case Submission(email) =>
      if email.Some? {
        TrimIs(email.value, served);
      }
    case _ =>
  }

  // ---- traces ----

  datatype Trace = Start(from: int) | Then(past: Trace, now: int, event: Event, after: State)

  ghost function StateOf(trace: Trace): State {
    if trace.Start? then State(Begin, map[], [], trace.from) else trace.after
  }

  ghost predicate IsTrace(keyed: Keyed, trace: Trace) {
    trace.Then? ==>
      && IsTrace(keyed, trace.past)
      && StateOf(trace.past).now <= trace.now
      && Can(keyed, StateOf(trace.past), trace.now, trace.event)
      && trace.after == After(keyed, StateOf(trace.past), trace.now, trace.event)
  }

  /** The digest does what a signature is for: what reads as signed was issued, and no two addresses that
      meet have one mark. */
  ghost predicate Unforged(keyed: Keyed, s: State, ticket: string) {
    keyed.TryReadSigned(Some(ticket)).Some? ==>
      exists i: nat :: i < |s.tickets| && Is(keyed, ticket, s.tickets[i])
  }

  ghost predicate NoCollision(keyed: Keyed, s: State, address: string) {
    forall i :: 0 <= i < |s.tickets| && keyed.MarkFor(s.tickets[i].address) == keyed.MarkFor(address)
      ==> Key(s.tickets[i].address) == Key(address)
  }

  ghost predicate IdealAt(keyed: Keyed, s: State, e: Event) {
    match e
    case Present(_, presented) => Unforged(keyed, s, presented)
    case Act(id, request, _) =>
      id in s.flights && s.flights[id].Holding? ==>
        var served := ServedFor(keyed, s.flights[id].ticket, request);
        served.Some? ==> NoCollision(keyed, s, served.value)
    case _ => true
  }

  ghost predicate Ideal(keyed: Keyed, trace: Trace) {
    trace.Then? ==> Ideal(keyed, trace.past) && IdealAt(keyed, StateOf(trace.past), trace.event)
  }

  // ---- that it comes about ----

  lemma OneEventMore(keyed: Keyed, past: Trace, now: int, e: Event) returns (trace: Trace)
    requires IsTrace(keyed, past) && StateOf(past).now <= now && Can(keyed, StateOf(past), now, e)
    ensures IsTrace(keyed, trace) && trace == Then(past, now, e, After(keyed, StateOf(past), now, e))
  {
    trace := Then(past, now, e, After(keyed, StateOf(past), now, e));
  }

  /** A code that is accepted is exchanged for one ticket, for the address it was answered for; one that is
      not, for none. */
  lemma AnAcceptedCodeIsExchanged(keyed: Keyed, trace: Trace, id: nat, address: string, step: Step, issuedAt: int)
    returns (answered: Trace, longer: Trace)
    requires IsTrace(keyed, trace) && id !in StateOf(trace).flights && step.event.timed.act.Answer?
    requires Calls(StateOf(trace), CodeRuns.Instant(step), address, step)
    requires StateOf(trace).now <= CodeRuns.Instant(step) <= issuedAt && Instant(issuedAt)
    ensures answered.Then? && answered.past == trace && answered.event == AnswerCode(id, address, step)
    ensures IsTrace(keyed, longer)
    ensures var s, t := StateOf(trace), StateOf(longer);
            && t.codes == Next(s.codes, step) && t.flights == s.flights
            && if step.reply.Accepted?
               then longer.Then? && longer.past == answered && longer.event == IssueFirst(id)
                    && t.tickets == s.tickets + [First(address, CodeRuns.Instant(step), issuedAt)]
               else longer == answered && t.tickets == s.tickets
  {
    answered := OneEventMore(keyed, trace, CodeRuns.Instant(step), AnswerCode(id, address, step));
    longer := answered;
    if step.reply.Accepted? {
      longer := OneEventMore(keyed, answered, issuedAt, IssueFirst(id));
      assert StateOf(longer).flights == StateOf(trace).flights;
    }
  }

  /** Any ticket issued can be presented for ten minutes, and an act done on it issues one more, for the address
      it is served for; an act that is not served, or not done, issues none. */
  lemma ALiveTicketIsServed(keyed: Keyed, trace: Trace, i: nat, id: nat, presentedAt: int, actedAt: int,
                            request: Request, done: bool)
    returns (presented: Trace, longer: Trace)
    requires keyed.Valid() && IsTrace(keyed, trace) && id !in StateOf(trace).flights
    requires i < |StateOf(trace).tickets| && PresentedInTime(StateOf(trace).tickets[i], presentedAt)
    requires StateOf(trace).now <= presentedAt <= actedAt && Instant(actedAt)
    ensures var issued := StateOf(trace).tickets[i];
            && presented.Then? && presented.past == trace && presented.now == presentedAt
            && presented.event == Present(id, keyed.TicketFor(issued.address, issued.issuedAt))
    ensures IsTrace(keyed, longer) && longer.Then? && longer.past == presented && longer.event == Act(id, request, done)
    ensures var s, t := StateOf(trace), StateOf(longer);
            && t.codes == s.codes && t.flights == s.flights
            && (forall served :: done && Serves(keyed, s.tickets[i].address, request, served) ==>
                  IsRenewed(s.tickets, t.tickets, served, presentedAt, actedAt))
            && (!done || (forall served :: !Serves(keyed, s.tickets[i].address, request, served)) ==>
                  t.tickets == s.tickets)
  {
    var issued := StateOf(trace).tickets[i];
    var ticket := keyed.TicketFor(issued.address, issued.issuedAt);
    LivesTenMinutes(keyed, issued.address, issued.issuedAt, presentedAt);
    presented := OneEventMore(keyed, trace, presentedAt, Present(id, ticket));
    longer := OneEventMore(keyed, presented, actedAt, Act(id, request, done));
    AnActIssues(keyed, StateOf(presented), actedAt, id, request, done, issued.address, issued.issuedAt);
    assert StateOf(longer).flights == StateOf(trace).flights;
  }

  /** What an act on a ticket issued for `a` leaves of the tickets. */
  lemma AnActIssues(keyed: Keyed, s: State, now: int, id: nat, request: Request, done: bool, a: string, issuedAt: int)
    requires keyed.Valid() && Instant(issuedAt) && Can(keyed, s, now, Act(id, request, done))
    requires s.flights[id].ticket == keyed.TicketFor(a, issuedAt)
    ensures var t := After(keyed, s, now, Act(id, request, done));
            && (forall served :: done && Serves(keyed, a, request, served) ==>
                  IsRenewed(s.tickets, t.tickets, served, s.flights[id].presentedAt, now))
            && (!done || (forall served :: !Serves(keyed, a, request, served)) ==> t.tickets == s.tickets)
  {
    var was := ServedFor(keyed, s.flights[id].ticket, request);
    if was.Some? {
      ServedExactlyWhen(keyed, a, issuedAt, request, was.value);
    }
    forall served | Serves(keyed, a, request, served) ensures was == Some(served) {
      ServedExactlyWhen(keyed, a, issuedAt, request, served);
    }
  }

  ghost predicate IsRenewed(was: seq<Issuance>, tickets: seq<Issuance>, served: string, presentedAt: int, at: int) {
    && |tickets| == |was| + 1 && tickets[..|was|] == was
    && tickets[|was|].Renewed? && tickets[|was|].address == served
    && tickets[|was|].presentedAt == presentedAt && tickets[|was|].issuedAt == at
  }

  // ---- what every trace keeps ----

  /** A code for this address was accepted at this instant. */
  ghost predicate AcceptedIn(codes: Run, key: string, at: int) {
    codes.Next? && (AcceptedIn(codes.past, key, at)
                    || (codes.step.event.key == key && codes.step.reply.Accepted?
                        && CodeRuns.Instant(codes.step) == at))
  }

  /** The ticket was presented no more than ten minutes after the second it was issued in. */
  predicate PresentedInTime(issued: Issuance, presentedAt: int) {
    Instant(issued.issuedAt) && presentedAt - InstantOf(SecondOf(issued.issuedAt)) <= SubmissionTickets.VALID_FOR
  }

  /** One issuance and what it rests on. */
  ghost predicate Founded(codes: Run, tickets: seq<Issuance>, i: nat)
    requires i < |tickets|
  {
    match tickets[i]
    case First(address, acceptedAt, issuedAt) => acceptedAt <= issuedAt && AcceptedIn(codes, Key(address), acceptedAt)
    case Renewed(address, from, presentedAt, issuedAt) =>
      && from < i && Key(tickets[from].address) == Key(address)
      && PresentedInTime(tickets[from], presentedAt) && presentedAt <= issuedAt
  }

  ghost predicate AllFounded(s: State) {
    forall i :: 0 <= i < |s.tickets| ==> Founded(s.codes, s.tickets, i)
  }

  /** A flight rests on what happened when it set off. */
  ghost predicate FlightFounded(keyed: Keyed, s: State, f: Flight) {
    match f
    case Mailing(_, _) => true
    case Verified(address, acceptedAt) => acceptedAt <= s.now && AcceptedIn(s.codes, Key(address), acceptedAt)
    case Holding(ticket, presentedAt) =>
      && presentedAt <= s.now && keyed.WhyRefused(Some(ticket), presentedAt).Live?
      && exists i: nat :: i < |s.tickets| && Is(keyed, ticket, s.tickets[i])
  }

  ghost predicate AllFlightsFounded(keyed: Keyed, s: State) {
    forall id :: id in s.flights ==> FlightFounded(keyed, s, s.flights[id])
  }

  lemma Later(keyed: Keyed, s: State, t: State)
    requires AllFounded(s) && AllFlightsFounded(keyed, s)
    requires t.now >= s.now && t.tickets == s.tickets && (t.codes == s.codes || (t.codes.Next?
             && t.codes.past == s.codes))
    ensures AllFounded(t)
    ensures forall id :: id in s.flights ==> FlightFounded(keyed, t, s.flights[id])
  {
    forall i | 0 <= i < |t.tickets| ensures Founded(t.codes, t.tickets, i) {
      assert Founded(s.codes, s.tickets, i);
    }
    forall id | id in s.flights ensures FlightFounded(keyed, t, s.flights[id]) {
      assert FlightFounded(keyed, s, s.flights[id]);
    }
  }

  /** One more ticket leaves what the others rest on as it was. */
  lemma OneMoreTicket(keyed: Keyed, s: State, t: State, issued: Issuance)
    requires AllFounded(s) && AllFlightsFounded(keyed, s)
    requires t.codes == s.codes && t.now >= s.now && t.tickets == s.tickets + [issued]
    requires forall id :: id in t.flights ==> id in s.flights && t.flights[id] == s.flights[id]
    requires Founded(t.codes, t.tickets, |s.tickets|)
    ensures AllFounded(t) && AllFlightsFounded(keyed, t)
  {
    forall i | 0 <= i < |t.tickets| ensures Founded(t.codes, t.tickets, i) {
      if i < |s.tickets| {
        assert Founded(s.codes, s.tickets, i);
      }
    }
    forall id | id in t.flights ensures FlightFounded(keyed, t, t.flights[id]) {
      assert FlightFounded(keyed, s, s.flights[id]);
      if t.flights[id].Holding? {
        var i: nat :| i < |s.tickets| && Is(keyed, t.flights[id].ticket, s.tickets[i]);
        assert Is(keyed, t.flights[id].ticket, t.tickets[i]);
      }
    }
  }

  /** A live ticket that is served for an address is one issued for that address, and presented in time. */
  lemma ServedIsFounded(keyed: Keyed, s: State, ticket: string, presentedAt: int, request: Request)
    requires keyed.Valid() && keyed.WhyRefused(Some(ticket), presentedAt).Live?
    requires exists i: nat :: i < |s.tickets| && Is(keyed, ticket, s.tickets[i])
    requires ServedFor(keyed, ticket, request).Some? && NoCollision(keyed, s, ServedFor(keyed, ticket, request).value)
    ensures var from := Presented(keyed, s.tickets, ticket);
            && from < |s.tickets| && Is(keyed, ticket, s.tickets[from])
            && Key(s.tickets[from].address) == Key(ServedFor(keyed, ticket, request).value)
            && PresentedInTime(s.tickets[from], presentedAt)
  {
    var from := Presented(keyed, s.tickets, ticket);
    var issued := s.tickets[from];
    var mark := keyed.MarkFor(issued.address);
    Int64RoundTrips(SecondOf(issued.issuedAt), mark);
    assert keyed.Signed(SecondOf(issued.issuedAt), mark)[ISSUED_AT_BYTES..] == mark;
  }

  lemma {:induction false} TraceIsFounded(keyed: Keyed, trace: Trace)
    requires keyed.Valid() && IsTrace(keyed, trace) && Ideal(keyed, trace)
    ensures AllFounded(StateOf(trace)) && AllFlightsFounded(keyed, StateOf(trace)) && IsRun(StateOf(trace).codes)
  {
    if trace.Then? {
      var s, t := StateOf(trace.past), trace.after;
      TraceIsFounded(keyed, trace.past);
      match trace.event
      case IssueFirst(id) =>
        assert FlightFounded(keyed, s, s.flights[id]);
        OneMoreTicket(keyed, s, t, t.tickets[|s.tickets|]);
      case Act(id, request, done) =>
        var f := s.flights[id];
        assert FlightFounded(keyed, s, f);
        if ServedFor(keyed, f.ticket, request).Some? && done {
          ServedIsFounded(keyed, s, f.ticket, f.presentedAt, request);
          OneMoreTicket(keyed, s, t, t.tickets[|s.tickets|]);
        } else {
          Later(keyed, s, t);
        }
      case Present(id, presented) =>
        Later(keyed, s, t);
        assert FlightFounded(keyed, t, t.flights[id]);
      case AnswerCode(id, address, step) =>
        Later(keyed, s, t);
        assert step.reply.Accepted? ==> FlightFounded(keyed, t, t.flights[id]);
      case Verify(id, address, step) =>
        Later(keyed, s, t);
        assert step.reply.Sent? ==> FlightFounded(keyed, t, t.flights[id]);
      case _ =>
        Later(keyed, s, t);
    }
  }

  /** The first ticket a ticket goes back to. */
  function RootOf(tickets: seq<Issuance>, i: nat): (root: nat)
    requires i < |tickets|
    ensures root < |tickets|
  {
    if tickets[i].Renewed? && tickets[i].from < i then RootOf(tickets, tickets[i].from) else i
  }

  /** Every ticket issued goes back, through renewals each made on presenting a ticket for the same address
      no more than ten minutes old, to one issued on a code that was accepted for that address. */
  lemma {:induction false} TicketsTraceBack(keyed: Keyed, trace: Trace, i: nat)
    requires keyed.Valid() && IsTrace(keyed, trace) && Ideal(keyed, trace) && i < |StateOf(trace).tickets|
    ensures var s := StateOf(trace);
            var root := s.tickets[RootOf(s.tickets, i)];
            && root.First? && Key(root.address) == Key(s.tickets[i].address)
            && AcceptedIn(s.codes, Key(s.tickets[i].address), root.acceptedAt)
    ensures var s := StateOf(trace);
            s.tickets[i].Renewed? ==>
              var from := s.tickets[i].from;
              && from < i && Key(s.tickets[from].address) == Key(s.tickets[i].address)
              && PresentedInTime(s.tickets[from], s.tickets[i].presentedAt)
    decreases i
  {
    TraceIsFounded(keyed, trace);
    var s := StateOf(trace);
    assert Founded(s.codes, s.tickets, i);
    if s.tickets[i].Renewed? {
      TicketsTraceBack(keyed, trace, s.tickets[i].from);
    }
  }

  /** So a ticket a route serves goes back to a code that was accepted for the address it serves it for, and
      is no more than ten minutes old when it is presented. */
  lemma ServedTicketsTraceBack(keyed: Keyed, trace: Trace, id: nat, request: Request)
    requires keyed.Valid() && IsTrace(keyed, trace) && Ideal(keyed, trace)
    requires id in StateOf(trace).flights && StateOf(trace).flights[id].Holding?
    requires IdealAt(keyed, StateOf(trace), Act(id, request, true))
    requires ServedFor(keyed, StateOf(trace).flights[id].ticket, request).Some?
    ensures var s := StateOf(trace);
            var key := Key(ServedFor(keyed, s.flights[id].ticket, request).value);
            exists i: nat :: i < |s.tickets| && Key(s.tickets[i].address) == key
                             && PresentedInTime(s.tickets[i], s.flights[id].presentedAt)
                             && s.tickets[RootOf(s.tickets, i)].First?
                             && AcceptedIn(s.codes, key, s.tickets[RootOf(s.tickets, i)].acceptedAt)
  {
    var s := StateOf(trace);
    var f := s.flights[id];
    TraceIsFounded(keyed, trace);
    assert FlightFounded(keyed, s, f);
    ServedIsFounded(keyed, s, f.ticket, f.presentedAt, request);
    TicketsTraceBack(keyed, trace, Presented(keyed, s.tickets, f.ticket));
  }

  // ---- one ticket a code ----

  function FirstTickets(tickets: seq<Issuance>, key: string): nat {
    if tickets == [] then 0
    else
      var last := tickets[|tickets| - 1];
      FirstTickets(tickets[..|tickets| - 1], key) + if last.First? && Key(last.address) == key then 1 else 0
  }

  function VerifiedFlights(flights: map<nat, Flight>, key: string): set<nat> {
    set id | id in flights && flights[id].Verified? && Key(flights[id].address) == key
  }

  lemma OneMoreFirst(tickets: seq<Issuance>, issued: Issuance, key: string)
    ensures FirstTickets(tickets + [issued], key)
            == FirstTickets(tickets, key) + if issued.First? && Key(issued.address) == key then 1 else 0
  {
    assert (tickets + [issued])[..|tickets|] == tickets;
  }

  lemma OneFlightLess(flights: map<nat, Flight>, id: nat, key: string)
    requires id in flights
    ensures |VerifiedFlights(flights - {id}, key)|
            == |VerifiedFlights(flights, key)| - if id in VerifiedFlights(flights, key) then 1 else 0
  {
    assert VerifiedFlights(flights - {id}, key) == VerifiedFlights(flights, key) - {id};
  }

  lemma OneFlightMore(flights: map<nat, Flight>, id: nat, f: Flight, key: string)
    requires id !in flights
    ensures |VerifiedFlights(flights[id := f], key)|
            == |VerifiedFlights(flights, key)| + if f.Verified? && Key(f.address) == key then 1 else 0
  {
    if f.Verified? && Key(f.address) == key {
      assert VerifiedFlights(flights[id := f], key) == VerifiedFlights(flights, key) + {id};
    } else {
      assert VerifiedFlights(flights[id := f], key) == VerifiedFlights(flights, key);
    }
  }

  /** First tickets issued, and those still to be. */
  ghost function Firsts(s: State, key: string): nat {
    FirstTickets(s.tickets, key) + |VerifiedFlights(s.flights, key)|
  }

  lemma OneStepOfFirsts(keyed: Keyed, s: State, now: int, e: Event, key: string)
    requires IsRun(s.codes) && Can(keyed, s, now, e)
    ensures var t := After(keyed, s, now, e);
            && IsRun(t.codes)
            && Firsts(t, key) - Firsts(s, key) <= CodeRuns.AcceptedFor(t.codes, key) - CodeRuns.AcceptedFor(s.codes,
                key)
  {
    var t := After(keyed, s, now, e);
    var id := IdOf(e);
    if id !in s.flights {
      if id in t.flights {
        OneFlightMore(s.flights, id, t.flights[id], key);
      }
    } else {
      OneFlightLess(s.flights, id, key);
      if |t.tickets| > |s.tickets| {
        OneMoreFirst(s.tickets, t.tickets[|s.tickets|], key);
      }
    }
  }

  lemma {:induction false} FirstTicketsAreAccepted(keyed: Keyed, trace: Trace, key: string)
    requires IsTrace(keyed, trace)
    ensures Firsts(StateOf(trace), key) <= CodeRuns.AcceptedFor(StateOf(trace).codes, key)
    ensures IsRun(StateOf(trace).codes)
  {
    if trace.Then? {
      FirstTicketsAreAccepted(keyed, trace.past, key);
      OneStepOfFirsts(keyed, StateOf(trace.past), trace.now, trace.event, key);
    }
  }

  /** One exchange in the mailbox starts one line of tickets: an address has no more first tickets than codes
      accepted for it, and so no more than codes it was sent; and none at all without one. */
  lemma FirstTicketsAreBounded(keyed: Keyed, trace: Trace, key: string)
    requires IsTrace(keyed, trace)
    ensures var s := StateOf(trace);
            FirstTickets(s.tickets, key) <= CodeRuns.AcceptedFor(s.codes, key) <= CodeRuns.Issued(s.codes, key)
  {
    FirstTicketsAreAccepted(keyed, trace, key);
    CodeRuns.GuessingIsBounded(StateOf(trace).codes, key);
  }
}
