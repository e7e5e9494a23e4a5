# What the services promise

The VillageOS services keep a few promises that hold over whole runs rather than in one call: how many codes an
address can be sent and how often a code can be guessed, where a submission ticket comes from, how often a key is
exchanged for a token, what is left in the model when a registration fails halfway, which token a piece of work
acts under.  This project models the code that keeps them and proves them, or, where the code does not keep them
as its comments say, gives an input that shows it and the exact condition under which it does.

`dafny verify dfyconfig.toml` checks everything.

## How it is laid out

**Verifying an address** (`vos.Service.Intake`).
`AddressCodes` is one address's record and what each call does to it.
`CodeHistory` says which answer is accepted, and `CodesAnHour` how many codes are sent and stand in an hour, read
off a history of calls and replies.
`CodeStore` is the capped, lazily swept store: the class `AddressVerification` carries a ghost run, and each public
method appends exactly one step to it.
`CodeRuns` proves what every such run keeps, and `CodeEviction` who can tell that a record was removed.
`SubmissionTickets` is the ticket, down to its bytes.
`IntakeRoutes` puts the two together: the routes as steps that interleave, with mail in flight in between;
`CodesInTheMail` follows which code each failed mail takes back.

**Tokens** (`vos.Service.Shared`, `vos.Service.Go.Echo`).
`TokenSource` is the API-key cache as steps of any number of callers.
`TokenCaches` compares it, one call at a time, with the Go service's.
`ModelToken` is the ambient token and work nested under it; `HeldToken` is the token held for work that outlives
its call, shared without a lock.

**The model** (`vos.Service.Delta`, `vos.Service.Shared`).
`EndpointTemplates` finds the template, `Registration` writes the Thing and undoes it, `ModelClock` follows the
broker's clock, `PropertyLookup` and `StudyInputs` read properties by leaf name.

**Text** (`Base64`, `JwtPayload`, `Screenshots`, `BuildFile`): decoders and a parser, each against its printer.
`Text` holds what they share.

Instants are integers of 100 nanoseconds, except in `ModelClock`, where they are reals.  Clocks, drawn codes, the
digest, the broker's and the mail server's answers are inputs.  What is computed of a text, a key, an envelope or a
request's rows is also said character by character and by position, and the two are proved to be one.  Where several
callers share state, everything between two of their awaits or reads of it is one step, and the steps interleave
freely.

## What is not so

- The sweep is invisible; the eviction that follows it when nothing is dead is not.  A record may be forgotten
  unseen exactly when no code of it can still be accepted and its budget period is over
  (`AddressCodes.ForgettingIsInvisibleExactlyWhen`), and a step of the store can be told from one that removes
  nothing exactly when it removes a record that still matters to its address
  (`CodeEviction.EvictionShowsExactlyWhenItForgets`).  `CodeEviction.EvictionShows` is a run where it does.
- Nor is the sweep once a call is served after one that read the clock later.  It is invisible while no call finds
  its record removed at a later instant than it read (`CodeRuns.SweepIsInvisible`); calls that read the clock from
  some instant on can tell exactly when the record would matter at that instant
  (`CodeEviction.RemovalShowsExactlyWhen`).  Two calls that change places by one tick are enough for a right answer
  to be refused (`CodeEviction.OneTickOutOfStepShows`).
- An hour is left with six codes that stand only while each taken back is taken back inside its own budget period.
  Otherwise it is six and one more for each that is late (`CodesAnHour.AtMostSixAndTheLateStand`), and every such
  number is reached (`CodesAnHour.TheLateStandAnHour`).  One mail that fails two ticks after it was sent is enough
  (`CodesAnHour.OnePromptRefundPassesSix`).
- Given the same status, token and expiry, the two token caches differ in the five seconds after a fruitless
  exchange, on an expiry of zero or one no instant holds, and on a success other than 200
  (`TokenCaches.RunsAgreeExactlyWhenAlike`, with `TokenCaches.APauseTellsThemApart` and
  `TokenCaches.AStatusTellsThemApart`).
- The two property lookups differ where an ordinal dictionary passes over a property written in other letters
  (`PropertyLookup.LookupsAgreeExactlyWhen`, `PropertyLookup.APropertyIsPassedOver`).  The dictionaries the services
  pass ignore case (vos.Service.Delta/Services/MyceliumClient.cs:32,
  vos.Service.Tributary/Services/MyceliumClient.cs:281), so there the two agree wherever names differ.
  What a study carries depends on the order of its properties where it holds two values of its own under one
  name (`PropertyLookup.OrderDecidesOnlyBetweenOwnValues`).
- Registration leaves a Thing behind also when its creation reached the broker and was not reported: nothing is
  deleted then (`Registration.AllOrNothing`, `Registration.AnUnreportedCreationIsLeft`).
- The model clock is ahead of the broker by all the broker has dropped behind the rate it gave since the reading,
  by going slower and by being set back, less what it ran through while the answer was on its way
  (`ModelClock.AheadByWhatWasDropped`).  For one change `ModelClock.RunsAheadExactlyWhile` and
  `ModelClock.NeverAheadExactlyWhen` say when that is more than nothing; a broker that stops and one that is set
  back a year are run ahead of (`ModelClock.RunsAheadOfABrokerThatStops`, `ModelClock.RunsAheadOfABrokerSetBack`).
- The follower does not always catch up: nothing catches an asking that is cancelled, as one is that the client's
  five seconds run out on, nor a rate below zero, and either ends the loop for good
  (`ModelClock.OneRaisingEndsIt`).  It keeps up, wherever the broker was set before, if and only if no earlier
  asking raised (`ModelClock.KeepsUpExactlyWhileNoneRaised`).
- The last code sent is not always the one that works: a mail that fails clears whatever code is held, and that is
  its own exactly while its own is unspent (`CodesInTheMail.AFailedMailClearsExactlyWhenUnspent`).  When an earlier
  mail fails later, a code that arrived is refused (`CodesInTheMail.TheLastCodeSentIsRefused`); which code is
  accepted is `CodeHistory.AcceptedExactlyWhenWaitedFor`.
- Five codes an hour is what calls served in the order of their clock, or a tick out of it, are held to.  The clock
  is read before the lock is taken; from two ticks on it is seven (`CodesAnHour.AtMostSevenCodesAnHour`,
  `CodesAnHour.SevenCodesAnHourAreReached`).
- Exchanges are kept apart only for tokens stored with more than thirty seconds left; for others any number is made
  at one instant (`TokenSource.ShortTokensAreExchangedForAtOnce`).
- The buffer of a screenshot is exact only for a text without white space; with some, the picture ends in zeros
  (`Screenshots.RoomIsExactExactlyWhen`).

## Model

| member | source | states |
|---|---|---|
| AddressCodes.AgreementIsKept | vos.Service.Intake/AddressVerification.cs:54-119 | Two records that agree but for what can no longer matter answer every call alike, and agree after it. |
| AddressCodes.AgreementRuns | vos.Service.Intake/AddressVerification.cs:54-119 | So every history of calls from an instant on, in whatever order they read the clock, is answered from the one, reply by reply, as from the other. |
| AddressCodes.ForgettingIsInvisibleExactlyWhen | vos.Service.Intake/AddressVerification.cs:136-150 | Of any record: no history from an instant on tells it from an absent one if and only if neither its code nor its budget matters then. |
| AddressCodes.KeysAgreeExactlyWhen | vos.Service.Intake/AddressVerification.cs:121-124 | Two addresses are held under one key if and only if, with the white space at both their ends gone, they have equal length and agree letter by letter but for case. |
| AddressCodes.TrimmedIs | vos.Service.Intake/AddressVerification.cs:134 | An answer is compared as this text if and only if that is what is left of it with the white space at both its ends gone. |
| CodeHistory.HeldIsSound | vos.Service.Intake/AddressVerification.cs:61-73 | Over every history the record's counts stay within their limits, and its budget opened no later than the last call where calls are served in the order of their clock. |
| CodeHistory.AcceptedExactlyWhenWaitedFor | vos.Service.Intake/AddressVerification.cs:87-105 | An answer is accepted if and only if it is the last code sent, neither accepted nor taken back since, under fifteen minutes old, and fewer than five answers were given to it. |
| CodeHistory.HeldExactlyWhileUnspent | vos.Service.Intake/AddressVerification.cs:68-74 | The code held is the one a call sent if and only if none was sent, accepted or taken back since that call. |
| CodeHistory.WhichCodeIsCleared | vos.Service.Intake/AddressVerification.cs:110-119 | A taking back leaves no code; it clears the one sent by a given call if and only if that is unspent, and otherwise, if any, a later one. |
| CodesAnHour.OpenerOf | vos.Service.Intake/AddressVerification.cs:61-66 | The record a history leaves was opened by a code sent at the instant its budget counts from. |
| CodesAnHour.PeriodsAreApart | vos.Service.Intake/AddressVerification.cs:61-66 | Budget periods open at least an hour apart and are never gone back to. |
| CodesAnHour.SentInItsPeriod | vos.Service.Intake/AddressVerification.cs:61-74 | A code is sent before its period is over, and before it opens by no more than the skew calls are served with. |
| CodesAnHour.StandingIsCounted | vos.Service.Intake/AddressVerification.cs:61-74 | What stands of a period is at most what its record counts while it runs, and three once it is over, and one more for each code it took back late. |
| CodesAnHour.TwoPeriodsCover | vos.Service.Intake/AddressVerification.cs:61-66 | The codes of an hour, less the skew, are of two periods at the most. |
| CodesAnHour.AtMostFiveCodes | vos.Service.Intake/AddressVerification.cs:34-36 | With nothing taken back, a span shorter than an hour by the skew holds at most five codes, however the calls are served. |
| CodesAnHour.AtMostFiveCodesAnHour | vos.Service.Intake/AddressVerification.cs:34-36 | With calls served in the order of their clock, any half-open hour holds at most five. |
| CodesAnHour.FiveCodesAnHourAreReached | vos.Service.Intake/AddressVerification.cs:61-74 | A history that holds five in one hour, so that the bound is the least one. |
| CodesAnHour.AtMostSevenCodesAnHour | vos.Service.Intake/AddressVerification.cs:57-66 | With nothing taken back, a whole hour holds at most seven codes when calls are served up to an hour out of the order of their clock, and at most five when up to a tick. |
| CodesAnHour.SevenCodesAnHourAreReached | vos.Service.Intake/AddressVerification.cs:57-66 | A history two ticks out of order that holds seven in one hour, so that it is reached for every skew from there on. |
| CodesAnHour.AtMostSixAndTheLateStand | vos.Service.Intake/AddressVerification.cs:110-119 | Whatever is taken back and whenever, an hour, less the skew, is left with at most six standing codes and one more for each taken back after its own period. |
| CodesAnHour.AtMostSixCodesStandAnHour | vos.Service.Intake/AddressVerification.cs:110-119 | With each code taken back in its own period, at most six codes of an hour are not taken back. |
| CodesAnHour.TheLateStandAnHour | vos.Service.Intake/AddressVerification.cs:110-119 | For every number of codes taken back late, a history with that many in which six more than that stand in one hour. |
| CodesAnHour.OnePromptRefundPassesSix | vos.Service.Intake/AddressVerification.cs:110-119 | Seven stand with one code taken back late, and each taken back within two ticks of being sent. |
| CodeStore.Pending.Try | vos.Service.Intake/AddressVerification.cs:94-103 | Answering changes the record in place as the record machine says, and refuses when it does. |
| CodeStore.Pending.TakeBackCode | vos.Service.Intake/AddressVerification.cs:116-117 | Taking back changes the record in place as the record machine says. |
| CodeStore.Pending.Draw | vos.Service.Intake/AddressVerification.cs:68-74 | Sending a code changes the record in place as the record machine says, and answers none when the budget is spent. |
| CodeStore.AddressVerification.CodeFor | vos.Service.Intake/AddressVerification.cs:54-76 | One call appends one lawful step, under the address's key, to the run the store is the state of. |
| CodeStore.AddressVerification.WhyRefused | vos.Service.Intake/AddressVerification.cs:87-105 | The same for an answer. |
| CodeStore.AddressVerification.NothingWasSent | vos.Service.Intake/AddressVerification.cs:110-119 | The same for a code taken back. |
| CodeStore.AddressVerification.MakeRoom | vos.Service.Intake/AddressVerification.cs:140-154 | What is left is what making room may leave, the records left are the same objects, and there is room. |
| CodeStore.AddressVerification.Sweep | vos.Service.Intake/AddressVerification.cs:146-150 | Exactly the records dead on both counts go, in whatever order they are walked. |
| CodeStore.AddressVerification.DropUntilThereIsRoom | vos.Service.Intake/AddressVerification.cs:152-153 | At most one record goes, and only when there is no room: one whose budget opened no later than any other's. |
| CodeStore.AddressVerification.Earliest | vos.Service.Intake/AddressVerification.cs:153 | The record found is one whose budget opened first. |
| CodeRuns.OthersAreUntouched | vos.Service.Intake/AddressVerification.cs:61-66 | No call changes the record of another address; it can only be removed, and only where room is made. |
| CodeRuns.LedgerAgrees | vos.Service.Intake/AddressVerification.cs:136-139 | As long as an address's record is not removed while it matters, and no call that finds it removed read the clock before that, the run answers the address as a ledger that never removes anything, in whatever order calls are served otherwise. |
| CodeRuns.ClockedIsInStep | vos.Service.Intake/AddressVerification.cs:54-66 | Calls served in the order of their clock never find a record removed later than they read. |
| CodeRuns.CapIsKept | vos.Service.Intake/AddressVerification.cs:40 | No run ever holds more than ten thousand records. |
| CodeRuns.WhatMakingRoomRemoves | vos.Service.Intake/AddressVerification.cs:140-154 | Making room removes only records dead on both counts; or, when there are none, one live record whose budget opened no later than any survivor's; and nothing below the cap. |
| CodeRuns.UncrowdedForgetsNothing | vos.Service.Intake/AddressVerification.cs:140-154 | While fewer addresses than the cap are live whenever room is made, and calls are in step with the removals they find, no record is removed while it matters. |
| CodeRuns.SweepIsInvisible | vos.Service.Intake/AddressVerification.cs:136-154 | Under those conditions every address gets, over the whole run, the replies of an unbounded store that never removes anything. |
| CodeRuns.GuessingIsBounded | vos.Service.Intake/AddressVerification.cs:68-74 | Over any run, evictions and all, the answers compared for an address are at most five times its codes, and the acceptances at most its codes. |
| CodeRuns.ComparedExactlyWhen | vos.Service.Intake/AddressVerification.cs:94-100 | An answer counts as compared if and only if some answer in its place would have been accepted. |
| CodeRuns.AcceptedIsTheLatestSent | vos.Service.Intake/AddressVerification.cs:87-105 | An accepted answer is the latest code sent to that key, under fifteen minutes old, neither accepted nor taken back since. |
| CodeRuns.SentIsAccepted | vos.Service.Intake/AddressVerification.cs:54-105 | A code asked for under one spelling of an address and answered under another is accepted if and only if the answer spells it, space around it aside, before it expires. |
| CodeRuns.VerifyAddress | vos.Service.Intake/AddressVerification.cs:121-123 | The same of the store itself, one call after the other; and where nothing was sent before, no answer for another address is accepted. |
| CodeRuns.LedgerCounts | vos.Service.Intake/AddressVerification.cs:54-76 | The codes of an hour counted over the run of the whole store are those of the one address's history. |
| CodeRuns.AtMostSevenCodesAnHourAreSent | vos.Service.Intake/AddressVerification.cs:57-66 | The seven an hour of calls up to an hour out of order, and the five of calls up to a tick, carried over to the whole store, under the same conditions and with nothing asked of the order of other addresses' calls. |
| CodeRuns.AtMostFiveCodesAnHourAreSent | vos.Service.Intake/AddressVerification.cs:34-36 | The five an hour, carried over to the whole store with calls in order: for an address whose codes are never taken back and whose record is not removed while it matters. |
| CodeRuns.AtMostSixAndTheLateStandOfAnHour | vos.Service.Intake/AddressVerification.cs:110-119 | The codes a run of the store sends an address in an hour, less those of them taken back, are at most six and as many as are taken back late, where its record is not removed while it matters and its own calls are in order; those of others need not be. |
| CodeEviction.Replay | vos.Service.Intake/AddressVerification.cs:54-119 | Any history of calls on one address can be made of the store, which answers it from what it holds and the ledger from what that holds. |
| CodeEviction.RemovalShowsExactlyWhen | vos.Service.Intake/AddressVerification.cs:140-154 | In whatever order calls were served: calls on one address that read the clock from an instant on, be it before the removal, can tell that its record is gone if and only if it would matter at that instant. |
| CodeEviction.EvictionShowsExactlyWhenItForgets | vos.Service.Intake/AddressVerification.cs:152-153 | With calls in order, a step is told, by some later calls on one address alone, from one of a store that never removes anything if and only if it removes that address's record while it matters. |
| CodeEviction.EvictionShows | vos.Service.Intake/AddressVerification.cs:152-153 | A run of ten thousand first asks, one ask more, and calls of the evicted address that no store without removals would answer so. |
| CodeEviction.OneTickOutOfStepShows | vos.Service.Intake/AddressVerification.cs:140-154 | A run with no crowd and nothing removed that mattered then, in which an answer that read the clock a tick before the sweep and is served after it is refused, where it spells a code still accepted. |
| SubmissionTickets.WriteInt64BigEndian | vos.Service.Intake/SubmissionTicket.cs:41-42 | Writes the big-endian bytes of a signed 64-bit number at the front of a buffer and leaves the rest. |
| SubmissionTickets.NumberRoundTrips | vos.Service.Intake/SubmissionTicket.cs:42 | Reading big-endian bytes undoes writing them, at any width. |
| SubmissionTickets.Int64RoundTrips | vos.Service.Intake/SubmissionTicket.cs:69 | Every signed 64-bit number, negative ones among them, is read back from the front of whatever follows it. |
| SubmissionTickets.Issue | vos.Service.Intake/SubmissionTicket.cs:39-45 | The buffer filled in place encodes as the text of second, mark and tag. |
| SubmissionTickets.ReadsExactlyWhatIsSigned | vos.Service.Intake/SubmissionTicket.cs:76-94 | A text reads as signed bytes if and only if it is not blank and decodes to exactly those bytes and their tag. |
| SubmissionTickets.VerdictIs | vos.Service.Intake/SubmissionTicket.cs:61-94 | A text is refused as no ticket if and only if no second and mark make it one under this key; otherwise its second alone decides whether it is live, has expired or raises. |
| SubmissionTickets.TicketRoundTrips | vos.Service.Intake/SubmissionTicket.cs:39-45 | For every second and mark the issued text reads back as the same signed bytes, and they as the same second and mark. |
| SubmissionTickets.LivesTenMinutes | vos.Service.Intake/SubmissionTicket.cs:61-74 | A ticket is live if and only if it is no later than ten minutes after the start of the second it was issued in: always for 599 seconds, never over 600. |
| SubmissionTickets.MatchesItsAddress | vos.Service.Intake/SubmissionTicket.cs:49-57 | A ticket is taken for an address if and only if the digests of the two normalised addresses are equal, and so for every spelling of the one it was issued for. |
| IntakeRoutes.ServedExactlyWhen | vos.Service.Intake/Program.cs:361-440 | A ticket issued for one address gets a request served for another if and only if the two have one mark and the request names it: a submission with space around it and not blank, findings with an id as well. |
| IntakeRoutes.AnAcceptedCodeIsExchanged | vos.Service.Intake/Program.cs:316-333 | From any trace, an answer that is accepted leads to one ticket more, for the address answered for, and one that is not to none. |
| IntakeRoutes.ALiveTicketIsServed | vos.Service.Intake/Program.cs:335-441 | From any trace, any ticket in it can be presented for ten minutes; an act done that it serves leaves exactly one ticket more, for that address and instant, and any other act none. |
| IntakeRoutes.TraceIsFounded | vos.Service.Intake/Program.cs:316-395 | Over every trace of the routes, each ticket and each request in flight rests on an accepted code or an earlier ticket. |
| IntakeRoutes.TicketsTraceBack | vos.Service.Intake/Program.cs:368-377 | Every ticket issued goes back, by renewals each on presenting a ticket for the same address at most ten minutes old, to one issued on an accepted code for that address. |
| IntakeRoutes.ServedTicketsTraceBack | vos.Service.Intake/Program.cs:405-441 | So does every ticket a route serves, for the address it serves it for. |
| IntakeRoutes.FirstTicketsAreAccepted | vos.Service.Intake/Program.cs:316-333 | First tickets issued, and those still in flight, are no more than the codes accepted for the address. |
| IntakeRoutes.FirstTicketsAreBounded | vos.Service.Intake/Program.cs:316-333 | An address has no more first tickets than accepted codes, and no more of those than codes sent. |
| CodesInTheMail.EveryRefundIsMatched | vos.Service.Intake/Program.cs:292-313 | Over every trace, each place given back in a budget is that of a code sent to that address before, the one whose mail failed, and is given back once; which code is cleared is another matter. |
| CodesInTheMail.AFailedMailClearsExactlyWhenUnspent | vos.Service.Intake/Program.cs:302-308 | A mail that fails clears its own code if and only if that is neither replaced, accepted nor taken back since; otherwise a later one, if one is held. |
| CodesInTheMail.TheLastCodeSentIsRefused | vos.Service.Intake/AddressVerification.cs:51-53 | A trace of two codes sent to one address, where the mail of the first fails after the second was sent, and the second arrives, is answered at once for that address and is refused. |
| CodesInTheMail.NothingIsLate | vos.Service.Intake/Program.cs:292-313 | Where every mail that fails does so while the hour its budget opened still runs, no code is taken back late. |
| CodesInTheMail.StandingOfAnHour | vos.Service.Intake/Program.cs:292-313 | Over every trace the codes of an hour less those taken back are at most six and as many as came back late; and at most six where mails fail in time. |
| TokenSource.OneCallerInside | vos.Service.Shared/ApiKeyTokenSource.cs:53-75 | On every interleaving at most one caller is inside, and the permit is there exactly when none is. |
| TokenSource.InsideAlwaysGetsOut | vos.Service.Shared/ApiKeyTokenSource.cs:72-75 | A caller inside always has a step to take, and each one it takes, a cancelled exchange too, brings the release nearer. |
| TokenSource.ExchangesAreSpaced | vos.Service.Shared/ApiKeyTokenSource.cs:56-70 | Exchanges their callers do not cancel start at least the lesser of five seconds and a token's useful life apart, from the end of the one before. |
| TokenSource.ExchangesFitTheSpan | vos.Service.Shared/ApiKeyTokenSource.cs:56-70 | So those that start within a span are at most the span over that distance, and one. |
| TokenSource.NoExchangeDuringThePause | vos.Service.Shared/ApiKeyTokenSource.cs:59-67 | In the five seconds after a fruitless exchange no caller begins one, however long any token lasts; a caller at the lock leaves with nothing. |
| TokenSource.ShortTokensAreExchangedForAtOnce | vos.Service.Shared/ApiKeyTokenSource.cs:56-70 | For every number, a run of that many exchanges, none fruitless, at one instant, of tokens stored with thirty seconds left or less. |
| TokenCaches.ApiKeyTokenSource.GetToken | vos.Service.Shared/ApiKeyTokenSource.cs:48-79 | One uncontended call returns, exchanges and leaves held what the specification says. |
| TokenCaches.GoService.TokenFromTheKey | vos.Service.Go.Echo/main.go:150-179 | The same for the Go service. |
| TokenCaches.OneCallAgreesExactlyWhenAlike | vos.Service.Go.Echo/main.go:153-178 | Holding the same and given the same reply, the two return the same token and exchange alike if and only if the call is served from the cache, or falls in no pause and gets no status or expiry that only one of them takes. |
| TokenCaches.RunsAgreeExactlyWhenAlike | vos.Service.Go.Echo/main.go:150-179 | Over every run of calls the two agree throughout if and only if every call meets that condition. |
| TokenCaches.RunsOfTokensAgree | vos.Service.Go.Echo/main.go:150-179 | They agree on every run in which each exchange is answered 200 with a token of a positive expiry an instant can hold. |
| TokenCaches.APauseTellsThemApart | vos.Service.Shared/ApiKeyTokenSource.cs:59-67 | Two calls a tick apart, the first fruitless: the one keeps its pause, the other exchanges again and gets a token. |
| TokenCaches.AStatusTellsThemApart | vos.Service.Shared/ApiKeyTokenSource.cs:95-99 | A reply with status 201 and a good token is taken by the one and refused by the other. |
| TokenCaches.ACallAloneIsAsk | vos.Service.Shared/ApiKeyTokenSource.cs:48-76 | The interleaved steps of a caller nobody is in the way of come to exactly what one call at a time does. |
| ModelToken.Ambient.Run | vos.Service.Shared/MyceliumModelToken.cs:20-32 | Work of any nesting, raising anywhere, leaves the ambient token as it was, and each look at it sees the innermost token around it. |
| ModelToken.AmbientReachesOnlyOutside | vos.Service.Shared/MyceliumModelToken.cs:20-32 | What work sees and whether it raises depend on the ambient token only at the looks outside every piece run under its own. |
| HeldToken.Holder.SwapFromTheCall | vos.Service.Shared/HeldModelToken.cs:30-39 | Nothing is held for a call without a token, the swapped token for one with it, and there is no holder where the swap was refused. |
| HeldToken.Holder.Act | vos.Service.Shared/HeldModelToken.cs:41-69 | Where it is due and a replacement is given that is held from then on, and otherwise what was held; work runs under what is then held, not at all where replacing raised, and the ambient token is put back. |
| HeldToken.APieceAloneActs | vos.Service.Shared/HeldModelToken.cs:41-69 | The interleaved steps of a piece of work that no other comes in between leave held, and begin under, what acting does, from any run. |
| HeldToken.WorkHasTimeLeft | vos.Service.Shared/HeldModelToken.cs:53-69 | On every interleaving work begins under a token with more than two hours left when the work read what was held, or its own replacement was refused. |
| HeldToken.ReplacementsAreSpaced | vos.Service.Shared/HeldModelToken.cs:55-68 | No replacement is asked for sooner after the last one its asker can have seen than a token's life less two hours. |
| EndpointTemplates.DescendsFrom | vos.Service.Delta/Models/EndpointTemplateTree.cs:75-87 | The walk ends whatever loops the edges make, and says yes if and only if a path leads to the root. |
| EndpointTemplates.BoundThings | vos.Service.Delta/Models/EndpointTemplateTree.cs:43-48 | Exactly the Things an edge of the role's binds, each once. |
| EndpointTemplates.Candidates | vos.Service.Delta/Models/EndpointTemplateTree.cs:62-64 | Exactly the archetypes of the name that descend from the root, each once. |
| EndpointTemplates.Locate | vos.Service.Delta/Models/EndpointTemplateTree.cs:34-73 | Located exactly when one `is`, one bound Thing and, for a name, one archetype of it; otherwise the status that fits what is missing or too many. |
| EndpointTemplates.OneAnswer | vos.Service.Delta/Models/EndpointTemplateTree.cs:34-73 | What a model holds admits one answer only. |
| Registration.Refusal | vos.Service.Delta/Program.cs:122-192 | A request is refused for the first of its faults in the order they are checked, and let pass exactly when it has none; each fault said of the request's own rows, properties and characters. |
| Registration.TemplateRefusal | vos.Service.Delta/Program.cs:148-192 | The same for the faults that need the template. |
| Registration.TemplateIs | vos.Service.Delta/Program.cs:128-148 | What is computed of the rows is that: more than one name if and only if two rows are such, and the template read of the one row's target, or of the root. |
| Registration.TextIs | vos.Service.Delta/Helpers/JsonValueCoercion.cs:29-55 | A property's text is that of the key itself, and failing one of the first that differs from it in case alone. |
| Registration.MethodIs | vos.Service.Delta/Program.cs:178-187 | The method is the request's own where that is not blank, and otherwise the text the template gives for it. |
| Registration.UnsupportedIs | vos.Service.Delta/Program.cs:166-176 | A key is unsupported if and only if no property of the template is of its name and none ends in it. |
| Registration.VerbIs | vos.Service.Shared/Validation/HttpMethodValidator.cs:18 | A method is supported if and only if it is one of the nine but for case and the space around it. |
| Registration.Handle | vos.Service.Delta/Program.cs:114-256 | A refused request makes no call and changes nothing; any other makes the calls of one registration under its template, that named by the only `is` row of the Thing's own or the root's where there is none, whatever becomes of each, and leaves the broker with the whole Thing on success and otherwise as it was, unless the Thing was created and not deleted. |
| Registration.Register | vos.Service.Delta/Program.cs:194-255 | Create, relate, set in order; at the first that fails delete, and once more where a deletion raised and was caught. |
| Registration.Compensate | vos.Service.Delta/Program.cs:258-264 | One deletion, of the Thing created. |
| Registration.WrittenWhole | vos.Service.Delta/Program.cs:207-234 | When every call is done the broker holds what it held and the Thing with its one edge and every property asked for. |
| Registration.AskedAreHeld | vos.Service.Delta/Program.cs:222-234 | When no key is stated twice the properties held are exactly those asked for. |
| Registration.ThereExactlyWhen | vos.Service.Delta/Program.cs:194-248 | The Thing is there if and only if its creation reached the broker and no deletion did. |
| Registration.OurCallsOnlyGrow | vos.Service.Delta/Program.cs:194-234 | Nothing but that Thing ever differs, and of it nothing that was not asked for. |
| Registration.AllOrNothing | vos.Service.Delta/Program.cs:194-255 | Under every schedule of replies and effects: success means the whole Thing; otherwise nothing changed, except if and only if the creation reached the broker and no deletion did. |
| Registration.DeletesExactlyWhatItCreated | vos.Service.Delta/Program.cs:213-248 | A deletion is attempted on every failing path after a reported creation and on no other, and only of that Thing. |
| Registration.AnUnreportedCreationIsLeft | vos.Service.Delta/Program.cs:194-205 | A creation that reaches the broker and is not reported fails the registration with no deletion, and the Thing stays. |
| ModelClock.Clock.AnchorTo | vos.Service.Shared/ModelClock.cs:48-52 | A rate below zero is refused and changes nothing; any other reading is what the clock shows as it lands, at that offset from the wall clock, and it reads on from there at that rate. |
| ModelClock.Follower.FollowOnce | vos.Service.Shared/Hosting/ModelClockFollower.cs:55-74 | An answer anchors the clock and none leaves it going on from the last; asking that is cancelled, and a rate below zero, raise and leave the anchor as it was. |
| ModelClock.Follower.Execute | vos.Service.Shared/Hosting/ModelClockFollower.cs:39-53 | The loop asks up to the first asking that raises and never after it, and leaves the clock as those askings leave it. |
| ModelClock.LagsByTheAnswersWay | vos.Service.Shared/ModelClock.cs:28-47 | While the broker runs evenly since the reading, the clock is behind it by exactly the rate times the answer's way, and never ahead. |
| ModelClock.NeverGoesBackBetweenReadings | vos.Service.Shared/ModelClock.cs:28-34 | Between readings the clock never goes back. |
| ModelClock.MovesByTheDifferenceInDelay | vos.Service.Shared/ModelClock.cs:44-52 | A second reading moves it by exactly the rate times the difference of the two delays. |
| ModelClock.NothingIsFollowedAfter | vos.Service.Shared/Hosting/ModelClockFollower.cs:39-53 | The first asking that raises is the last made, and leaves the anchor of those before it, whatever would have come of asking again. |
| ModelClock.FollowsWhateverChanged | vos.Service.Shared/Hosting/ModelClockFollower.cs:39-74 | Where no asking before the last reading raised: one interval and two answers after the broker runs evenly, and one more of each per asking since that took no reading, the clock lags by the rate times that answer's way. |
| ModelClock.KeepsUpExactlyWhileNoneRaised | vos.Service.Shared/Hosting/ModelClockFollower.cs:39-53 | The clock so keeps up, wherever the broker is set after the last asking that raised and before it runs evenly, if and only if no asking before the last reading raised. |
| ModelClock.OneRaisingEndsIt | vos.Service.Shared/MyceliumClientBase.cs:246-273 | One time-out, or one answer with a rate below zero, and the clock is the wall clock for good, though the next asking would be answered. |
| ModelClock.AheadByWhatWasDropped | vos.Service.Shared/ModelClock.cs:28-34 | For a broker changed any number of times, in pace or by a jump: the clock is ahead by exactly all that was dropped behind the rate of the reading, less that rate times the answer's way. |
| ModelClock.RunsAheadExactlyWhile | vos.Service.Shared/ModelClock.cs:44-47 | For one change, a jump and a pace: ahead if and only if the loss by then exceeds what ran through on the answer's way, which is from an instant on when slower, until one when faster, and always or never at the same pace. |
| ModelClock.NeverAheadExactlyWhen | vos.Service.Shared/ModelClock.cs:44-47 | Never ahead from then on if and only if the broker does not go slower and has not jumped back by more than the answer's way and its new pace make up for. |
| ModelClock.RunsAheadOfABrokerThatStops | vos.Service.Shared/ModelClock.cs:44-47 | A broker that stops a second after its answer, a second on its way, has landed is run ahead of from exactly a second after it stops. |
| ModelClock.RunsAheadOfABrokerSetBack | vos.Service.Shared/Hosting/ModelClockFollower.cs:7-10 | A broker set back a year at an unchanged pace is run ahead of from that instant on. |
| PropertyLookup.Carried | vos.Service.Shared/StudyInputs.cs:53-72 | The loop finds the first of the name's own properties, and failing one the only qualified one, for any enumeration, repeated names among them. |
| PropertyLookup.TryGetEffectiveProperty | vos.Service.Shared/EffectivePropertyResolver.cs:14-45 | The dictionary's match, and failing one the only leaf, with the conflicts in order. |
| PropertyLookup.LeavesInParts | vos.Service.Shared/EffectivePropertyResolver.cs:25-32 | With no dot in the name its leaves are its own property and the qualified ones; with a dot there are none. |
| PropertyLookup.LookupsAgreeExactlyWhen | vos.Service.Shared/EffectivePropertyResolver.cs:14-45 | On names that differ ignoring case the two lookups answer alike if and only if the dictionary ignores case or no property is passed over; what the resolver finds is always what is carried, and what is declared twice is always its conflict, in the same order. |
| PropertyLookup.WhatIsCarried | vos.Service.Shared/StudyInputs.cs:53-72 | Said of the properties themselves: absent exactly when no key is the name or ends in it, ambiguous exactly when none is and two end in it, and otherwise the first of its own or the only qualified one. |
| PropertyLookup.WhatIsResolved | vos.Service.Shared/EffectivePropertyResolver.cs:14-45 | The same of the resolver: absent, ambiguous, or found at a place, told from the keys. |
| PropertyLookup.HowKeysRead | vos.Service.Shared/StudyInputs.cs:58-63 | When a key is a name, is qualified by one or has it for its leaf, character by character. |
| PropertyLookup.APropertyIsPassedOver | vos.Service.Shared/EffectivePropertyResolver.cs:21-41 | `foo` and `X.Foo` asked for as `Foo`: the one lookup finds the first, the other reports both. |
| PropertyLookup.OrderDecidesOnlyBetweenOwnValues | vos.Service.Shared/StudyInputs.cs:55-71 | What is carried is the same in every order of the properties if and only if the name's own ones hold one value. |
| PropertyLookup.ResolvedInAnyOrder | vos.Service.Shared/EffectivePropertyResolver.cs:21-44 | What the resolver answers never depends on the order. |
| StudyInputs.Unwrapped | vos.Service.Shared/StudyInputs.cs:75-83 | Of an object it is the first field called `Value` in any letters, said by its place; an object without one, and anything that is no object, is taken as it stands. |
| StudyInputs.NumberOf | vos.Service.Shared/StudyInputs.cs:24-31 | Read off the properties: missing, declared twice, withheld or a number exactly as the keys that are the name or end in it, and what the one found holds, in its envelope or out of it, make it. |
| StudyInputs.ReadingIs | vos.Service.Shared/StudyInputs.cs:24-91 | The reading that waiting is compared with is that one, for every way of reading text as a number. |
| StudyInputs.WaitingFor | vos.Service.Shared/StudyInputs.cs:40-48 | The loop keeps the names awaited and raises over the first declared twice. |
| StudyInputs.WaitsForWhatCannotBeRead | vos.Service.Shared/StudyInputs.cs:24-48 | A handler waits, in order, for exactly the names that reading refuses as missing or withheld, and raises over the first that reading refuses as declared twice. |
| StudyInputs.NothingIsAwaitedExactlyWhen | vos.Service.Shared/StudyInputs.cs:33-48 | It waits for nothing if and only if each input is a number or refused for not being one. |
| Base64.DigitsRoundTrip | vos.Service.Intake/SubmissionTicket.cs:44 | Regrouping bytes by six bits and back loses nothing, at any length. |
| Base64.DigitsAreTheSameBits | vos.Service.Intake/SubmissionTicket.cs:44 | Every three bytes are one number with their four digits, and what is left over with its own and zero bits after it (section 4 of RFC 4648). |
| Base64.ValueIs | vos.Service.Intake/SubmissionTicket.cs:82 | A character is read as a digit if and only if it is that digit's in the table (section 4 and section 5 of RFC 4648), and any other as none. |
| Base64.RoundTrips | vos.Service.Intake/SubmissionTicket.cs:82 | Every byte sequence comes back from its encoding in either alphabet, padded or not (section 4 and section 5 of RFC 4648). |
| Base64.DecodesExactlyWhen | vos.Service.Feedback/Report.cs:88-90 | A text decodes to some bytes if and only if it is a whole number of groups, made of the symbols of digits that are those bytes and at most two signs of padding. |
| Base64.StrippedIs | vos.Service.Feedback/Report.cs:88-90 | Exactly space, tab, line feed and carriage return are passed over. |
| Base64.DecodedLength | vos.Service.Feedback/Report.cs:88-89 | What decodes at all has exactly three quarters of the symbols less the padding. |
| JwtPayload.JoinUndoesSplit | vos.Service.Shared/JwtPayload.cs:34 | Splitting loses nothing and leaves no separator in a part. |
| JwtPayload.SplitUndoesJoin | vos.Service.Shared/JwtPayload.cs:34 | Parts free of the separator come back out of their joining. |
| JwtPayload.SegmentRoundTrips | vos.Service.Shared/JwtPayload.cs:47-52 | Decoding a segment, white space passed over, undoes unpadded base64url for every byte sequence (Appendix C of RFC 7515). |
| JwtPayload.SegmentDecodesExactlyWhen | vos.Service.Shared/JwtPayload.cs:47-52 | A segment decodes to some bytes if and only if, padded by its length and its white space passed over, it is made of the symbols of digits that are those bytes, in either alphabet or both, and at most two signs of padding. |
| JwtPayload.OneSymbolOverIsRefused | vos.Service.Shared/JwtPayload.cs:49-51 | A segment of one symbol more than whole groups of four is refused. |
| JwtPayload.ReadPicksOutThePayload | vos.Service.Shared/JwtPayload.cs:30-45 | The payload is read out of any three parts whose others hold no dot. |
| JwtPayload.ReadsExactlyWhen | vos.Service.Shared/JwtPayload.cs:30-45 | A token is read if and only if it is three parts between two dots whose middle one decodes, and as those bytes. |
| Screenshots.PictureIn | vos.Service.Feedback/Report.cs:78-91 | An address is read as the picture its type and text make, zeros for its white space included, when it has the form of one and the text decodes, and otherwise not at all. |
| Screenshots.DecodedInPlace | vos.Service.Feedback/Report.cs:88-90 | Exactly the texts that decode are read, into a buffer that begins with what they encode and is zero after it, as long as the length and the padding make it. |
| Screenshots.RoomIsExactExactlyWhen | vos.Service.Feedback/Report.cs:88-90 | The buffer always has room, and is as long as what is decoded into it if and only if the text holds no white space. |
| Screenshots.MarkerEndsTheType | vos.Service.Feedback/Report.cs:80-84 | The first marker is the one after the type, whatever the text holds. |
| Screenshots.PictureRoundTrips | vos.Service.Feedback/Report.cs:78-91 | Every picture that is not empty comes back out of the address it is encoded into. |
| BuildFile.Jobs | ci/check_build_file.py:100-115 | The nested loops find the jobs of the lines, in order. |
| BuildFile.JobsUndoPrinting | ci/check_build_file.py:100-115 | Reading the jobs undoes printing them, for any depths, settings, blank lines among them and lines between. |
| BuildFile.AnyJobsCanBeLaidOut | ci/check_build_file.py:100-115 | Any jobs with trimmed names, and settings that are neither empty, nor steps, nor jobs, are those of some file laid out so. |
| BuildFile.Problems | ci/check_build_file.py:170-181 | The loop reports a missing job, and each job without a limit by name and in order. |
| BuildFile.NoProblemsExactlyWhen | ci/check_build_file.py:170-181 | Nothing is reported if and only if there is a job, and every job line has a time limit below it before its steps and before anything no deeper. |
| BuildFile.WhatIsReported | ci/check_build_file.py:170-181 | A missing job where no line declares one; and the jobs without a limit, by the lines that declare them: each by its name, in order and none left out. |
| BuildFile.HowJobsRead | ci/check_build_file.py:105-114 | Which lines declare a job, and under which name, character by character. |
| BuildFile.HowSettingsEnd | ci/check_build_file.py:109-112 | Which lines end the settings of a job that stands so deep. |
| BuildFile.IndentedBlock | ci/check_build_file.py:44-55 | The lines under the first opening, as far as they are indented or empty and no further. |

## Left out

- HTTP, JSON parsing, mail, hosting, logging and the rate limiter: their answers are inputs.
- The digest and the drawing of codes: a function and an input; that the digest is not forged and does not collide is a hypothesis of the lemmas about routes, stated per ticket and per address that occur.
- IntakeRoutes.TicketsTraceBack: rests on those two hypotheses about the digest.
- IntakeRoutes.ServedTicketsTraceBack: rests on the same two; that a submission without an address is refused is read off the composer (vos.Service.Intake/Services/SubmissionFragmentComposer.cs:150-151) and built into the step.
- CodesInTheMail.StandingOfAnHour: like the other lemmas about traces of the routes, takes the calls of the store to be served in the order their clock was read in; the source reads the clock before it takes the lock, so two may be served the other way round. Histories and runs of the store say what that changes.
- Trimming, case and white space are ASCII, and the four separator characters that Python also strips are not white space here.
- Base64.RoundTrips: the bits left over in the last symbol are ignored; white space is passed over in the standard alphabet, as the runtime does, and not in the one of tickets.
- SubmissionTickets.ReadsExactlyWhatIsSigned: a ticket is decoded strictly; that the runtime also takes one with white space in it is not modelled.
- JwtPayload.ReadPicksOutThePayload: stops at the bytes of the payload, before they are read as JSON.
- CodeStore.AddressVerification.CodeFor: the lock is not modelled, each public method being one step; the writes to a record are methods of the record, and an answer is trimmed on the way in.
- TokenSource.ExchangesAreSpaced: takes it that every token minted has at least a given life left, more than thirty seconds, when it is stored.
- TokenSource.NoExchangeDuringThePause: is about steps after the pause began; an exchange under way cannot overlap it, there being one permit.
- TokenCaches.RunsAgreeExactlyWhenAlike: what token and expiry are read off the body of a reply is one input to both; how each of the two reads JSON and base 64 is not compared, so they may still differ on a body that only one of them can read.
- TokenCaches.GoService.TokenFromTheKey: the body of a reply is read beforehand.
- TokenCaches.ApiKeyTokenSource.GetToken: is a call that finds the permit free and is not cancelled; the interleaved one is the subject of `TokenSource`.
- ModelToken.Ambient.Run: the ambient value is one variable; that each asynchronous flow has a copy of its own is not modelled, so pieces of work do not run at once under one ambient.
- HeldToken.WorkHasTimeLeft: takes it that a replacement lands with more than two hours left; how long the work itself goes on is not bounded.
- HeldToken.ReplacementsAreSpaced: does not bound how many pieces of work that read at the same time ask at once, because nothing in the code does.
- Registration.Handle: other clients of the broker are not modelled, nor what the broker resolves for the Thing through its template; the reading of a template is an input, and one that raises counts as refused.
- EndpointTemplates.Locate: names and ids only; the texts of its refusals are not modelled.
- CodesInTheMail.EveryRefundIsMatched: is about addresses whose record is not removed while it matters; a mail that is given up because its request ended takes nothing back.
- ModelClock.RunsAheadExactlyWhile: is about one change after a reading; for more, `AheadByWhatWasDropped` gives the lead itself.
- ModelClock.Follower.Execute: what the host makes of a loop that raised is not part of this model, nor is stopping it.
- ModelClock.Clock.AnchorTo: instants and rates are reals, so rounding and a rate that is not a number are not modelled.
- ModelClock.FollowsWhateverChanged: takes a bound on the wait between attempts and on how long an answer takes; what the follower logs is not modelled.
- PropertyLookup.TryGetEffectiveProperty: the dictionary is the sequence of its entries, none with a key its comparer takes for another's.
- StudyInputs.NumberOf: how text reads as a number is an input.
- BuildFile.Jobs: takes lines, not the text they are split from; the trigger, configuration and publishing checks of the same script are left out as they would add only easy members.
- Phloem, Forage, Tributary, Xylem, Metabolism, Quadrat and Taproot.
