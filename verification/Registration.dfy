/** Registering an endpoint: several calls to a broker, any of which may fail, undone when one does. */
module Registration {
  import opened Text
  import opened PropertyLookup
  import opened StudyInputs

  type Id = nat

  datatype Edge = Edge(predicateId: Id, targetId: Id)

  datatype Thing = Thing(name: string, edges: set<Edge>, properties: map<string, Json>)

  datatype Call =
    | CreateThing(name: string)
    | CreateRelationship(subjectId: Id, edge: Edge)
    | SetThingProperty(thingId: Id, name: string, value: Json)
    | DeleteThing(thingId: Id)

  /** A call that is not reported done, whether by answering so or by raising, may have reached the broker all
      the same. */
  datatype Outcome = Done | Fails(reached: bool, raises: bool)

  datatype Made = Made(call: Call, outcome: Outcome)

  predicate Reached(m: Made) {
    m.outcome.Done? || m.outcome.reached
  }

  /** What a call leaves at a broker that gives a created Thing this id. */
  function Effect(things: map<Id, Thing>, newId: Id, m: Made): map<Id, Thing> {
    if !Reached(m) then things
    else
      match m.call
      case CreateThing(name) => things[newId := Thing(name, {}, map[])]
      case CreateRelationship(id, edge) =>
        if id in things then things[id := things[id].(edges := things[id].edges + {edge})] else things
      case SetThingProperty(id, name, value) =>
        if id in things then things[id := things[id].(properties := things[id].properties[name := value])] else things
      case DeleteThing(id) => things - {id}
  }

  function After(things: map<Id, Thing>, newId: Id, made: seq<Made>): map<Id, Thing> {
    if made == [] then things
    else Effect(After(things, newId, made[..|made| - 1]), newId, made[|made| - 1])
  }

  // ---- the calls one registration makes ----

  function Sets(id: Id, ps: seq<Property<Json>>): seq<Call> {
    seq(|ps|, i requires 0 <= i < |ps| => SetThingProperty(id, ps[i].0, ps[i].1))
  }

  /** Everything written to the Thing once it is created. */
  function Writes(id: Id, edge: Edge, ps: seq<Property<Json>>): seq<Call> {
    [CreateRelationship(id, edge)] + Sets(id, ps)
  }

  datatype Reason =
    | NoName | NoProperties | TwoTemplates | BlankTemplate | NoUrl | InvalidUrl
    | NoTemplate | EmptyTemplate | UnsupportedKeys | NoMethod | UnsupportedMethod

  datatype Answer = Registered(id: Id) | Failed | Raised | Refused(reason: Reason)

  ghost predicate AllDone(made: seq<Made>, calls: seq<Call>) {
    |made| == |calls| && forall i :: 0 <= i < |made| ==> made[i] == Made(calls[i], Done)
  }

  predicate Threw(m: Made) {
    m.outcome.Fails? && m.outcome.raises
  }

  /** Deleting the Thing again: once, and a second time where the first deletion raised and was caught. */
  ghost predicate Undone(made: seq<Made>, id: Id, caught: bool, answer: Answer) {
    && made != []
    && |made| == (if !caught && Threw(made[0]) then 2 else 1)
    && (forall i :: 0 <= i < |made| ==> made[i].call == DeleteThing(id))
    && answer == if Threw(made[|made| - 1]) then Raised else Failed
  }

  /** The calls of one registration, whatever becomes of each: `done` of the writes went through. */
  ghost predicate IsRegistration(made: seq<Made>, id: Id, name: string, writes: seq<Call>, done: nat, answer: Answer) {
    && made != [] && made[0].call == CreateThing(name)
    && if !made[0].outcome.Done? then made == [made[0]] && answer == Failed
       else
         && done <= |writes| && done < |made| && AllDone(made[1..done + 1], writes[..done])
         && if done == |writes| then |made| == done + 1 && answer == Registered(id)
            else
              && done + 2 <= |made| && made[done + 1].call == writes[done] && !made[done + 1].outcome.Done?
              && Undone(made[done + 2..], id, Threw(made[done + 1]), answer)
  }

  // ---- all or nothing ----

  /** Nothing but this Thing differs, and of it nothing that was not asked for. */
  ghost predicate OnlyGrows(things: map<Id, Thing>, after: map<Id, Thing>, id: Id, name: string, writes: seq<Call>) {
    && after - {id} == things
    && (id in after ==>
          && after[id].name == name
          && (forall e :: e in after[id].edges ==> CreateRelationship(id, e) in writes)
          && forall k :: k in after[id].properties ==> SetThingProperty(id, k, after[id].properties[k]) in writes)
  }

  /** A call this registration may make. */
  ghost predicate IsOurs(call: Call, id: Id, name: string, writes: seq<Call>) {
    match call
    case CreateThing(n) => n == name
    case DeleteThing(i) => i == id
    case CreateRelationship(i, _) => i == id && call in writes
    case SetThingProperty(i, _, _) => i == id && call in writes
  }

  lemma {:induction false} OurCallsOnlyGrow(things: map<Id, Thing>, made: seq<Made>, id: Id, name: string,
                                            writes: seq<Call>)
    requires id !in things && forall i :: 0 <= i < |made| ==> IsOurs(made[i].call, id, name, writes)
    ensures OnlyGrows(things, After(things, id, made), id, name, writes)
  {
    if made == [] {
      assert things - {id} == things;
    } else {
      var before := made[..|made| - 1];
      OurCallsOnlyGrow(things, before, id, name, writes);
      OneCallOnlyGrows(things, After(things, id, before), made[|made| - 1], id, name, writes);
    }
  }

  lemma OneCallOnlyGrows(things: map<Id, Thing>, after: map<Id, Thing>, m: Made, id: Id, name: string,
                         writes: seq<Call>)
    requires OnlyGrows(things, after, id, name, writes) && IsOurs(m.call, id, name, writes)
    ensures OnlyGrows(things, Effect(after, id, m), id, name, writes)
  {
    assert Effect(after, id, m) - {id} == after - {id};
  }

  /** The created Thing is there exactly while its creation reached the broker and no deletion has. */
  lemma {:induction false} ThereExactlyWhen(things: map<Id, Thing>, made: seq<Made>, id: Id)
    requires id !in things && made != [] && made[0].call.CreateThing?
    requires forall i :: 1 <= i < |made| ==> !made[i].call.CreateThing?
                                             && (made[i].call.DeleteThing? ==> made[i].call.thingId == id)
    ensures id in After(things, id, made)
            <==> && (made[0].outcome.Done? || made[0].outcome.reached)
                 && forall i :: 1 <= i < |made| && made[i].call.DeleteThing? ==>
                      made[i].outcome.Fails? && !made[i].outcome.reached
  {
    var n := |made| - 1;
    if n == 0 {
      assert After(things, id, made[..0]) == things;
    } else {
      ThereExactlyWhen(things, made[..n], id);
      assert made[..n][0] == made[0];
      assert forall i :: 1 <= i < n ==> made[..n][i] == made[i];
    }
  }

  /** The properties asked for, as the broker holds them. */
  function Asked(ps: seq<Property<Json>>): map<string, Json> {
    if ps == [] then map[] else Asked(ps[..|ps| - 1])[ps[|ps| - 1].0 := ps[|ps| - 1].1]
  }

  /** When no key is stated twice, they are all held, and no others. */
  lemma {:induction false} AskedAreHeld(ps: seq<Property<Json>>)
    requires DistinctKeys(ps, false)
    ensures forall k, v :: k in Asked(ps) && Asked(ps)[k] == v <==> (k, v) in ps
  {
    if ps != [] {
      var before, last := ps[..|ps| - 1], ps[|ps| - 1];
      AskedAreHeld(before);
      assert ps == before + [last];
      forall v ensures (last.0, v) !in before {}
    }
  }

  function AllMade(calls: seq<Call>): seq<Made> {
    seq(|calls|, i requires 0 <= i < |calls| => Made(calls[i], Done))
  }

  lemma {:induction false} WrittenWhole(things: map<Id, Thing>, id: Id, name: string, edge: Edge,
                                        ps: seq<Property<Json>>)
    ensures After(things, id, [Made(CreateThing(name), Done)] + AllMade(Writes(id, edge, ps)))
            == things[id := Thing(name, {edge}, Asked(ps))]
  {
    var create := [Made(CreateThing(name), Done)];
    var made := create + AllMade(Writes(id, edge, ps));
    if ps == [] {
      assert made[..1] == create && create[..0] == [];
      assert After(things, id, create) == things[id := Thing(name, {}, map[])];
      assert made[1] == Made(CreateRelationship(id, edge), Done);
      assert {} + {edge} == {edge};
    } else {
      var before, last := ps[..|ps| - 1], ps[|ps| - 1];
      WrittenWhole(things, id, name, edge, before);
      assert made[..|made| - 1] == create + AllMade(Writes(id, edge, before));
      assert made[|made| - 1] == Made(SetThingProperty(id, last.0, last.1), Done);
    }
  }

  ghost predicate Created(made: seq<Made>) {
    made != [] && Reached(made[0])
  }

  ghost predicate Deleted(made: seq<Made>) {
    exists i :: 0 <= i < |made| && made[i].call.DeleteThing? && Reached(made[i])
  }

  lemma WhoseCalls(made: seq<Made>, id: Id, name: string, edge: Edge, ps: seq<Property<Json>>, done: nat,
                   answer: Answer)
    requires IsRegistration(made, id, name, Writes(id, edge, ps), done, answer)
    ensures made[0].call == CreateThing(name)
    ensures forall i :: 1 <= i < |made| ==>
              IsOurs(made[i].call, id, name, Writes(id, edge, ps)) && !made[i].call.CreateThing?
    ensures forall i :: 1 <= i < |made| ==>
              (made[i].call.DeleteThing? <==> made[0].outcome.Done? && !answer.Registered? && i >= done + 2)
    ensures answer.Registered? ==> made == [Made(CreateThing(name), Done)] + AllMade(Writes(id, edge, ps))
  {
    var writes := Writes(id, edge, ps);
    if made[0].outcome.Done? {
      forall i | 1 <= i < |made| && i < done + 2
        ensures IsOurs(made[i].call, id, name, writes) && !made[i].call.CreateThing? && !made[i].call.DeleteThing?
      {
        if i <= done {
          assert made[1..done + 1][i - 1] == made[i];
          assert writes[..done][i - 1] == writes[i - 1];
        }
        assert made[i].call == writes[i - 1];
      }
      forall i | done + 2 <= i < |made| ensures made[i].call == DeleteThing(id) {
        assert made[done + 2..][i - done - 2] == made[i];
      }
      if done == |writes| {
        assert made[1..done + 1] == AllMade(writes);
        assert made == [made[0]] + made[1..];
      }
    }
  }

  /** Where only the created Thing can differ, nothing does exactly when it is not there. */
  lemma UnchangedExactlyWhen(things: map<Id, Thing>, made: seq<Made>, id: Id)
    requires id !in things && made != [] && made[0].call.CreateThing?
    requires forall i :: 1 <= i < |made| ==> !made[i].call.CreateThing?
                                             && (made[i].call.DeleteThing? ==> made[i].call.thingId == id)
    requires After(things, id, made) - {id} == things
    ensures After(things, id, made) == things <==> !Created(made) || Deleted(made)
  {
    ThereExactlyWhen(things, made, id);
    var after := After(things, id, made);
    if id !in after {
      assert after == after - {id};
    }
  }

  /** Whatever becomes of each call: success means the broker gained the Thing, its one edge and every property
      asked for; otherwise nothing changed, except exactly when the creation reached the broker and no deletion
      did, and then only that Thing differs, holding nothing that was not asked for. */
  lemma AllOrNothing(things: map<Id, Thing>, made: seq<Made>, id: Id, name: string, edge: Edge, ps: seq<Property<Json>>,
                     done: nat, answer: Answer)
    requires id !in things && IsRegistration(made, id, name, Writes(id, edge, ps), done, answer)
    ensures var after := After(things, id, made);
            && OnlyGrows(things, after, id, name, Writes(id, edge, ps))
            && (answer.Registered? ==> after == things[id := Thing(name, {edge}, Asked(ps))])
            && (!answer.Registered? ==> (after == things <==> !Created(made) || Deleted(made)))
  {
    WhoseCalls(made, id, name, edge, ps, done, answer);
    OurCallsOnlyGrow(things, made, id, name, Writes(id, edge, ps));
    if answer.Registered? {
      WrittenWhole(things, id, name, edge, ps);
    } else {
      UnchangedExactlyWhen(things, made, id);
    }
  }

  /** A deletion is attempted on every path that fails after the Thing was created, on no other, and of no
      other Thing; and on those a Thing remains only where no deletion was reported done. */
  lemma DeletesExactlyWhatItCreated(made: seq<Made>, id: Id, name: string, edge: Edge, ps: seq<Property<Json>>,
                                    done: nat, answer: Answer)
    requires IsRegistration(made, id, name, Writes(id, edge, ps), done, answer)
    ensures (exists i :: 0 <= i < |made| && made[i].call.DeleteThing?)
            <==> made[0].outcome.Done? && !answer.Registered?
    ensures forall i :: 0 <= i < |made| && made[i].call.DeleteThing? ==> made[i].call.thingId == id
    ensures made[0].outcome.Done? && !answer.Registered? && !Deleted(made)
            ==> forall i :: 0 <= i < |made| && made[i].call.DeleteThing? ==> !made[i].outcome.Done?
  {
    WhoseCalls(made, id, name, edge, ps, done, answer);
    if made[0].outcome.Done? && !answer.Registered? {
      assert made[done + 2].call.DeleteThing?;
    }
  }

  /** A creation that reaches the broker and is not reported fails the registration, and leaves the Thing. */
  lemma AnUnreportedCreationIsLeft(things: map<Id, Thing>, id: Id, name: string, writes: seq<Call>)
    requires id !in things
    ensures var made := [Made(CreateThing(name), Fails(true, false))];
            && IsRegistration(made, id, name, writes, 0, Failed)
            && After(things, id, made) == things[id := Thing(name, {}, map[])] != things
  {
    var made := [Made(CreateThing(name), Fails(true, false))];
    assert made[..0] == [] && After(things, id, made[..0]) == things;
    assert id in After(things, id, made);
  }

  // ---- what a request is refused for ----

  datatype Requested = Requested(subject: string, predicate_: string, target: string)

  datatype Request = Request(name: string, properties: Option<seq<Property<Json>>>, relationships: seq<Requested>)

  datatype Template = Template(id: Id, isPredicateId: Id, properties: seq<Property<Json>>)

  /** What the handler asks of others: a template by its name, or of the root by none; whether text is an
      absolute address; and how a value reads as text. */
  datatype Asking = Asking(read: Option<string> -> Option<Template>, isUri: string -> bool,
      textOf: Json -> Option<string>)

  const METHODS := ["GET", "HEAD", "POST", "PUT", "DELETE", "CONNECT", "OPTIONS", "TRACE", "PATCH"]

  /** The targets of the `is` relationships that have the Thing itself for their subject. */
  function TemplatesNamed(name: string, rows: seq<Requested>): seq<string> {
    if rows == [] then []
    else
      var before, row := TemplatesNamed(name, rows[..|rows| - 1]), rows[|rows| - 1];
      if row.predicate_ == "is" && row.subject == name then before + [row.target] else before
  }

  /** The value under the key itself, or under the first that differs from it in case alone; as text. */
  function TextUnder(ps: seq<Property<Json>>, key: string, asking: Asking): Option<string> {
    var exact, own := Picked(ps, ExactFor(key, false)), Picked(ps, OwnOf(key));
    if exact != [] then asking.textOf(exact[0].1) else if own != [] then asking.textOf(own[0].1) else None
  }

  predicate SaysNothing(text: Option<string>) {
    text.None? || IsBlank(text.value)
  }

  function TemplateFor(q: Request, asking: Asking): Option<Template> {
    var names := TemplatesNamed(q.name, q.relationships);
    asking.read(if names == [] then None else Some(names[0]))
  }

  /** The request's own method, and failing one the template's. */
  function MethodOf(q: Request, t: Template, asking: Asking): Option<string>
    requires q.properties.Some?
  {
    var own := TextUnder(q.properties.value, "httpMethod", asking);
    if !SaysNothing(own) then own else TemplatesMethod(t)
  }

  function TemplatesMethod(t: Template): Option<string> {
    match ResolvedBy(t.properties, "httpMethod", true)
    case Found((_, Text(s))) => Some(s)
    case _ => None
  }

  /** A key the template has nothing for; one it has two things for is let pass. */
  predicate AnyUnsupported(ps: seq<Property<Json>>, t: Template) {
    exists i :: 0 <= i < |ps| && ResolvedBy(t.properties, ps[i].0, true).Absent?
  }

  predicate IsSupported(verb: string) {
    exists i :: 0 <= i < |METHODS| && SameName(METHODS[i], Trim(verb))
  }

  // ---- the same, said of the request itself ----

  /** The row is an `is` relationship that has the Thing itself for its subject. */
  predicate NamesTemplate(q: Request, i: nat) {
    i < |q.relationships| && q.relationships[i].predicate_ == "is" && q.relationships[i].subject == q.name
  }

  ghost predicate OnlyNamedAt(q: Request, i: nat) {
    NamesTemplate(q, i) && forall j: nat :: NamesTemplate(q, j) ==> j == i
  }

  ghost predicate NamedTwice(q: Request) {
    exists i: nat, j: nat :: i < j && NamesTemplate(q, i) && NamesTemplate(q, j)
  }

  /** What is read: the template that the only such row names, or the root where there is no such row. */
  ghost predicate IsTemplate(q: Request, asking: Asking, t: Option<Template>) {
    || ((forall i: nat :: !NamesTemplate(q, i)) && t == asking.read(None))
    || exists i: nat :: OnlyNamedAt(q, i) && t == asking.read(Some(q.relationships[i].target))
  }

  /** The property of the key itself, and failing one the first that differs from it in case alone. */
  ghost predicate ValueAt(ps: seq<Property<Json>>, key: string, i: nat) {
    || (i < |ps| && ps[i].0 == key && forall j :: 0 <= j < i ==> ps[j].0 != key)
    || ((forall j :: 0 <= j < |ps| ==> ps[j].0 != key) && FirstAt(ps, OwnOf(key), i))
  }

  ghost predicate HoldsText(ps: seq<Property<Json>>, key: string, asking: Asking, text: Option<string>) {
    || (exists i: nat :: ValueAt(ps, key, i) && text == asking.textOf(ps[i].1))
    || ((forall i: nat :: !ValueAt(ps, key, i)) && text == None)
  }

  ghost predicate Silent(text: Option<string>) {
    text.None? || AllSpace(text.value)
  }

  /** What the template gives for the method, where that is a text. */
  ghost predicate GivesMethod(t: Template, verb: Option<string>) {
    if verb.Some? then
      exists i: nat :: ResolvedAt(t.properties, "httpMethod", true, i) && t.properties[i].1 == Text(verb.value)
    else forall i: nat :: ResolvedAt(t.properties, "httpMethod", true, i) ==> !t.properties[i].1.Text?
  }

  ghost predicate IsMethod(q: Request, t: Template, asking: Asking, verb: Option<string>)
    requires q.properties.Some?
  {
    || (!Silent(verb) && HoldsText(q.properties.value, "httpMethod", asking, verb))
    || (exists own :: HoldsText(q.properties.value, "httpMethod", asking, own) && Silent(own) && GivesMethod(t, verb))
  }

  /** No property of the template is of this name, and none ends in it. */
  ghost predicate HasNone(t: Template, name: string) {
    NoneAt(t.properties, OwnOf(name)) && NoneAt(t.properties, LeafOf(name))
  }

  ghost predicate IsVerb(text: string) {
    exists i, verb :: 0 <= i < |METHODS| && TrimsTo(text, verb) && SameLetters(METHODS[i], verb)
  }

  /** The request is at fault this way. */
  ghost predicate Faults(reason: Reason, q: Request, asking: Asking) {
    match reason
    case NoName => AllSpace(q.name)
    case NoProperties => q.properties.None?
    case TwoTemplates => NamedTwice(q)
    case BlankTemplate => exists i: nat :: OnlyNamedAt(q, i) && AllSpace(q.relationships[i].target)
    case NoUrl => q.properties.Some? && exists url :: HoldsText(q.properties.value, "url", asking, url) && Silent(url)
    case InvalidUrl =>
      q.properties.Some?
      && exists url :: HoldsText(q.properties.value, "url", asking, url) && url.Some? && !asking.isUri(url.value)
    case NoTemplate => IsTemplate(q, asking, None)
    case _ =>
      q.properties.Some?
      && exists t :: IsTemplate(q, asking, t) && t.Some? && FaultsUnder(reason, q, asking, t.value)
  }

  ghost predicate FaultsUnder(reason: Reason, q: Request, asking: Asking, t: Template)
    requires q.properties.Some?
  {
    match reason
    case EmptyTemplate => t.properties == []
    case UnsupportedKeys => exists i :: 0 <= i < |q.properties.value| && HasNone(t, q.properties.value[i].0)
    case NoMethod => exists verb :: IsMethod(q, t, asking, verb) && Silent(verb)
    case UnsupportedMethod => exists verb :: IsMethod(q, t, asking, verb) && verb.Some? && !IsVerb(verb.value)
    case _ => false
  }

  // ---- that what is computed is that ----

  lemma {:induction false} NamesAre(q: Request, n: nat)
    requires n <= |q.relationships|
    ensures var names := TemplatesNamed(q.name, q.relationships[..n]);
            && (names == [] <==> forall i: nat :: i < n ==> !NamesTemplate(q, i))
            && (|names| > 1 <==> exists i: nat, j: nat :: i < j < n && NamesTemplate(q, i) && NamesTemplate(q, j))
            && forall i: nat :: i < n && NamesTemplate(q, i) && |names| == 1 ==> names[0] == q.relationships[i].target
  {
    if n > 0 {
      NamesAre(q, n - 1);
      assert q.relationships[..n][..n - 1] == q.relationships[..n - 1];
      OneRowMore(q, n - 1);
    }
  }

  lemma OneRowMore(q: Request, n: nat)
    ensures (forall i: nat :: i < n + 1 ==> !NamesTemplate(q, i))
            <==> !NamesTemplate(q, n) && forall i: nat :: i < n ==> !NamesTemplate(q, i)
    ensures (exists i: nat, j: nat :: i < j < n + 1 && NamesTemplate(q, i) && NamesTemplate(q, j))
            <==> || (exists i: nat, j: nat :: i < j < n && NamesTemplate(q, i) && NamesTemplate(q, j))
                 || (NamesTemplate(q, n) && exists i: nat :: i < n && NamesTemplate(q, i))
  {
    if NamesTemplate(q, n) && exists i: nat :: i < n && NamesTemplate(q, i) {
      var i: nat :| i < n && NamesTemplate(q, i);
      assert i < n < n + 1 && NamesTemplate(q, i) && NamesTemplate(q, n);
    }
  }

  lemma TemplateIs(q: Request, asking: Asking)
    ensures var names := TemplatesNamed(q.name, q.relationships);
            && (|names| > 1 <==> NamedTwice(q))
            && (forall i: nat :: OnlyNamedAt(q, i) ==> |names| == 1 && names[0] == q.relationships[i].target)
            && (|names| == 1 ==> exists i: nat :: OnlyNamedAt(q, i))
            && (|names| <= 1 ==> forall t :: IsTemplate(q, asking, t) <==> t == TemplateFor(q, asking))
  {
    var n := |q.relationships|;
    assert q.relationships[..n] == q.relationships;
    NamesAre(q, n);
    var names := TemplatesNamed(q.name, q.relationships);
    if |names| == 1 {
      var i: nat :| i < n && NamesTemplate(q, i);
      assert OnlyNamedAt(q, i);
    }
  }

  lemma TextIs(ps: seq<Property<Json>>, key: string, asking: Asking, text: Option<string>)
    ensures HoldsText(ps, key, asking, text) <==> text == TextUnder(ps, key, asking)
  {
    NonePicked(ps, ExactFor(key, false));
    NonePicked(ps, OwnOf(key));
    if Picked(ps, ExactFor(key, false)) != [] {
      var i := FirstThereIs(ps, ExactFor(key, false));
      assert ValueAt(ps, key, i);
    } else if Picked(ps, OwnOf(key)) != [] {
      var i := FirstThereIs(ps, OwnOf(key));
      assert ValueAt(ps, key, i);
    }
    forall i: nat | ValueAt(ps, key, i) ensures TextUnder(ps, key, asking) == asking.textOf(ps[i].1) {
      if ps[i].0 == key {
        FirstPicked(ps, ExactFor(key, false), i);
      } else {
        FirstPicked(ps, OwnOf(key), i);
      }
    }
  }

  lemma SilentIs(text: Option<string>)
    ensures Silent(text) <==> SaysNothing(text)
  {
    if text.Some? {
      BlankIs(text.value);
    }
  }

  lemma TemplatesMethodIs(t: Template, verb: Option<string>)
    ensures GivesMethod(t, verb) <==> verb == TemplatesMethod(t)
  {
    WhatIsResolved(t.properties, "httpMethod", true);
    if i: nat :| ResolvedAt(t.properties, "httpMethod", true, i) {
      assert ResolvedBy(t.properties, "httpMethod", true) == Found(t.properties[i]);
    }
  }

  lemma MethodIs(q: Request, t: Template, asking: Asking, verb: Option<string>)
    requires q.properties.Some?
    ensures IsMethod(q, t, asking, verb) <==> verb == MethodOf(q, t, asking)
  {
    var ps := q.properties.value;
    forall text ensures HoldsText(ps, "httpMethod", asking, text) <==> text == TextUnder(ps, "httpMethod", asking) {
      TextIs(ps, "httpMethod", asking, text);
    }
    SilentIs(verb);
    SilentIs(TextUnder(ps, "httpMethod", asking));
    TemplatesMethodIs(t, verb);
  }

  lemma UnsupportedIs(ps: seq<Property<Json>>, t: Template)
    ensures AnyUnsupported(ps, t) <==> exists i :: 0 <= i < |ps| && HasNone(t, ps[i].0)
  {
    forall i | 0 <= i < |ps|
      ensures ResolvedBy(t.properties, ps[i].0, true).Absent? <==> HasNone(t, ps[i].0)
    {
      WhatIsResolved(t.properties, ps[i].0, true);
      PickedAlike(t.properties, ExactFor(ps[i].0, true), OwnOf(ps[i].0));
    }
  }

  lemma VerbIs(text: string)
    ensures IsVerb(text) <==> IsSupported(text)
  {
    TrimIs(text, Trim(text));
    forall i, verb | 0 <= i < |METHODS| && TrimsTo(text, verb)
      ensures SameLetters(METHODS[i], verb) <==> SameName(METHODS[i], Trim(text))
    {
      TrimIs(text, verb);
      SameNameIs(METHODS[i], verb);
    }
  }

  /** What is computed to find each fault. */
  predicate Checked(reason: Reason, q: Request, asking: Asking) {
    var names, template := TemplatesNamed(q.name, q.relationships), TemplateFor(q, asking);
    match reason
    case NoName => IsBlank(q.name)
    case NoProperties => q.properties.None?
    case TwoTemplates => |names| > 1
    case BlankTemplate => |names| == 1 && IsBlank(names[0])
    case NoUrl => q.properties.Some? && SaysNothing(TextUnder(q.properties.value, "url", asking))
    case InvalidUrl =>
      q.properties.Some? && var url := TextUnder(q.properties.value, "url", asking);
      url.Some? && !asking.isUri(url.value)
    case NoTemplate => template.None?
    case _ => q.properties.Some? && template.Some? && CheckedUnder(reason, q, asking, template.value)
  }

  predicate CheckedUnder(reason: Reason, q: Request, asking: Asking, t: Template)
    requires q.properties.Some?
  {
    match reason
    case EmptyTemplate => t.properties == []
    case UnsupportedKeys => AnyUnsupported(q.properties.value, t)
    case NoMethod => SaysNothing(MethodOf(q, t, asking))
    case UnsupportedMethod => var verb := MethodOf(q, t, asking); verb.Some? && !IsSupported(verb.value)
    case _ => false
  }

  lemma FaultUnderIs(reason: Reason, q: Request, asking: Asking, t: Template)
    requires q.properties.Some?
    ensures FaultsUnder(reason, q, asking, t) <==> CheckedUnder(reason, q, asking, t)
  {
    var verb := MethodOf(q, t, asking);
    forall v ensures IsMethod(q, t, asking, v) <==> v == verb { MethodIs(q, t, asking, v); }
    match reason
    case UnsupportedKeys => UnsupportedIs(q.properties.value, t);
    case NoMethod => SilentIs(verb);
    case UnsupportedMethod =>
      if verb.Some? {
        VerbIs(verb.value);
      }
    case _ =>
  }

  /** A fault is found by what is computed; one that needs the template's name, where it is given once at most. */
  lemma FaultIs(reason: Reason, q: Request, asking: Asking)
    requires Rank(reason) <= 2 || !NamedTwice(q)
    ensures Faults(reason, q, asking) <==> Checked(reason, q, asking)
  {
    TemplateIs(q, asking);
    match reason
    case NoName => BlankIs(q.name);
    case BlankTemplate => BlankIs(if TemplatesNamed(q.name, q.relationships) == [] then ""
                                  else TemplatesNamed(q.name, q.relationships)[0]);
    case NoUrl => if q.properties.Some? { UrlIs(q.properties.value, asking); }
    case InvalidUrl => if q.properties.Some? { UrlIs(q.properties.value, asking); }
    case EmptyTemplate => FaultUnderTemplateIs(reason, q, asking);
    case UnsupportedKeys => FaultUnderTemplateIs(reason, q, asking);
    case NoMethod => FaultUnderTemplateIs(reason, q, asking);
    case UnsupportedMethod => FaultUnderTemplateIs(reason, q, asking);
    case _ =>
  }

  lemma UrlIs(ps: seq<Property<Json>>, asking: Asking)
    ensures forall url :: HoldsText(ps, "url", asking, url) <==> url == TextUnder(ps, "url", asking)
    ensures Silent(TextUnder(ps, "url", asking)) <==> SaysNothing(TextUnder(ps, "url", asking))
  {
    forall url ensures HoldsText(ps, "url", asking, url) <==> url == TextUnder(ps, "url", asking) {
      TextIs(ps, "url", asking, url);
    }
    SilentIs(TextUnder(ps, "url", asking));
  }

  lemma FaultUnderTemplateIs(reason: Reason, q: Request, asking: Asking)
    requires Rank(reason) > 6 && !NamedTwice(q)
    ensures Faults(reason, q, asking) <==> Checked(reason, q, asking)
  {
    TemplateIs(q, asking);
    var t := TemplateFor(q, asking);
    assert IsTemplate(q, asking, t);
    if q.properties.Some? && t.Some? {
      FaultUnderIs(reason, q, asking, t.value);
    }
  }

  function Rank(reason: Reason): nat {
    match reason
    case NoName => 0
    case NoProperties => 1
    case TwoTemplates => 2
    case BlankTemplate => 3
    case NoUrl => 4
    case InvalidUrl => 5
    case NoTemplate => 6
    case EmptyTemplate => 7
    case UnsupportedKeys => 8
    case NoMethod => 9
    case UnsupportedMethod => 10
  }

  ghost predicate FaultlessBelow(rank: nat, q: Request, asking: Asking) {
    forall r: Reason :: Rank(r) < rank ==> !Faults(r, q, asking)
  }

  ghost predicate ClearBelow(rank: nat, q: Request, asking: Asking) {
    forall r: Reason :: Rank(r) < rank ==> !Checked(r, q, asking)
  }

  lemma OneCheckFewer(reason: Reason, q: Request, asking: Asking)
    requires ClearBelow(Rank(reason), q, asking) && !Checked(reason, q, asking)
    ensures ClearBelow(Rank(reason) + 1, q, asking)
  {
    forall r: Reason | Rank(r) <= Rank(reason) ensures !Checked(r, q, asking) {
      assert Rank(r) == Rank(reason) ==> r == reason;
    }
  }

  lemma ClearIs(rank: nat, q: Request, asking: Asking)
    ensures ClearBelow(rank, q, asking) <==> FaultlessBelow(rank, q, asking)
  {
    FaultIs(TwoTemplates, q, asking);
    forall r: Reason | Rank(r) < rank && (Rank(r) <= 2 || !NamedTwice(q))
      ensures Faults(r, q, asking) <==> Checked(r, q, asking)
    {
      FaultIs(r, q, asking);
    }
    if NamedTwice(q) && rank > 2 {
      assert Rank(TwoTemplates) < rank && Faults(TwoTemplates, q, asking);
    }
  }

  /** What is found first, of the checks up to this one. */
  ghost predicate IsFirst(reason: Option<Reason>, rank: nat, q: Request, asking: Asking) {
    if reason.Some? then Checked(reason.value, q, asking) && ClearBelow(Rank(reason.value), q, asking)
    else ClearBelow(rank, q, asking)
  }

  lemma FirstIsFault(reason: Option<Reason>, rank: nat, q: Request, asking: Asking)
    requires IsFirst(reason, rank, q, asking)
    ensures if reason.Some? then Faults(reason.value, q, asking) && FaultlessBelow(Rank(reason.value), q, asking)
            else FaultlessBelow(rank, q, asking)
  {
    ClearIs(if reason.Some? then Rank(reason.value) else rank, q, asking);
    if reason.Some? {
      assert Rank(reason.value) > 2 ==> !Faults(TwoTemplates, q, asking);
      FaultIs(reason.value, q, asking);
    }
  }

  method Refusal(q: Request, asking: Asking) returns (reason: Option<Reason>)
    ensures if reason.Some? then Faults(reason.value, q, asking) && FaultlessBelow(Rank(reason.value), q, asking)
            else FaultlessBelow(11, q, asking)
  {
    reason := FoundInTheRequest(q, asking);
    FirstIsFault(reason, 6, q, asking);
    if reason.None? {
      assert !Faults(NoProperties, q, asking);
      reason := TemplateRefusal(q, asking);
    }
  }

  /** The rest of the checks, once the request has passed those that need no template. */
  method TemplateRefusal(q: Request, asking: Asking) returns (reason: Option<Reason>)
    requires q.properties.Some? && FaultlessBelow(6, q, asking)
    ensures if reason.Some? then Faults(reason.value, q, asking) && FaultlessBelow(Rank(reason.value), q, asking)
            else FaultlessBelow(11, q, asking)
  {
    ClearIs(6, q, asking);
    reason := FoundInTheTemplate(q, asking);
    FirstIsFault(reason, 11, q, asking);
  }

  method FoundInTheRequest(q: Request, asking: Asking) returns (reason: Option<Reason>)
    ensures IsFirst(reason, 6, q, asking)
  {
    if IsBlank(q.name) { return Some(NoName); }
    OneCheckFewer(NoName, q, asking);
    if q.properties.None? { return Some(NoProperties); }
    OneCheckFewer(NoProperties, q, asking);

    var names := TemplatesNamed(q.name, q.relationships);
    if |names| > 1 { return Some(TwoTemplates); }
    OneCheckFewer(TwoTemplates, q, asking);
    if |names| == 1 && IsBlank(names[0]) { return Some(BlankTemplate); }
    OneCheckFewer(BlankTemplate, q, asking);

    var url := TextUnder(q.properties.value, "url", asking);
    if SaysNothing(url) { return Some(NoUrl); }
    OneCheckFewer(NoUrl, q, asking);
    if !asking.isUri(url.value) { return Some(InvalidUrl); }
    OneCheckFewer(InvalidUrl, q, asking);
    reason := None;
  }

  method FoundInTheTemplate(q: Request, asking: Asking) returns (reason: Option<Reason>)
    requires q.properties.Some? && ClearBelow(6, q, asking)
    ensures IsFirst(reason, 11, q, asking)
  {
    var template := TemplateFor(q, asking);
    if template.None? { return Some(NoTemplate); }
    OneCheckFewer(NoTemplate, q, asking);
    if template.value.properties == [] { return Some(EmptyTemplate); }
    OneCheckFewer(EmptyTemplate, q, asking);
    if AnyUnsupported(q.properties.value, template.value) { return Some(UnsupportedKeys); }
    OneCheckFewer(UnsupportedKeys, q, asking);

    var verb := MethodOf(q, template.value, asking);
    if SaysNothing(verb) { return Some(NoMethod); }
    OneCheckFewer(NoMethod, q, asking);
    if !IsSupported(verb.value) { return Some(UnsupportedMethod); }
    OneCheckFewer(UnsupportedMethod, q, asking);
    reason := None;
  }

  // ---- the handler ----

  /** A broker, from the moment a registration begins. */
  class Broker {
    var things: map<Id, Thing>
    var calls: nat
    /** What it held when the registration began, the id it gives a new Thing, and what becomes of its n-th call. */
    const held: map<Id, Thing>
    const newId: Id
    const fate: nat -> Outcome
    ghost var made: seq<Made>

    ghost predicate Valid()
      reads this
    {
      calls == |made| && newId !in held && things == After(held, newId, made)
    }

    constructor (held: map<Id, Thing>, newId: Id, fate: nat -> Outcome)
      requires newId !in held
      ensures Valid() && this.held == held && this.newId == newId && this.fate == fate && made == []
    {
      this.held, this.things, this.newId, this.fate := held, held, newId, fate;
      made, calls := [], 0;
    }

    method Make(call: Call) returns (outcome: Outcome)
      requires Valid()
      modifies this
      ensures Valid() && outcome == fate(old(calls)) && made == old(made) + [Made(call, outcome)]
    {
      outcome := fate(calls);
      things := Effect(things, newId, Made(call, outcome));
      made, calls := made + [Made(call, outcome)], calls + 1;
    }
  }

  /** How far the writing got: on, or stopped and the Thing deleted again, or raised. */
  datatype Progress = Went | GaveUp | Raising

  /** What one write adds to the calls made. */
  ghost predicate Adds(added: seq<Made>, call: Call, id: Id, progress: Progress) {
    && added != [] && added[0].call == call
    && match progress
       case Went => added == [Made(call, Done)]
       case GaveUp =>
         && |added| == 2 && added[1].call == DeleteThing(id)
         && !added[0].outcome.Done? && !Threw(added[0]) && !Threw(added[1])
       case Raising =>
         if Threw(added[0]) then |added| == 1
         else |added| == 2 && added[1].call == DeleteThing(id) && !added[0].outcome.Done? && Threw(added[1])
  }

  method Compensate(broker: Broker) returns (threw: bool)
    requires broker.Valid()
    modifies broker
    ensures broker.Valid()
    ensures exists m ::
              broker.made == old(broker.made) + [m] && m.call == DeleteThing(broker.newId) && Threw(m) == threw
  {
    var outcome := broker.Make(DeleteThing(broker.newId));
    threw := outcome.Fails? && outcome.raises;
  }

  method Write(broker: Broker, call: Call) returns (progress: Progress)
    requires broker.Valid()
    modifies broker
    ensures broker.Valid() && old(broker.made) <= broker.made
    ensures Adds(broker.made[old(|broker.made|)..], call, broker.newId, progress)
  {
    var outcome := broker.Make(call);
    if outcome.Fails? && outcome.raises {
      progress := Raising;
    } else if outcome.Fails? {
      var threw := Compensate(broker);
      progress := if threw then Raising else GaveUp;
    } else {
      progress := Went;
    }
  }

  /** The writes that went through, and what the one that ended them added. */
  ghost predicate IsWriting(made: seq<Made>, id: Id, writes: seq<Call>, done: nat, progress: Progress) {
    && done <= |writes| && done < |made| && AllDone(made[1..done + 1], writes[..done])
    && if progress.Went? then |made| == done + 1
       else done < |writes| && done + 1 < |made| && Adds(made[done + 1..], writes[done], id, progress)
  }

  lemma OneMoreWrite(made: seq<Made>, now: seq<Made>, id: Id, writes: seq<Call>, done: nat, progress: Progress)
    requires done < |writes| && IsWriting(made, id, writes, done, Went)
    requires made <= now && Adds(now[|made|..], writes[done], id, progress)
    ensures IsWriting(now, id, writes, if progress.Went? then done + 1 else done, progress)
    ensures now[0] == made[0]
  {
    assert now[1..done + 1] == made[1..done + 1];
    if progress.Went? {
      assert now == made + [Made(writes[done], Done)];
      assert now[1..done + 2] == made[1..done + 1] + [Made(writes[done], Done)];
    }
  }

  /** The whole of it: what was tried, and what is done when it threw. */
  lemma WritingIsRegistration(made: seq<Made>, now: seq<Made>, id: Id, name: string, writes: seq<Call>, done: nat,
                              progress: Progress, answer: Answer)
    requires IsWriting(made, id, writes, done, progress) && made[0] == Made(CreateThing(name), Done)
    requires match progress
             case Went => done == |writes| && now == made && answer == Registered(id)
             case GaveUp => now == made && answer == Failed
             case Raising =>
               && |now| == |made| + 1 && made <= now && now[|made|].call == DeleteThing(id)
               && answer == if Threw(now[|made|]) then Raised else Failed
    ensures IsRegistration(now, id, name, writes, done, answer)
  {
    assert now[1..done + 1] == made[1..done + 1];
    if !progress.Went? {
      var added := made[done + 1..];
      assert forall i :: 0 <= i < |added| ==> added[i] == now[done + 1 + i];
      assert Undone(now[done + 2..], id, Threw(now[done + 1]), answer);
    }
  }

  /** What the broker holds after a registration, against what it held before: all of the Thing, or nothing
      new, unless it was created and not deleted again. */
  ghost predicate LeftWhole(broker: Broker, name: string, edge: Edge, ps: seq<Property<Json>>, answer: Answer)
    reads broker
  {
    if answer.Registered? then broker.things == broker.held[broker.newId := Thing(name, {edge}, Asked(ps))]
    else (broker.things == broker.held <==> !Created(broker.made) || Deleted(broker.made))
  }

  lemma LeavesWhole(broker: Broker, name: string, edge: Edge, ps: seq<Property<Json>>, done: nat, answer: Answer)
    requires broker.Valid()
    requires IsRegistration(broker.made, broker.newId, name, Writes(broker.newId, edge, ps), done, answer)
    ensures LeftWhole(broker, name, edge, ps, answer)
  {
    AllOrNothing(broker.held, broker.made, broker.newId, name, edge, ps, done, answer);
  }

  method Register(broker: Broker, name: string, edge: Edge, ps: seq<Property<Json>>)
    returns (answer: Answer, ghost done: nat)
    requires broker.Valid() && broker.made == []
    modifies broker
    ensures broker.Valid()
            && IsRegistration(broker.made, broker.newId, name, Writes(broker.newId, edge, ps), done, answer)
  {
    var id := broker.newId;
    ghost var writes := Writes(id, edge, ps);
    done := 0;
    var created := broker.Make(CreateThing(name));
    if created.Fails? { return Failed, 0; }

    assert IsWriting(broker.made, id, writes, 0, Went);
    ghost var made := broker.made;
    var progress := Write(broker, CreateRelationship(id, edge));
    OneMoreWrite(made, broker.made, id, writes, 0, progress);
    done := if progress.Went? then 1 else 0;
    var i := 0;
    while i < |ps| && progress.Went?
      invariant i <= |ps| && broker.Valid()
      invariant IsWriting(broker.made, id, writes, done, progress) && broker.made[0] == Made(CreateThing(name), Done)
      invariant progress.Went? ==> done == i + 1
    {
      made := broker.made;
      progress := Write(broker, SetThingProperty(id, ps[i].0, ps[i].1));
      OneMoreWrite(made, broker.made, id, writes, done, progress);
      i := i + 1;
      done := if progress.Went? then done + 1 else done;
    }
    made := broker.made;
    match progress
    case Went => answer := Registered(id);
    case GaveUp => answer := Failed;
    case Raising =>
      var threw := Compensate(broker);
      answer := if threw then Raised else Failed;
    WritingIsRegistration(made, broker.made, id, name, writes, done, progress, answer);
  }

  /** A request at fault is refused for the first of its faults and no call is made; any other makes the calls
      of a registration under its template. */
  method Handle(q: Request, asking: Asking, broker: Broker)
    returns (answer: Answer, ghost template: Template, ghost done: nat)
    requires broker.Valid() && broker.made == []
    modifies broker
    ensures broker.Valid()
    ensures answer.Refused? ==> broker.things == broker.held && broker.made == [] && Faults(answer.reason, q, asking)
                                && FaultlessBelow(Rank(answer.reason), q, asking)
    ensures !answer.Refused? ==>
              && FaultlessBelow(11, q, asking) && q.properties.Some? && IsTemplate(q, asking, Some(template))
              && var edge := Edge(template.isPredicateId, template.id);
              && IsRegistration(broker.made, broker.newId, q.name,
                                Writes(broker.newId, edge, q.properties.value), done, answer)
              && LeftWhole(broker, q.name, edge, q.properties.value, answer)
  {
    template, done := Template(0, 0, []), 0;
    var reason := Refusal(q, asking);
    if reason.Some? { return Refused(reason.value), template, 0; }
    OneTemplate(q, asking);
    var read := TemplateFor(q, asking).value;
    var edge := Edge(read.isPredicateId, read.id);
    template := read;
    answer, done := Register(broker, q.name, edge, q.properties.value);
    LeavesWhole(broker, q.name, edge, q.properties.value, done, answer);
  }

  lemma OneTemplate(q: Request, asking: Asking)
    requires FaultlessBelow(11, q, asking)
    ensures q.properties.Some? && TemplateFor(q, asking).Some? && IsTemplate(q, asking, TemplateFor(q, asking))
  {
    assert !Faults(NoProperties, q, asking) && !Faults(TwoTemplates, q, asking) && !Faults(NoTemplate, q, asking);
    TemplateIs(q, asking);
    assert IsTemplate(q, asking, TemplateFor(q, asking));
  }
}
