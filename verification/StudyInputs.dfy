/** The numeric inputs a handler reads off a study, and the ones it waits for. */
module StudyInputs {
  import opened Text
  import opened PropertyLookup

  /** A value as the platform answers it.  `Undefined` is an element that was never read. */
  datatype Json =
    | Undefined
    | Null
    | Bool(b: bool)
    | Number(n: real)
    | Text(s: string)
    | Array(items: seq<Json>)
    | Object(fields: seq<Property<Json>>)

  datatype Reading =
    | Value(n: real)
    | NotOnStudy
    | WithNoValue
    | DeclaredTwice(among: seq<Property<Json>>)
    | NotNumeric

  /** What `WaitingFor` answers, or the name it raises over. */
  datatype Waiting = For(names: seq<string>) | Raises(name: string, among: seq<Property<Json>>)

  predicate Withheld(value: Json) {
    value.Null? || value.Undefined?
  }

  /** What an envelope holds under `Value`, whatever its case; anything else is taken as it stands. */
  function Enveloped(envelope: Json): Json {
    if envelope.Object? && Picked(envelope.fields, OwnOf("Value")) != []
    then Picked(envelope.fields, OwnOf("Value"))[0].1 else envelope
  }

  /** The first field of an object that is called `Value` in any letters; an object without one, and anything
      that is no object, as it stands. */
  ghost predicate Unwraps(envelope: Json, value: Json) {
    if !envelope.Object? then value == envelope
    else
      || (exists i: nat :: FirstAt(envelope.fields, OwnOf("Value"), i) && value == envelope.fields[i].1)
      || (NoneAt(envelope.fields, OwnOf("Value")) && value == envelope)
  }

  lemma UnwrapsOne(envelope: Json, value: Json)
    ensures Unwraps(envelope, value) <==> value == Enveloped(envelope)
  {
    if envelope.Object? {
      NonePicked(envelope.fields, OwnOf("Value"));
      if Picked(envelope.fields, OwnOf("Value")) != [] {
        var i := FirstThereIs(envelope.fields, OwnOf("Value"));
        FirstPicked(envelope.fields, OwnOf("Value"), i);
      }
      forall i: nat | FirstAt(envelope.fields, OwnOf("Value"), i)
        ensures Enveloped(envelope) == envelope.fields[i].1
      {
        FirstPicked(envelope.fields, OwnOf("Value"), i);
      }
    }
  }

  method Unwrapped(envelope: Json) returns (value: Json)
    ensures Unwraps(envelope, value) && value == Enveloped(envelope)
  {
    UnwrapsOne(envelope, Enveloped(envelope));
    if envelope.Object? {
      var fields := envelope.fields;
      for i := 0 to |fields|
        invariant Picked(fields[..i], OwnOf("Value")) == []
      {
        OneMore(fields, i, OwnOf("Value"));
        if IsOwn(fields[i].0, "Value") {
          FirstStays(fields, i + 1, OwnOf("Value"));
          return fields[i].1;
        }
      }
      assert fields[..|fields|] == fields;
    }
    value := envelope;
  }

  function AsNumber(value: Json, parse: string -> Option<real>): Reading {
    match value
    case Number(n) => Value(n)
    case Text(s) => if parse(s).Some? then Value(parse(s).value) else NotNumeric
    case _ => NotNumeric
  }

  /** What reading one input comes to. */
  function ReadingOf(ps: seq<Property<Json>>, name: string, parse: string -> Option<real>): Reading {
    match CarriedBy(ps, name)
    case Absent => NotOnStudy
    case Ambiguous(among) => DeclaredTwice(among)
    case Found(p) => if Withheld(Enveloped(p.1)) then WithNoValue else AsNumber(Enveloped(p.1), parse)
  }

  /** What the property found under the name holds. */
  ghost predicate Holds(ps: seq<Property<Json>>, name: string, value: Json) {
    exists i: nat :: FoundAt(ps, name, i) && Unwraps(ps[i].1, value)
  }

  /** An input is read in one of five ways, told apart by the properties themselves: missing exactly when no key
      is the name or ends in it; declared twice exactly when none is the name and two end in it; withheld, or
      not numeric, or a number, exactly as what is found holds none, or something else than a number, or that
      number. */
  ghost predicate IsReading(ps: seq<Property<Json>>, name: string, parse: string -> Option<real>, r: Reading) {
    && (r.NotOnStudy? <==> NoneAt(ps, OwnOf(name)) && NoneAt(ps, QualifiedBy(name)))
    && (r.DeclaredTwice? <==> NoneAt(ps, OwnOf(name)) && TwoAt(ps, QualifiedBy(name)))
    && (r.WithNoValue? <==> Holds(ps, name, Null) || Holds(ps, name, Undefined))
    && (forall n :: r == Value(n) <==>
          Holds(ps, name, Number(n)) || exists s :: Holds(ps, name, Text(s)) && parse(s) == Some(n))
  }

  lemma ReadingIs(ps: seq<Property<Json>>, name: string, parse: string -> Option<real>)
    ensures IsReading(ps, name, parse, ReadingOf(ps, name, parse))
  {
    WhatIsCarried(ps, name);
    var carried := CarriedBy(ps, name);
    forall value ensures Holds(ps, name, value) <==> carried.Found? && value == Enveloped(carried.property.1) {
      if carried.Found? {
        var i: nat :| FoundAt(ps, name, i);
        UnwrapsOne(ps[i].1, value);
      }
    }
  }

  method NumberOf(ps: seq<Property<Json>>, name: string, parse: string -> Option<real>) returns (r: Reading)
    ensures r == ReadingOf(ps, name, parse) && IsReading(ps, name, parse, r)
  {
    ReadingIs(ps, name, parse);
    var carried := Carried(ps, name);
    match carried
    case Absent => return NotOnStudy;
    case Ambiguous(among) => return DeclaredTwice(among);
    case Found(p) =>
      var value := Unwrapped(p.1);
      r := if Withheld(value) then WithNoValue else AsNumber(value, parse);
  }

  /** The figure has not arrived. */
  predicate IsAwaited(found: Lookup<Json>) {
    found.Absent? || (found.Found? && Withheld(Enveloped(found.property.1)))
  }

  function WaitingOf(ps: seq<Property<Json>>, names: seq<string>): Waiting {
    if names == [] then For([])
    else
      var before := WaitingOf(ps, names[..|names| - 1]);
      var name := names[|names| - 1];
      match before
      case Raises(_, _) => before
      case For(kept) =>
        match CarriedBy(ps, name)
        case Ambiguous(among) => Raises(name, among)
        case found => For(if IsAwaited(found) then kept + [name] else kept)
  }

  lemma {:induction false} RaisingStays(ps: seq<Property<Json>>, names: seq<string>, i: nat)
    requires i <= |names| && WaitingOf(ps, names[..i]).Raises?
    ensures WaitingOf(ps, names) == WaitingOf(ps, names[..i])
  {
    if i == |names| {
      assert names[..i] == names;
    } else {
      assert names[..|names| - 1][..i] == names[..i];
      RaisingStays(ps, names[..|names| - 1], i);
    }
  }

  method WaitingFor(ps: seq<Property<Json>>, names: seq<string>) returns (waiting: Waiting)
    ensures waiting == WaitingOf(ps, names)
  {
    var kept: seq<string> := [];
    for i := 0 to |names|
      invariant WaitingOf(ps, names[..i]) == For(kept)
    {
      assert names[..i + 1][..i] == names[..i];
      var carried := Carried(ps, names[i]);
      match carried
      case Ambiguous(among) =>
        RaisingStays(ps, names, i + 1);
        return Raises(names[i], among);
      case Absent =>
        kept := kept + [names[i]];
      case Found(p) =>
        var value := Unwrapped(p.1);
        if Withheld(value) {
          kept := kept + [names[i]];
        }
    }
    assert names[..|names|] == names;
    waiting := For(kept);
  }

  // ---- what waiting says about reading ----

  /** `kept` are the names at these places, which are in order and leave out no place where it holds. */
  ghost predicate KeptAt(kept: seq<string>, names: seq<string>, holds: string -> bool, at: seq<nat>) {
    && |at| == |kept|
    && (forall k :: 0 <= k < |at| ==> at[k] < |names| && names[at[k]] == kept[k] && holds(kept[k]))
    && (forall j, k :: 0 <= j < k < |at| ==> at[j] < at[k])
    && forall i :: 0 <= i < |names| && holds(names[i]) ==> i in at
  }

  /** A name no number can be read under, on the study or off it. */
  ghost function HasNoNumber(ps: seq<Property<Json>>, parse: string -> Option<real>): string -> bool {
    name => var r := ReadingOf(ps, name, parse); r.NotOnStudy? || r.WithNoValue?
  }

  ghost predicate IsTwice(ps: seq<Property<Json>>, parse: string -> Option<real>, name: string) {
    ReadingOf(ps, name, parse).DeclaredTwice?
  }

  ghost predicate NoneTwice(ps: seq<Property<Json>>, parse: string -> Option<real>, names: seq<string>, n: nat)
    requires n <= |names|
  {
    forall i :: 0 <= i < n ==> !IsTwice(ps, parse, names[i])
  }

  lemma OneMoreNotTwice(ps: seq<Property<Json>>, parse: string -> Option<real>, names: seq<string>, n: nat)
    requires names != [] && n < |names| && NoneTwice(ps, parse, names[..|names| - 1], n)
    ensures NoneTwice(ps, parse, names, n)
    ensures n == |names| - 1 && !IsTwice(ps, parse, names[n]) ==> NoneTwice(ps, parse, names, |names|)
  {
    forall i | 0 <= i < n ensures !IsTwice(ps, parse, names[i]) {
      assert names[..|names| - 1][i] == names[i];
    }
  }

  lemma OneMoreKept(kept: seq<string>, names: seq<string>, holds: string -> bool, at: seq<nat>)
    requires names != [] && KeptAt(kept, names[..|names| - 1], holds, at)
    ensures var n := |names| - 1;
            if holds(names[n]) then KeptAt(kept + [names[n]], names, holds, at + [n])
                else KeptAt(kept, names, holds, at)
  {
    var n := |names| - 1;
    forall j | 0 <= j < n && holds(names[j]) ensures j in at {
      assert names[..n][j] == names[j];
    }
  }

  lemma AwaitedHasNoNumber(ps: seq<Property<Json>>, name: string, parse: string -> Option<real>)
    ensures IsAwaited(CarriedBy(ps, name)) == HasNoNumber(ps, parse)(name)
    ensures CarriedBy(ps, name).Ambiguous? == IsTwice(ps, parse, name)
    ensures IsTwice(ps, parse, name) ==> ReadingOf(ps, name, parse) == DeclaredTwice(CarriedBy(ps, name).among)
  {}

  lemma OneMoreAsked(ps: seq<Property<Json>>, names: seq<string>)
    requires names != []
    ensures var n := |names| - 1;
            var before, found := WaitingOf(ps, names[..n]), CarriedBy(ps, names[n]);
            WaitingOf(ps, names) ==
              if before.Raises? then before
              else if found.Ambiguous? then Raises(names[n], found.among)
              else For(before.names + if IsAwaited(found) then [names[n]] else [])
  {}

  /** Whatever is read as a number from text: a handler waits for exactly the names that reading would refuse
      as missing or withheld, in the order it asked, and waiting raises over the first name that reading would
      refuse as declared twice, over the same properties. */
  lemma {:induction false} WaitsForWhatCannotBeRead(ps: seq<Property<Json>>, names: seq<string>,
                                                    parse: string -> Option<real>)
    returns (at: seq<nat>)
    ensures match WaitingOf(ps, names)
            case For(kept) =>
              && KeptAt(kept, names, HasNoNumber(ps, parse), at)
              && NoneTwice(ps, parse, names, |names|)
            case Raises(name, among) =>
              && |at| == 1 && at[0] < |names| && names[at[0]] == name
              && ReadingOf(ps, name, parse) == DeclaredTwice(among)
              && NoneTwice(ps, parse, names, at[0])
  {
    at := [];
    if names != [] {
      var before := names[..|names| - 1];
      at := WaitsForWhatCannotBeRead(ps, before, parse);
      OneMoreAsked(ps, names);
      AwaitedHasNoNumber(ps, names[|names| - 1], parse);
      OneMoreNotTwice(ps, parse, names, if WaitingOf(ps, before).For? then |names| - 1 else at[0]);
      if WaitingOf(ps, before).For? {
        OneMoreKept(WaitingOf(ps, before).names, names, HasNoNumber(ps, parse), at);
        if IsTwice(ps, parse, names[|names| - 1]) {
          at := [|names| - 1];
        } else if HasNoNumber(ps, parse)(names[|names| - 1]) {
          at := at + [|names| - 1];
        }
      }
    }
  }

  /** A handler waits for nothing exactly when each of its inputs is a number, or refused for not being one. */
  lemma {:induction false} NothingIsAwaitedExactlyWhen(ps: seq<Property<Json>>, names: seq<string>,
                                                       parse: string -> Option<real>)
    ensures WaitingOf(ps, names) == For([])
            <==> forall i :: 0 <= i < |names| ==> var r := ReadingOf(ps, names[i], parse); r.Value? || r.NotNumeric?
  {
    var at := WaitsForWhatCannotBeRead(ps, names, parse);
    match WaitingOf(ps, names)
    case Raises(_, _) => assert ReadingOf(ps, names[at[0]], parse).DeclaredTwice?;
    case For(kept) =>
      if kept != [] {
        assert HasNoNumber(ps, parse)(names[at[0]]);
      } else {
        forall i | 0 <= i < |names| ensures !HasNoNumber(ps, parse)(names[i]) && !IsTwice(ps, parse, names[i]) {}
      }
  }
}
