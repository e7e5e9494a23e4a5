/** Which Thing of a model an endpoint is registered under: the one the endpoint role binds, or the one archetype
    of the name asked for that descends from it. */
module EndpointTemplates {
  import opened Text

  type Id = nat

  datatype Thing = Thing(id: Id, name: string, isArchetype: bool)

  datatype Edge = Edge(subject: Id, predicateId: Id, target: Id)

  datatype Snapshot = Snapshot(things: seq<Thing>, edges: seq<Edge>)

  datatype Answer = Located(template: Thing, isPredicate: Id) | Refused(status: int) | Raises

  // ---- descending ----

  /** An edge of this kind leads from one Thing to the other. */
  ghost predicate Leads(edges: seq<Edge>, kind: Id, from: Id, to: Id) {
    Edge(from, kind, to) in edges
  }

  ghost predicate IsPath(edges: seq<Edge>, kind: Id, path: seq<Id>) {
    path != [] && forall i :: 0 <= i < |path| - 1 ==> Leads(edges, kind, path[i], path[i + 1])
  }

  ghost predicate IsPathTo(edges: seq<Edge>, kind: Id, from: Id, to: Id, path: seq<Id>) {
    IsPath(edges, kind, path) && path[0] == from && path[|path| - 1] == to
  }

  ghost predicate Descends(edges: seq<Edge>, kind: Id, from: Id, to: Id) {
    exists path :: IsPathTo(edges, kind, from, to, path)
  }

  method ParentsOf(edges: seq<Edge>, kind: Id, of_: Id) returns (parents: seq<Id>)
    ensures forall id :: id in parents <==> Leads(edges, kind, of_, id)
  {
    parents := [];
    for i := 0 to |edges|
      invariant forall id :: id in parents <==> Edge(of_, kind, id) in edges[..i]
    {
      assert edges[..i + 1] == edges[..i] + [edges[i]];
      if edges[i].subject == of_ && edges[i].predicateId == kind {
        parents := parents + [edges[i].target];
      }
    }
    assert edges[..|edges|] == edges;
  }

  /** Everything an edge leads to. */
  ghost function Targets(edges: seq<Edge>): set<Id> {
    set i | 0 <= i < |edges| :: edges[i].target
  }

  /** What has been seen leads only to what has been seen or waits. */
  ghost predicate Explored(edges: seq<Edge>, kind: Id, seen: set<Id>, waiting: seq<Id>) {
    forall x, y :: x in seen && Leads(edges, kind, x, y) ==> y in seen || y in waiting
  }

  /** A path leads to each of these, so an edge does or they are the start. */
  ghost predicate AllReached(edges: seq<Edge>, kind: Id, start: Id, ids: seq<Id>) {
    forall id :: id in ids ==> id in Targets(edges) + {start} && Descends(edges, kind, start, id)
  }

  lemma ParentsAreReached(edges: seq<Edge>, kind: Id, start: Id, current: Id, parents: seq<Id>)
    requires Descends(edges, kind, start, current)
    requires forall id :: id in parents ==> Leads(edges, kind, current, id)
    ensures AllReached(edges, kind, start, parents)
  {
    forall id | id in parents ensures id in Targets(edges) && Descends(edges, kind, start, id) {
      OneStepFurther(edges, kind, start, current, id);
    }
  }

  /** Whatever loops the edges make: it answers, and says yes exactly when some path leads there. */
  method DescendsFrom(edges: seq<Edge>, kind: Id, start: Id, root: Id) returns (descends: bool)
    ensures descends <==> Descends(edges, kind, start, root)
  {
    var seen: set<Id> := {};
    var waiting := [start];
    ghost var all := Targets(edges) + {start};
    PathToItself(edges, kind, start);
    while waiting != []
      invariant seen <= all && root !in seen && (start in seen || start in waiting)
      invariant AllReached(edges, kind, start, waiting)
      invariant Explored(edges, kind, seen, waiting)
      decreases |all - seen|, |waiting|
    {
      var current := waiting[|waiting| - 1];
      ghost var were := waiting;
      waiting := waiting[..|waiting| - 1];
      assert forall x :: x in were ==> x in waiting || x == current;
      if current == root { return true; }
      if current in seen { continue; }
      assert all - seen == all - (seen + {current}) + {current};
      seen := seen + {current};
      var parents := ParentsOf(edges, kind, current);
      ParentsAreReached(edges, kind, start, current, parents);
      waiting := waiting + parents;
    }
    ClosedIsNotLeft(edges, kind, seen, start, root);
    descends := false;
  }

  lemma PathToItself(edges: seq<Edge>, kind: Id, id: Id)
    ensures Descends(edges, kind, id, id)
  {
    assert IsPathTo(edges, kind, id, id, [id]);
  }

  lemma OneStepFurther(edges: seq<Edge>, kind: Id, from: Id, to: Id, next: Id)
    requires Descends(edges, kind, from, to) && Leads(edges, kind, to, next)
    ensures Descends(edges, kind, from, next)
  {
    var path :| IsPathTo(edges, kind, from, to, path);
    assert IsPathTo(edges, kind, from, next, path + [next]);
  }

  /** No path leaves a set whose every edge stays in it. */
  lemma ClosedIsNotLeft(edges: seq<Edge>, kind: Id, closed: set<Id>, from: Id, to: Id)
    requires Explored(edges, kind, closed, []) && from in closed && to !in closed
    ensures !Descends(edges, kind, from, to)
  {
    forall path | IsPathTo(edges, kind, from, to, path) ensures false {
      PathStaysInside(edges, kind, closed, path, |path| - 1);
    }
  }

  lemma {:induction false} PathStaysInside(edges: seq<Edge>, kind: Id, closed: set<Id>, path: seq<Id>, i: nat)
    requires Explored(edges, kind, closed, []) && IsPath(edges, kind, path) && path[0] in closed && i < |path|
    ensures path[i] in closed
  {
    if i > 0 {
      PathStaysInside(edges, kind, closed, path, i - 1);
      assert Leads(edges, kind, path[i - 1], path[i]);
    }
  }

  // ---- locating ----

  const ENDPOINT_ROLE: Id := 0xd5902341_bbcb_5917_9456_7109e76ec2b8
  const IS := "is"
  const BINDS := "binds"

  predicate DistinctIds(things: seq<Thing>) {
    forall i, j :: 0 <= i < j < |things| ==> things[i].id != things[j].id
  }

  ghost predicate OnlyOne(things: seq<Thing>, test: Thing -> bool, thing: Thing) {
    thing in things && test(thing) && forall t :: t in things && test(t) ==> t == thing
  }

  ghost predicate IsOnlyOne(things: seq<Thing>, test: Thing -> bool) {
    exists t :: OnlyOne(things, test, t)
  }

  function Called(name: string): Thing -> bool {
    (t: Thing) => t.name == name
  }

  function OfIds(ids: seq<Id>): Thing -> bool {
    (t: Thing) => t.id in ids
  }

  ghost predicate Binds(s: Snapshot, e: Edge) {
    e in s.edges && e.subject == ENDPOINT_ROLE && exists p :: p in s.things && Called(BINDS)(p) && p.id == e.predicateId
  }

  ghost function Bound(s: Snapshot): Thing -> bool {
    (t: Thing) => exists e :: Binds(s, e) && e.target == t.id
  }

  ghost function Candidate(s: Snapshot, name: string, kind: Id, root: Id): Thing -> bool {
    (t: Thing) => t.name == name && t.isArchetype && Descends(s.edges, kind, t.id, root)
  }

  /** All the Things that pass, each once. */
  ghost predicate AreThose(listed: seq<Thing>, things: seq<Thing>, test: Thing -> bool) {
    && (forall t :: t in listed <==> t in things && test(t))
    && forall i, j :: 0 <= i < j < |listed| ==> listed[i] != listed[j]
  }

  lemma HowMany(listed: seq<Thing>, things: seq<Thing>, test: Thing -> bool)
    requires AreThose(listed, things, test)
    ensures |listed| == 1 ==> OnlyOne(things, test, listed[0])
    ensures |listed| == 1 <==> IsOnlyOne(things, test)
    ensures |listed| == 0 <==> forall t :: t in things ==> !test(t)
  {
    if |listed| == 1 {
      assert OnlyOne(things, test, listed[0]);
    } else if |listed| == 0 {
      forall t | t in things ensures !test(t) { assert t !in listed; }
    } else {
      assert listed[0] in listed && listed[1] in listed && listed[0] != listed[1];
    }
  }

  method Named(things: seq<Thing>, name: string) returns (named: seq<Thing>)
    requires DistinctIds(things)
    ensures AreThose(named, things, Called(name))
  {
    named := [];
    for i := 0 to |things|
      invariant AreThose(named, things[..i], Called(name))
    {
      assert things[..i + 1] == things[..i] + [things[i]];
      assert things[i] !in things[..i];
      if things[i].name == name {
        named := named + [things[i]];
      }
    }
    assert things[..|things|] == things;
  }

  /** The ids an edge of the role's binds, each once. */
  method BoundIds(s: Snapshot, binds: seq<Thing>) returns (ids: seq<Id>)
    requires AreThose(binds, s.things, Called(BINDS))
    ensures forall id :: id in ids <==> exists e :: Binds(s, e) && e.target == id
    ensures forall i, j :: 0 <= i < j < |ids| ==> ids[i] != ids[j]
  {
    ids := [];
    for i := 0 to |s.edges|
      invariant forall id :: id in ids <==> exists j :: 0 <= j < i && Binds(s, s.edges[j]) && s.edges[j].target == id
      invariant forall j, k :: 0 <= j < k < |ids| ==> ids[j] != ids[k]
    {
      var e := s.edges[i];
      var isBinding := e.subject == ENDPOINT_ROLE && exists k :: 0 <= k < |binds| && binds[k].id == e.predicateId;
      assert isBinding <==> Binds(s, e);
      if isBinding && e.target !in ids {
        ids := ids + [e.target];
      }
    }
  }

  /** The Things under these ids, leaving out an id that is no Thing's. */
  method ThingsUnder(s: Snapshot, ids: seq<Id>) returns (found: seq<Thing>)
    requires DistinctIds(s.things) && forall i, j :: 0 <= i < j < |ids| ==> ids[i] != ids[j]
    ensures AreThose(found, s.things, OfIds(ids))
  {
    found := [];
    for i := 0 to |ids|
      invariant AreThose(found, s.things, OfIds(ids[..i]))
    {
      assert ids[..i + 1] == ids[..i] + [ids[i]];
      assert ids[i] !in ids[..i] by {
        assert forall j :: 0 <= j < i ==> ids[..i][j] == ids[j];
      }
      var k := 0;
      while k < |s.things| && s.things[k].id != ids[i]
        invariant k <= |s.things| && forall j :: 0 <= j < k ==> s.things[j].id != ids[i]
      {
        k := k + 1;
      }
      if k < |s.things| {
        forall j | 0 <= j < |found| ensures found[j] != s.things[k] {
          assert found[j] in found && OfIds(ids[..i])(found[j]);
        }
        found := found + [s.things[k]];
      }
    }
    assert ids[..|ids|] == ids;
  }

  method Candidates(s: Snapshot, name: string, kind: Id, root: Id) returns (found: seq<Thing>)
    requires DistinctIds(s.things)
    ensures AreThose(found, s.things, Candidate(s, name, kind, root))
  {
    found := [];
    for i := 0 to |s.things|
      invariant AreThose(found, s.things[..i], Candidate(s, name, kind, root))
    {
      assert s.things[..i + 1] == s.things[..i] + [s.things[i]];
      var t := s.things[i];
      assert t !in s.things[..i];
      if t.name == name && t.isArchetype {
        var descends := DescendsFrom(s.edges, kind, t.id, root);
        if descends {
          found := found + [t];
        }
      }
    }
    assert s.things[..|s.things|] == s.things;
  }

  lemma SameThings(listed: seq<Thing>, things: seq<Thing>, test: Thing -> bool, other: Thing -> bool)
    requires AreThose(listed, things, test) && forall t :: t in things ==> test(t) == other(t)
    ensures AreThose(listed, things, other)
  {}

  method BoundThings(s: Snapshot) returns (bound: seq<Thing>)
    requires DistinctIds(s.things)
    ensures AreThose(bound, s.things, Bound(s))
  {
    var binds := Named(s.things, BINDS);
    var ids := BoundIds(s, binds);
    bound := ThingsUnder(s, ids);
    SameThings(bound, s.things, OfIds(ids), Bound(s));
  }

  /** The one `is` predicate and the one Thing the role binds, which a template is looked for under. */
  ghost predicate Under(s: Snapshot, kind: Thing, root: Thing) {
    OnlyOne(s.things, Called(IS), kind) && OnlyOne(s.things, Bound(s), root)
  }

  /** The answer for what a model holds: a template exactly when there is one `is`, the role binds one Thing, and
      either that is what was asked for or one archetype of the name asked for descends from it.  Otherwise 500
      where there is not one `is`, 400 where no archetype answers to the name, and 409 where the role does not
      bind one Thing or several archetypes answer.  Things that share an id are no model at all. */
  ghost predicate IsAnswer(s: Snapshot, name: Option<string>, answer: Answer) {
    if exists i, j :: 0 <= i < j < |s.things| && s.things[i].id == s.things[j].id then answer.Raises?
    else
      match answer
      case Raises => false
      case Located(t, kindId) =>
        exists kind, root :: Under(s, kind, root) && kind.id == kindId && IsTemplate(s, name, kind, root, t)
      case Refused(status) =>
        if !IsOnlyOne(s.things, Called(IS)) then status == 500
        else if !IsOnlyOne(s.things, Bound(s)) then status == 409
        else name.Some? && forall kind, root :: Under(s, kind, root) ==>
              IsRefusedUnder(s, name.value, kind, root, status)
  }

  ghost predicate IsTemplate(s: Snapshot, name: Option<string>, kind: Thing, root: Thing, t: Thing) {
    if name.None? then t == root else OnlyOne(s.things, Candidate(s, name.value, kind.id, root.id), t)
  }

  ghost predicate IsRefusedUnder(s: Snapshot, name: string, kind: Thing, root: Thing, status: int) {
    var candidate := Candidate(s, name, kind.id, root.id);
    if exists t :: t in s.things && candidate(t) then !IsOnlyOne(s.things, candidate) && status == 409
        else status == 400
  }

  lemma OnlyOneAlike(things: seq<Thing>, test: Thing -> bool, t: Thing, u: Thing)
    requires OnlyOne(things, test, t) && OnlyOne(things, test, u)
    ensures t == u
  {}

  lemma UnderIsOne(s: Snapshot, kind: Thing, root: Thing, other: Thing, otherRoot: Thing)
    requires Under(s, kind, root) && Under(s, other, otherRoot)
    ensures kind == other && root == otherRoot
  {
    OnlyOneAlike(s.things, Called(IS), kind, other);
    OnlyOneAlike(s.things, Bound(s), root, otherRoot);
  }

  lemma IsUnder(s: Snapshot)
    requires IsOnlyOne(s.things, Called(IS)) && IsOnlyOne(s.things, Bound(s))
    ensures exists kind, root :: Under(s, kind, root)
  {
    var kind :| OnlyOne(s.things, Called(IS), kind);
    var root :| OnlyOne(s.things, Bound(s), root);
    assert Under(s, kind, root);
  }

  /** No model has two answers for one name. */
  lemma OneAnswer(s: Snapshot, name: Option<string>, a: Answer, b: Answer)
    requires IsAnswer(s, name, a) && IsAnswer(s, name, b)
    ensures a == b
  {
    if DistinctIds(s.things) && IsOnlyOne(s.things, Called(IS)) && IsOnlyOne(s.things, Bound(s)) {
      IsUnder(s);
      var kind, root :| Under(s, kind, root);
      forall k, r | Under(s, k, r) ensures k == kind && r == root { UnderIsOne(s, kind, root, k, r); }
      if name.Some? && a.Located? && b.Located? {
        OnlyOneAlike(s.things, Candidate(s, name.value, kind.id, root.id), a.template, b.template);
      }
    }
  }

  method Locate(s: Snapshot, name: Option<string>) returns (answer: Answer)
    ensures IsAnswer(s, name, answer)
  {
    if !DistinctIds(s.things) { return Raises; }
    var kinds := Named(s.things, IS);
    HowMany(kinds, s.things, Called(IS));
    if |kinds| != 1 { return Refused(500); }
    var bound := BoundThings(s);
    HowMany(bound, s.things, Bound(s));
    if |bound| != 1 { return Refused(409); }
    var kind, root := kinds[0], bound[0];
    assert Under(s, kind, root);
    if name.None? {
      assert IsTemplate(s, name, kind, root, root);
      return Located(root, kind.id);
    }
    var found := Candidates(s, name.value, kind.id, root.id);
    HowMany(found, s.things, Candidate(s, name.value, kind.id, root.id));
    answer := match |found|
      case 0 => Refused(400)
      case 1 => Located(found[0], kind.id)
      case _ => Refused(409);
  }
}
