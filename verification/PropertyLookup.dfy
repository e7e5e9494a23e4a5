/** The two lookups of a property by its leaf name: the resolver's, and the one study inputs are read with. */
module PropertyLookup {
  import opened Text

  /** A property as it is enumerated: its key, and what is under it. */
  type Property<+V> = (string, V)

  datatype Lookup<+V> = Found(property: Property<V>) | Absent | Ambiguous(among: seq<Property<V>>)

  function Leaf(key: string): string {
    key[LastIndexOf(key, '.') + 1..]
  }

  predicate Dotted(key: string) {
    LastIndexOf(key, '.') >= 0
  }

  /** The key is the name, but for case. */
  predicate IsOwn(key: string, name: string) {
    SameName(key, name)
  }

  /** What follows the last dot of the key, or the whole of one without a dot, is the name, but for case. */
  predicate IsLeaf(key: string, name: string) {
    SameName(Leaf(key), name)
  }

  predicate IsQualified(key: string, name: string) {
    Dotted(key) && IsLeaf(key, name)
  }

  /** What the dictionary's own comparer takes for the name. */
  predicate IsExact(key: string, name: string, ignoresCase: bool) {
    if ignoresCase then IsOwn(key, name) else key == name
  }

  function OwnOf(name: string): string -> bool { k => IsOwn(k, name) }

  function QualifiedBy(name: string): string -> bool { k => IsQualified(k, name) }

  function LeafOf(name: string): string -> bool { k => IsLeaf(k, name) }

  function ExactFor(name: string, ignoresCase: bool): string -> bool { k => IsExact(k, name, ignoresCase) }

  /** The properties whose key passes the test, in order. */
  function Picked<V>(ps: seq<Property<V>>, test: string -> bool): seq<Property<V>> {
    if ps == [] then []
    else
      var before := Picked(ps[..|ps| - 1], test);
      if test(ps[|ps| - 1].0) then before + [ps[|ps| - 1]] else before
  }

  function TheOnly<V>(matches: seq<Property<V>>): Lookup<V> {
    if matches == [] then Absent else if |matches| == 1 then Found(matches[0]) else Ambiguous(matches)
  }

  /** The first of the first kind, and where there is none of it the only one of the second. */
  function FirstOrOnly<V>(first: seq<Property<V>>, only: seq<Property<V>>): Lookup<V> {
    if first != [] then Found(first[0]) else TheOnly(only)
  }

  /** A property of the study's own comes before any it inherits. */
  function CarriedBy<V>(ps: seq<Property<V>>, name: string): Lookup<V> {
    FirstOrOnly(Picked(ps, OwnOf(name)), Picked(ps, QualifiedBy(name)))
  }

  /** The dictionary is asked first, and only a name it does not find is matched by leaf. */
  function ResolvedBy<V>(ps: seq<Property<V>>, name: string, ignoresCase: bool): Lookup<V> {
    FirstOrOnly(Picked(ps, ExactFor(name, ignoresCase)), Picked(ps, LeafOf(name)))
  }

  /** No two keys are one name. */
  ghost predicate DistinctNames<V>(ps: seq<Property<V>>) {
    forall i, j :: 0 <= i < j < |ps| ==> !SameName(ps[i].0, ps[j].0)
  }

  /** What a dictionary with this comparer can hold. */
  ghost predicate DistinctKeys<V>(ps: seq<Property<V>>, ignoresCase: bool) {
    if ignoresCase then DistinctNames(ps)
    else forall i, j :: 0 <= i < j < |ps| ==> ps[i].0 != ps[j].0
  }

  // ---- the loops ----

  lemma OneMore<V>(ps: seq<Property<V>>, i: nat, test: string -> bool)
    requires i < |ps|
    ensures Picked(ps[..i + 1], test) == Picked(ps[..i], test) + if test(ps[i].0) then [ps[i]] else []
  {
    assert ps[..i + 1][..i] == ps[..i];
  }

  lemma {:induction false} FirstStays<V>(ps: seq<Property<V>>, i: nat, test: string -> bool)
    requires i <= |ps|
    ensures Picked(ps[..i], test) <= Picked(ps, test)
  {
    if i == |ps| {
      assert ps[..i] == ps;
    } else {
      FirstStays(ps[..|ps| - 1], i, test);
      assert ps[..|ps| - 1][..i] == ps[..i];
    }
  }

  method Carried<V>(ps: seq<Property<V>>, name: string) returns (found: Lookup<V>)
    ensures found == CarriedBy(ps, name)
  {
    var qualified: seq<Property<V>> := [];
    for i := 0 to |ps|
      invariant Picked(ps[..i], OwnOf(name)) == []
      invariant qualified == Picked(ps[..i], QualifiedBy(name))
    {
      OneMore(ps, i, OwnOf(name));
      OneMore(ps, i, QualifiedBy(name));
      if IsOwn(ps[i].0, name) {
        FirstStays(ps, i + 1, OwnOf(name));
        return Found(ps[i]);
      }
      if IsQualified(ps[i].0, name) {
        qualified := qualified + [ps[i]];
      }
    }
    assert ps[..|ps|] == ps;
    if |qualified| > 1 { return Ambiguous(qualified); }
    found := if |qualified| == 1 then Found(qualified[0]) else Absent;
  }

  /** The dictionary's own lookup. */
  method TryGetValue<V>(ps: seq<Property<V>>, name: string, ignoresCase: bool) returns (found: Option<Property<V>>)
    requires DistinctKeys(ps, ignoresCase)
    ensures Picked(ps, ExactFor(name, ignoresCase)) == if found.Some? then [found.value] else []
  {
    var i := 0;
    while i < |ps| && !IsExact(ps[i].0, name, ignoresCase)
      invariant i <= |ps| && Picked(ps[..i], ExactFor(name, ignoresCase)) == []
    {
      OneMore(ps, i, ExactFor(name, ignoresCase));
      i := i + 1;
    }
    assert ps[..|ps|] == ps;
    if i == |ps| { return None; }
    OneMore(ps, i, ExactFor(name, ignoresCase));
    FirstStays(ps, i + 1, ExactFor(name, ignoresCase));
    AtMostOnePicked(ps, ExactFor(name, ignoresCase));
    found := Some(ps[i]);
  }

  method TryGetEffectiveProperty<V>(ps: seq<Property<V>>, name: string, ignoresCase: bool) returns (found: Lookup<V>)
    requires DistinctKeys(ps, ignoresCase)
    ensures found == ResolvedBy(ps, name, ignoresCase)
  {
    var exact := TryGetValue(ps, name, ignoresCase);
    if exact.Some? { return Found(exact.value); }

    var matches: seq<Property<V>> := [];
    for i := 0 to |ps|
      invariant matches == Picked(ps[..i], LeafOf(name))
    {
      OneMore(ps, i, LeafOf(name));
      if IsLeaf(ps[i].0, name) {
        matches := matches + [ps[i]];
      }
    }
    assert ps[..|ps|] == ps;
    if |matches| == 1 { return Found(matches[0]); }
    found := if |matches| > 1 then Ambiguous(matches) else Absent;
  }

  // ---- what is picked ----

  lemma {:induction false} PickedAre<V>(ps: seq<Property<V>>, test: string -> bool, p: Property<V>)
    ensures p in Picked(ps, test) <==> p in ps && test(p.0)
  {
    if ps != [] {
      PickedAre(ps[..|ps| - 1], test, p);
      assert ps == ps[..|ps| - 1] + [ps[|ps| - 1]];
    }
  }

  /** Tests that do not both pick different keys pick one property at the most. */
  lemma {:induction false} AtMostOnePicked<V>(ps: seq<Property<V>>, test: string -> bool)
    requires forall i, j :: 0 <= i < j < |ps| ==> !(test(ps[i].0) && test(ps[j].0))
    ensures |Picked(ps, test)| <= 1
  {
    if ps != [] {
      var before := ps[..|ps| - 1];
      AtMostOnePicked(before, test);
      var picked := Picked(before, test);
      if picked != [] {
        PickedAre(before, test, picked[0]);
      }
    }
  }

  lemma {:induction false} PickedAlike<V>(ps: seq<Property<V>>, test: string -> bool, other: string -> bool)
    requires forall i :: 0 <= i < |ps| ==> test(ps[i].0) == other(ps[i].0)
    ensures Picked(ps, test) == Picked(ps, other)
  {
    if ps != [] {
      PickedAlike(ps[..|ps| - 1], test, other);
    }
  }

  /** How many a test picks is the sum over two tests that part it. */
  lemma {:induction false} PickedInParts<V>(ps: seq<Property<V>>, whole: string -> bool, one: string -> bool,
                                            other: string -> bool)
    requires forall i :: 0 <= i < |ps| ==>
               !(one(ps[i].0) && other(ps[i].0)) && whole(ps[i].0) == (one(ps[i].0) || other(ps[i].0))
    ensures |Picked(ps, whole)| == |Picked(ps, one)| + |Picked(ps, other)|
  {
    if ps != [] {
      PickedInParts(ps[..|ps| - 1], whole, one, other);
    }
  }

  lemma {:induction false} PickedTimes<V>(ps: seq<Property<V>>, test: string -> bool, p: Property<V>)
    ensures multiset(Picked(ps, test))[p] == if test(p.0) then multiset(ps)[p] else 0
  {
    if ps != [] {
      PickedTimes(ps[..|ps| - 1], test, p);
      assert ps == ps[..|ps| - 1] + [ps[|ps| - 1]];
    }
  }

  lemma NonePicked<V>(ps: seq<Property<V>>, test: string -> bool)
    ensures Picked(ps, test) == [] <==> forall i :: 0 <= i < |ps| ==> !test(ps[i].0)
  {
    if Picked(ps, test) != [] {
      PickedAre(ps, test, Picked(ps, test)[0]);
    } else {
      forall i | 0 <= i < |ps| ensures !test(ps[i].0) { PickedAre(ps, test, ps[i]); }
    }
  }

  // ---- what is carried, by where it is ----

  /** The first property whose key passes. */
  ghost predicate FirstAt<V>(ps: seq<Property<V>>, test: string -> bool, i: nat) {
    i < |ps| && test(ps[i].0) && forall j :: 0 <= j < i ==> !test(ps[j].0)
  }

  /** The only property whose key passes. */
  ghost predicate OnlyAt<V>(ps: seq<Property<V>>, test: string -> bool, i: nat) {
    i < |ps| && test(ps[i].0) && forall j :: 0 <= j < |ps| && j != i ==> !test(ps[j].0)
  }

  ghost predicate NoneAt<V>(ps: seq<Property<V>>, test: string -> bool) {
    forall j :: 0 <= j < |ps| ==> !test(ps[j].0)
  }

  ghost predicate TwoAt<V>(ps: seq<Property<V>>, test: string -> bool) {
    exists i, j :: 0 <= i < j < |ps| && test(ps[i].0) && test(ps[j].0)
  }

  ghost predicate FirstOrOnlyAt<V>(ps: seq<Property<V>>, first: string -> bool, only: string -> bool, i: nat) {
    FirstAt(ps, first, i) || (NoneAt(ps, first) && OnlyAt(ps, only, i))
  }

  /** A name's own property that comes first; or, where it has none of its own, the only one qualified. */
  ghost predicate FoundAt<V>(ps: seq<Property<V>>, name: string, i: nat) {
    FirstOrOnlyAt(ps, OwnOf(name), QualifiedBy(name), i)
  }

  /** What the dictionary finds; or, where it finds nothing, the only one that ends in the name. */
  ghost predicate ResolvedAt<V>(ps: seq<Property<V>>, name: string, ignoresCase: bool, i: nat) {
    FirstOrOnlyAt(ps, ExactFor(name, ignoresCase), LeafOf(name), i)
  }

  /** The key ends in a dot and this leaf, which is the name but for case. */
  ghost predicate EndsIn(key: string, name: string, before: string, leaf: string) {
    key == before + "." + leaf && '.' !in leaf && SameLetters(leaf, name)
  }

  lemma LastDot(key: string, before: string, leaf: string)
    requires key == before + "." + leaf && '.' !in leaf
    ensures LastIndexOf(key, '.') == |before| && Leaf(key) == leaf
  {
    assert key[|before|] == '.' && forall j :: |before| < j < |key| ==> key[j] == leaf[j - |before| - 1];
  }

  lemma CutAtTheDot(key: string)
    requires Dotted(key)
    ensures key == key[..LastIndexOf(key, '.')] + "." + Leaf(key) && '.' !in Leaf(key)
  {
    var dot := LastIndexOf(key, '.');
    assert key == key[..dot] + [key[dot]] + key[dot + 1..];
    forall c | c in Leaf(key) ensures c != '.' {
      var j :| 0 <= j < |Leaf(key)| && Leaf(key)[j] == c;
      assert key[dot + 1 + j] == c;
    }
  }

  lemma HowQualified(key: string, name: string)
    ensures IsQualified(key, name) <==> exists before, leaf :: EndsIn(key, name, before, leaf)
  {
    SameNameIs(Leaf(key), name);
    if IsQualified(key, name) {
      CutAtTheDot(key);
      assert EndsIn(key, name, key[..LastIndexOf(key, '.')], Leaf(key));
    }
    if before, leaf :| EndsIn(key, name, before, leaf) {
      LastDot(key, before, leaf);
    }
  }

  /** The three ways a key can be a name, character by character. */
  lemma HowKeysRead(key: string, name: string)
    ensures IsOwn(key, name) <==> SameLetters(key, name)
    ensures IsQualified(key, name) <==> exists before, leaf :: EndsIn(key, name, before, leaf)
    ensures IsLeaf(key, name) <==> IsQualified(key, name) || ('.' !in key && SameLetters(key, name))
  {
    SameNameIs(key, name);
    HowQualified(key, name);
    assert !Dotted(key) ==> Leaf(key) == key;
  }

  lemma FirstPicked<V>(ps: seq<Property<V>>, test: string -> bool, i: nat)
    requires FirstAt(ps, test, i)
    ensures Picked(ps, test) != [] && Picked(ps, test)[0] == ps[i]
  {
    NonePicked(ps[..i], test);
    OneMore(ps, i, test);
    FirstStays(ps, i + 1, test);
  }

  lemma {:induction false} FirstThereIs<V>(ps: seq<Property<V>>, test: string -> bool) returns (i: nat)
    requires Picked(ps, test) != []
    ensures FirstAt(ps, test, i)
  {
    var n := |ps| - 1;
    NonePicked(ps[..n], test);
    if Picked(ps[..n], test) == [] {
      i := n;
    } else {
      i := FirstThereIs(ps[..n], test);
    }
  }

  lemma OnlyPicked<V>(ps: seq<Property<V>>, test: string -> bool, i: nat)
    requires OnlyAt(ps, test, i)
    ensures |Picked(ps, test)| == 1
  {
    AtMostOnePicked(ps, test);
    FirstPicked(ps, test, i);
  }

  lemma TwoPicked<V>(ps: seq<Property<V>>, test: string -> bool)
    ensures |Picked(ps, test)| > 1 <==> TwoAt(ps, test)
  {
    if i, j :| 0 <= i < j < |ps| && test(ps[i].0) && test(ps[j].0) {
      PickedAre(ps[..j], test, ps[i]);
      assert ps[..j][i] == ps[i];
      OneMore(ps, j, test);
      FirstStays(ps, j + 1, test);
    } else {
      AtMostOnePicked(ps, test);
    }
  }

  lemma WhatIsFirstOrOnly<V>(ps: seq<Property<V>>, first: string -> bool, only: string -> bool)
    ensures var found := FirstOrOnly(Picked(ps, first), Picked(ps, only));
            && (found.Absent? <==> NoneAt(ps, first) && NoneAt(ps, only))
            && (found.Ambiguous? <==> NoneAt(ps, first) && TwoAt(ps, only))
            && (found.Found? <==> exists i: nat :: FirstOrOnlyAt(ps, first, only, i))
            && forall i: nat :: FirstOrOnlyAt(ps, first, only, i) ==> found == Found(ps[i])
  {
    NonePicked(ps, first);
    NonePicked(ps, only);
    TwoPicked(ps, only);
    forall i: nat | FirstOrOnlyAt(ps, first, only, i)
      ensures FirstOrOnly(Picked(ps, first), Picked(ps, only)) == Found(ps[i])
    {
      if FirstAt(ps, first, i) {
        FirstPicked(ps, first, i);
      } else {
        FirstPicked(ps, only, i);
        OnlyPicked(ps, only, i);
      }
    }
    if Picked(ps, first) != [] {
      var i := FirstThereIs(ps, first);
      assert FirstOrOnlyAt(ps, first, only, i);
    } else if |Picked(ps, only)| == 1 {
      var i := FirstThereIs(ps, only);
      assert OnlyAt(ps, only, i) && FirstOrOnlyAt(ps, first, only, i);
    }
  }

  /** What is carried, said of the properties themselves: absent, or found at a place, or ambiguous. */
  lemma WhatIsCarried<V>(ps: seq<Property<V>>, name: string)
    ensures CarriedBy(ps, name).Absent? <==> NoneAt(ps, OwnOf(name)) && NoneAt(ps, QualifiedBy(name))
    ensures CarriedBy(ps, name).Ambiguous? <==> NoneAt(ps, OwnOf(name)) && TwoAt(ps, QualifiedBy(name))
    ensures CarriedBy(ps, name).Found? <==> exists i: nat :: FoundAt(ps, name, i)
    ensures forall i: nat :: FoundAt(ps, name, i) ==> CarriedBy(ps, name) == Found(ps[i])
  {
    WhatIsFirstOrOnly(ps, OwnOf(name), QualifiedBy(name));
    if i: nat :| FirstOrOnlyAt(ps, OwnOf(name), QualifiedBy(name), i) {
      assert FoundAt(ps, name, i);
    }
  }

  lemma WhatIsResolved<V>(ps: seq<Property<V>>, name: string, ignoresCase: bool)
    ensures ResolvedBy(ps, name, ignoresCase).Absent?
            <==> NoneAt(ps, ExactFor(name, ignoresCase)) && NoneAt(ps, LeafOf(name))
    ensures ResolvedBy(ps, name, ignoresCase).Ambiguous?
            <==> NoneAt(ps, ExactFor(name, ignoresCase)) && TwoAt(ps, LeafOf(name))
    ensures ResolvedBy(ps, name, ignoresCase).Found? <==> exists i: nat :: ResolvedAt(ps, name, ignoresCase, i)
    ensures forall i: nat :: ResolvedAt(ps, name, ignoresCase, i) ==> ResolvedBy(ps, name, ignoresCase) == Found(ps[i])
  {
    WhatIsFirstOrOnly(ps, ExactFor(name, ignoresCase), LeafOf(name));
    if i: nat :| FirstOrOnlyAt(ps, ExactFor(name, ignoresCase), LeafOf(name), i) {
      assert ResolvedAt(ps, name, ignoresCase, i);
    }
  }

  // ---- where the two agree ----

  lemma DotsStay(a: string, b: string)
    requires SameName(a, b) && Dotted(a)
    ensures Dotted(b)
  {
    var i := LastIndexOf(a, '.');
    LowerAt(a, i);
    LowerAt(b, 0);
    LowerAt(b, i);
  }

  lemma LeafHasNoDot(key: string)
    ensures !Dotted(Leaf(key))
  {
    forall j | LastIndexOf(key, '.') < j < |key| ensures key[j] != '.' {}
  }

  /** The keys that end in a name are those of its own that have no dot, and the qualified ones; no key is
      both, and a name with a dot in it has none that end in it. */
  lemma HowKeysMatch(key: string, name: string)
    ensures IsLeaf(key, name) <==> (IsOwn(key, name) && !Dotted(name)) || IsQualified(key, name)
    ensures !(IsOwn(key, name) && IsQualified(key, name))
    ensures Dotted(name) ==> !IsLeaf(key, name)
  {
    LeafHasNoDot(key);
    if IsLeaf(key, name) && Dotted(name) {
      DotsStay(name, Leaf(key));
    }
    if IsOwn(key, name) && Dotted(name) {
      DotsStay(name, key);
    }
    if IsOwn(key, name) && Dotted(key) {
      DotsStay(key, name);
    }
  }

  predicate HowMatched(key: string, name: string) {
    && (IsLeaf(key, name) <==> (IsOwn(key, name) && !Dotted(name)) || IsQualified(key, name))
    && !(IsOwn(key, name) && IsQualified(key, name))
    && (Dotted(name) ==> !IsLeaf(key, name))
  }

  /** What the three tests pick of names that differ: with no dot in the name, the leaves are its own key and
      the qualified ones; with a dot, there are no leaves at all. */
  lemma LeavesInParts<V>(ps: seq<Property<V>>, name: string)
    requires DistinctNames(ps)
    ensures |Picked(ps, OwnOf(name))| <= 1
    ensures Dotted(name) ==> Picked(ps, LeafOf(name)) == Picked(ps, QualifiedBy(name)) == []
    ensures !Dotted(name) ==> |Picked(ps, LeafOf(name))| == |Picked(ps, OwnOf(name))| + |Picked(ps, QualifiedBy(name))|
    ensures Picked(ps, OwnOf(name)) == [] ==> Picked(ps, LeafOf(name)) == Picked(ps, QualifiedBy(name))
  {
    forall i | 0 <= i < |ps| ensures HowMatched(ps[i].0, name) { HowKeysMatch(ps[i].0, name); }
    AtMostOnePicked(ps, OwnOf(name));
    NonePicked(ps, LeafOf(name));
    NonePicked(ps, QualifiedBy(name));
    if !Dotted(name) {
      PickedInParts(ps, LeafOf(name), OwnOf(name), QualifiedBy(name));
      NonePicked(ps, OwnOf(name));
      if Picked(ps, OwnOf(name)) == [] {
        PickedAlike(ps, LeafOf(name), QualifiedBy(name));
      }
    }
  }

  /** A property of the name's own that an ordinal dictionary passes over, the name being written in other
      letters, and that the leaves do not lead back to: it has a dot, or a qualified one has the same leaf. */
  predicate IsPassedOver<V>(ps: seq<Property<V>>, name: string) {
    && Picked(ps, ExactFor(name, false)) == []
    && Picked(ps, OwnOf(name)) != []
    && (Dotted(name) || Picked(ps, QualifiedBy(name)) != [])
  }

  /** What the dictionary finds is the name's own. */
  lemma ExactIsOwn<V>(ps: seq<Property<V>>, name: string, ignoresCase: bool)
    requires |Picked(ps, OwnOf(name))| <= 1
    ensures ignoresCase ==> Picked(ps, ExactFor(name, ignoresCase)) == Picked(ps, OwnOf(name))
    ensures var exact := Picked(ps, ExactFor(name, ignoresCase));
            exact != [] ==> Picked(ps, OwnOf(name)) == [exact[0]]
  {
    if ignoresCase {
      PickedAlike(ps, ExactFor(name, true), OwnOf(name));
    }
    var exact := Picked(ps, ExactFor(name, ignoresCase));
    if exact != [] {
      PickedAre(ps, ExactFor(name, ignoresCase), exact[0]);
      PickedAre(ps, OwnOf(name), exact[0]);
    }
  }

  lemma OnlyLeafIsOwn<V>(ps: seq<Property<V>>, name: string)
    requires DistinctNames(ps) && !Dotted(name)
    requires |Picked(ps, OwnOf(name))| == |Picked(ps, LeafOf(name))| == 1
    ensures Picked(ps, OwnOf(name)) == Picked(ps, LeafOf(name))
  {
    var own := Picked(ps, OwnOf(name))[0];
    PickedAre(ps, OwnOf(name), own);
    HowKeysMatch(own.0, name);
    PickedAre(ps, LeafOf(name), own);
  }

  /** The two lookups answer alike, the conflicts in the same order too, over a dictionary that ignores case;
      over an ordinal one, exactly when no property is passed over. */
  lemma LookupsAgreeExactlyWhen<V>(ps: seq<Property<V>>, name: string, ignoresCase: bool)
    requires DistinctNames(ps)
    ensures ResolvedBy(ps, name, ignoresCase) == CarriedBy(ps, name) <==> ignoresCase || !IsPassedOver(ps, name)
    ensures ResolvedBy(ps, name, ignoresCase).Found? ==> CarriedBy(ps, name) == ResolvedBy(ps, name, ignoresCase)
    ensures CarriedBy(ps, name).Ambiguous? ==> ResolvedBy(ps, name, ignoresCase) == CarriedBy(ps, name)
  {
    LeavesInParts(ps, name);
    ExactIsOwn(ps, name, ignoresCase);
    if !Dotted(name) && |Picked(ps, OwnOf(name))| == |Picked(ps, LeafOf(name))| == 1 {
      OnlyLeafIsOwn(ps, name);
    }
  }

  /** An ordinal dictionary asked for `Foo` passes over `foo`, and finds its leaf twice. */
  lemma APropertyIsPassedOver<V>(own: V, inherited: V)
    ensures var ps := [("foo", own), ("X.Foo", inherited)];
            && DistinctNames(ps) && IsPassedOver(ps, "Foo")
            && CarriedBy(ps, "Foo") == Found(("foo", own))
            && ResolvedBy(ps, "Foo", false) == Ambiguous(ps)
  {
    var p, q := ("foo", own), ("X.Foo", inherited);
    var ps := [p, q];
    FooIsWritten();
    assert ps[..1] == [p] && ps[..2] == ps;
    OneMore(ps, 0, OwnOf("Foo"));
    OneMore(ps, 1, OwnOf("Foo"));
    OneMore(ps, 0, QualifiedBy("Foo"));
    OneMore(ps, 1, QualifiedBy("Foo"));
    OneMore(ps, 0, LeafOf("Foo"));
    OneMore(ps, 1, LeafOf("Foo"));
    OneMore(ps, 0, ExactFor("Foo", false));
    OneMore(ps, 1, ExactFor("Foo", false));
  }

  lemma FooIsWritten()
    ensures IsOwn("foo", "Foo") && IsLeaf("foo", "Foo") && !Dotted("foo")
    ensures !IsOwn("X.Foo", "Foo") && IsQualified("X.Foo", "Foo") && !SameName("foo", "X.Foo")
  {
    assert Lower("foo") == "foo" == Lower("Foo");
    LowerAt("X.Foo", 0);
    assert LastIndexOf("foo", '.') == -1;
    assert LastIndexOf("X.Foo", '.') == 1 && "X.Foo"[2..] == "Foo";
  }

  // ---- the order properties come in ----

  ghost predicate Reorders<V>(other: seq<Property<V>>, ps: seq<Property<V>>) {
    multiset(other) == multiset(ps)
  }

  /** The same to a caller: the same value, or a conflict over the same properties. */
  ghost predicate SameAnswer<V>(a: Lookup<V>, b: Lookup<V>) {
    match a
    case Found(p) => b.Found? && b.property.1 == p.1
    case Absent => b.Absent?
    case Ambiguous(among) => b.Ambiguous? && Reorders(b.among, among)
  }

  lemma SameTimes<T>(a: multiset<T>, b: multiset<T>)
    requires forall t :: t in a || t in b ==> a[t] == b[t]
    ensures a == b
  {}

  lemma PickedReorders<V>(other: seq<Property<V>>, ps: seq<Property<V>>, test: string -> bool)
    requires Reorders(other, ps)
    ensures Reorders(Picked(other, test), Picked(ps, test))
    ensures |Picked(other, test)| == |Picked(ps, test)|
  {
    var a, b := multiset(Picked(other, test)), multiset(Picked(ps, test));
    forall p: Property<V> | p in a || p in b ensures a[p] == b[p] {
      PickedTimes(other, test, p);
      PickedTimes(ps, test, p);
    }
    SameTimes(a, b);
    assert |a| == |b|;
  }

  lemma TheOnlyReorders<V>(other: seq<Property<V>>, ps: seq<Property<V>>)
    requires Reorders(other, ps)
    ensures SameAnswer(TheOnly(other), TheOnly(ps))
  {
    assert |multiset(other)| == |multiset(ps)|;
    if |ps| == 1 {
      assert other[0] in multiset(ps);
    }
  }

  ghost predicate OneValue<V>(ps: seq<Property<V>>) {
    forall p, q :: p in ps && q in ps ==> p.1 == q.1
  }

  lemma OneValueInAnyOrder<V>(ps: seq<Property<V>>, other: seq<Property<V>>, first: string -> bool,
                              only: string -> bool)
    requires Reorders(other, ps) && OneValue(Picked(ps, first))
    ensures SameAnswer(FirstOrOnly(Picked(other, first), Picked(other, only)),
                       FirstOrOnly(Picked(ps, first), Picked(ps, only)))
  {
    PickedReorders(other, ps, first);
    PickedReorders(other, ps, only);
    TheOnlyReorders(Picked(other, only), Picked(ps, only));
    if Picked(ps, first) != [] {
      assert Picked(other, first)[0] in multiset(Picked(ps, first));
    }
  }

  /** A property brought to the front is the first of its kind. */
  lemma BroughtForward<V>(ps: seq<Property<V>>, i: nat, name: string)
    requires i < |ps| && IsOwn(ps[i].0, name)
    ensures var other := [ps[i]] + ps[..i] + ps[i + 1..];
            Reorders(other, ps) && CarriedBy(other, name) == Found(ps[i])
  {
    var other := [ps[i]] + ps[..i] + ps[i + 1..];
    assert ps == ps[..i] + [ps[i]] + ps[i + 1..];
    OneMore(other, 0, OwnOf(name));
    assert Picked(other[..1], OwnOf(name)) == [ps[i]];
    FirstStays(other, 1, OwnOf(name));
  }

  /** Where there are two values of its own, some order answers with another than this one does. */
  lemma AnotherOrder<V>(ps: seq<Property<V>>, name: string) returns (other: seq<Property<V>>)
    requires !OneValue(Picked(ps, OwnOf(name)))
    ensures Reorders(other, ps) && !SameAnswer(CarriedBy(other, name), CarriedBy(ps, name))
  {
    var own := Picked(ps, OwnOf(name));
    var p :| p in own && p.1 != own[0].1;
    PickedAre(ps, OwnOf(name), p);
    var i :| 0 <= i < |ps| && ps[i] == p;
    BroughtForward(ps, i, name);
    other := [ps[i]] + ps[..i] + ps[i + 1..];
  }

  /** What a study carries does not depend on the order its properties come in, unless it holds two values of
      its own under one name. */
  lemma OrderDecidesOnlyBetweenOwnValues<V>(ps: seq<Property<V>>, name: string)
    ensures (forall other :: Reorders(other, ps) ==> SameAnswer(CarriedBy(other, name), CarriedBy(ps, name)))
            <==> OneValue(Picked(ps, OwnOf(name)))
  {
    if OneValue(Picked(ps, OwnOf(name))) {
      forall other | Reorders(other, ps) ensures SameAnswer(CarriedBy(other, name), CarriedBy(ps, name)) {
        OneValueInAnyOrder(ps, other, OwnOf(name), QualifiedBy(name));
      }
    } else {
      var other := AnotherOrder(ps, name);
    }
  }

  /** What the resolver finds in a dictionary never does. */
  lemma ResolvedInAnyOrder<V>(ps: seq<Property<V>>, other: seq<Property<V>>, name: string, ignoresCase: bool)
    requires DistinctKeys(ps, ignoresCase) && Reorders(other, ps)
    ensures SameAnswer(ResolvedBy(other, name, ignoresCase), ResolvedBy(ps, name, ignoresCase))
  {
    AtMostOnePicked(ps, ExactFor(name, ignoresCase));
    OneValueInAnyOrder(ps, other, ExactFor(name, ignoresCase), LeafOf(name));
  }
}
