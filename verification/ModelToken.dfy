/** The token work acts under: set for as long as a piece of work runs, and put back whichever way it ends. */
module ModelToken {
  import opened Text

  type Token = string

  /** A piece of work: it looks at the token it acts under, raises, does one piece after another, runs a piece
      under a token of its own, or runs one and goes on though it raise. */
  datatype Work =
    | Look
    | Raise
    | InTurn(first: Work, second: Work)
    | ActingFor(token: Token, work: Work)
    | Caught(work: Work)

  /** What a piece of work sees each time it looks, and whether it ends by raising. */
  datatype Seen = Seen(tokens: seq<Option<Token>>, raised: bool)

  /** What it should see: the token of the innermost piece around each look, and failing one the ambient. */
  function SeenUnder(work: Work, ambient: Option<Token>): Seen {
    match work
    case Look => Seen([ambient], false)
    case Raise => Seen([], true)
    case InTurn(first, second) =>
      var one := SeenUnder(first, ambient);
      if one.raised then one
      else var other := SeenUnder(second, ambient); Seen(one.tokens + other.tokens, other.raised)
    case ActingFor(token, inner) => SeenUnder(inner, Some(token))
    case Caught(inner) => Seen(SeenUnder(inner, ambient).tokens, false)
  }

  class Ambient {
    var current: Option<Token>
    var seen: seq<Option<Token>>

    constructor (current: Option<Token>)
      ensures this.current == current && seen == []
    {
      this.current, seen := current, [];
    }

    /** Work run under a token sees what its place in the work says, and leaves the token as it found it. */
    method Run(work: Work) returns (raised: bool)
      modifies this
      ensures current == old(current)
      ensures Seen(seen, raised) == Seen(old(seen) + SeenUnder(work, current).tokens, SeenUnder(work, current).raised)
      decreases work
    {
      match work
      case Look =>
        seen := seen + [current];
        raised := false;
      case Raise =>
        raised := true;
      case InTurn(first, second) =>
        raised := Run(first);
        if !raised { raised := Run(second); }
      case ActingFor(token, inner) =>
        var restore := current;
        current := Some(token);
        raised := Run(inner);
        current := restore;
      case Caught(inner) =>
        var _ := Run(inner);
        raised := false;
    }
  }

  /** Where the token seen at a look comes from: outside the work, or the piece of it under this token. */
  datatype Source = Outside | Under(token: Token)

  /** The looks taken in a piece of work before it ends, and where it looks. */
  function Looks(work: Work): (seq<Source>, bool) {
    match work
    case Look => ([Outside], false)
    case Raise => ([], true)
    case InTurn(first, second) =>
      var (one, raised) := Looks(first);
      if raised then (one, true) else (one + Looks(second).0, Looks(second).1)
    case ActingFor(token, inner) => (Named(Looks(inner).0, token), Looks(inner).1)
    case Caught(inner) => (Looks(inner).0, false)
  }

  function Named(sources: seq<Source>, token: Token): seq<Source> {
    seq(|sources|, i requires 0 <= i < |sources| => if sources[i].Outside? then Under(token) else sources[i])
  }

  function Filled(sources: seq<Source>, ambient: Option<Token>): seq<Option<Token>> {
    seq(|sources|, i requires 0 <= i < |sources| => if sources[i].Outside? then ambient else Some(sources[i].token))
  }

  /** The ambient token reaches exactly the looks outside every piece run under a token of its own; nothing
      else about the work depends on it. */
  lemma {:induction false} AmbientReachesOnlyOutside(work: Work, ambient: Option<Token>)
    ensures SeenUnder(work, ambient) == Seen(Filled(Looks(work).0, ambient), Looks(work).1)
  {
    match work
    case Look =>
    case Raise =>
    case InTurn(first, second) =>
      AmbientReachesOnlyOutside(first, ambient);
      AmbientReachesOnlyOutside(second, ambient);
      assert Filled(Looks(first).0 + Looks(second).0, ambient)
             == Filled(Looks(first).0, ambient) + Filled(Looks(second).0, ambient);
    case ActingFor(token, inner) =>
      AmbientReachesOnlyOutside(inner, Some(token));
      assert Filled(Named(Looks(inner).0, token), ambient) == Filled(Looks(inner).0, Some(token));
    case Caught(inner) =>
      AmbientReachesOnlyOutside(inner, ambient);
  }
}
