/** Option, the tick, and the few string operations the services share.  Case and white space are ASCII. */
module Text {

  /** A tick is 100 nanoseconds. */
  const TICKS_PER_SECOND := 10_000_000

  datatype Option<+T> = None | Some(value: T)

  predicate IsSpace(c: char) {
    c == ' ' || '\t' <= c <= '\r'
  }

  function TrimStart(s: string): (r: string)
    ensures |r| <= |s| && (r == "" || !IsSpace(r[0]))
    ensures (s == "" || !IsSpace(s[0])) ==> r == s
  {
    if s != "" && IsSpace(s[0]) then TrimStart(s[1..]) else s
  }

  function TrimEnd(s: string): (r: string)
    ensures r <= s && (r == "" || !IsSpace(r[|r| - 1]))
    ensures (s == "" || !IsSpace(s[|s| - 1])) ==> r == s
  {
    if s != "" && IsSpace(s[|s| - 1]) then TrimEnd(s[..|s| - 1]) else s
  }

  function Trim(s: string): (r: string)
    ensures r == "" || (!IsSpace(r[0]) && !IsSpace(r[|r| - 1]))
    ensures (s == "" || (!IsSpace(s[0]) && !IsSpace(s[|s| - 1]))) ==> r == s
  {
    TrimEnd(TrimStart(s))
  }

  predicate IsBlank(s: string) {
    Trim(s) == ""
  }

  function LowerChar(c: char): char {
    if 'A' <= c <= 'Z' then c - 'A' + 'a' else c
  }

  function Lower(s: string): string {
    if s == "" then "" else [LowerChar(s[0])] + Lower(s[1..])
  }

  lemma {:induction false} LowerAt(s: string, i: nat)
    requires i < |s|
    ensures |Lower(s)| == |s| && Lower(s)[i] == LowerChar(s[i])
  {
    if |s| > 1 {
      LowerAt(s[1..], if i == 0 then 0 else i - 1);
    }
  }

  /** Equal when case is ignored. */
  predicate SameName(a: string, b: string) {
    Lower(a) == Lower(b)
  }

  // ---- what trimming and lowering come to, character by character ----

  const SPACES := [' ', '\t', '\n', 11 as char, 12 as char, '\r']

  ghost predicate AllSpace(s: string) {
    forall c :: c in s ==> c in SPACES
  }

  /** Neither end is white space. */
  ghost predicate EndsInText(s: string) {
    s != "" ==> s[0] !in SPACES && s[|s| - 1] !in SPACES
  }

  ghost predicate SpacedOut(s: string, before: string, core: string, after: string) {
    s == before + core + after && AllSpace(before) && AllSpace(after)
  }

  /** What is left of the text with the white space at both of its ends gone. */
  ghost predicate TrimsTo(s: string, core: string) {
    EndsInText(core) && exists before, after :: SpacedOut(s, before, core, after)
  }

  /** A capital and its small letter, which ASCII has 32 places further on. */
  predicate IsCapitalOf(c: char, d: char) {
    'A' <= c <= 'Z' && d as int == c as int + 32
  }

  predicate SameLetter(c: char, d: char) {
    c == d || IsCapitalOf(c, d) || IsCapitalOf(d, c)
  }

  ghost predicate SameLetters(s: string, t: string) {
    |s| == |t| && forall i :: 0 <= i < |s| ==> SameLetter(s[i], t[i])
  }

  lemma SpacesAre(c: char)
    ensures IsSpace(c) <==> c in SPACES
  {
    if IsSpace(c) {
      assert SPACES[0] == ' ' && SPACES[1] == '\t' && SPACES[2] == '\n' && SPACES[5] == '\r';
      assert SPACES[3] == 11 as char && SPACES[4] == 12 as char;
    }
  }

  lemma {:induction false} TrimStartDropsSpace(s: string) returns (before: string)
    ensures s == before + TrimStart(s) && AllSpace(before)
  {
    before := "";
    if s != "" && IsSpace(s[0]) {
      SpacesAre(s[0]);
      before := TrimStartDropsSpace(s[1..]);
      before := [s[0]] + before;
    }
  }

  lemma {:induction false} TrimEndDropsSpace(s: string) returns (after: string)
    ensures s == TrimEnd(s) + after && AllSpace(after)
  {
    after := "";
    if s != "" && IsSpace(s[|s| - 1]) {
      SpacesAre(s[|s| - 1]);
      after := TrimEndDropsSpace(s[..|s| - 1]);
      after := after + [s[|s| - 1]];
    }
  }

  /** White space in front of a text reaches no further than to the first character that is none. */
  lemma SpaceStopsBefore(b: string, rest: string, c: string, other: string)
    requires b + rest == c + other && AllSpace(c) && rest != "" && rest[0] !in SPACES
    ensures |c| <= |b|
  {
    assert (b + rest)[|b|] == rest[0];
    assert forall i :: 0 <= i < |c| ==> (c + other)[i] == c[i] && c[i] in c;
  }

  lemma SpaceStopsAfter(rest: string, a: string, other: string, d: string)
    requires rest + a == other + d && AllSpace(d) && rest != "" && rest[|rest| - 1] !in SPACES
    ensures |d| <= |a|
  {
    var s := other + d;
    assert (rest + a)[|rest| - 1] == rest[|rest| - 1];
    assert forall i :: |other| <= i < |s| ==> s[i] == d[i - |other|] && d[i - |other|] in d;
  }

  /** The text between two stretches of white space is the same whichever way it is cut. */
  lemma OneCore(b: string, core: string, a: string, c: string, other: string, d: string)
    requires b + core + a == c + other + d
    requires AllSpace(b) && AllSpace(a) && AllSpace(c) && AllSpace(d) && EndsInText(core) && EndsInText(other)
    ensures core == other
  {
    NoText(b, core, a);
    NoText(c, other, d);
    if core != "" {
      assert b + (core + a) == b + core + a == c + (other + d);
      SpaceStopsBefore(b, core + a, c, other + d);
      SpaceStopsBefore(c, other + d, b, core + a);
      SpaceStopsAfter(b + core, a, c + other, d);
      SpaceStopsAfter(c + other, d, b + core, a);
      assert core == (b + core + a)[|b|..|b| + |core|] == (c + other + d)[|c|..|c| + |other|] == other;
    }
  }

  lemma NoText(b: string, core: string, a: string)
    requires AllSpace(b) && AllSpace(a) && EndsInText(core)
    ensures core == "" <==> AllSpace(b + core + a)
  {
    if core != "" {
      assert core[0] in b + core + a;
    }
  }

  /** Trimming takes away the white space at both ends, and nothing else. */
  lemma TrimIs(s: string, core: string)
    ensures Trim(s) == core <==> TrimsTo(s, core)
  {
    var before := TrimStartDropsSpace(s);
    var after := TrimEndDropsSpace(TrimStart(s));
    var trimmed := Trim(s);
    if trimmed != "" {
      SpacesAre(trimmed[0]);
      SpacesAre(trimmed[|trimmed| - 1]);
    }
    assert SpacedOut(s, before, trimmed, after);
    if TrimsTo(s, core) {
      var b, a :| SpacedOut(s, b, core, a);
      OneCore(before, trimmed, after, b, core, a);
    }
  }

  lemma BlankIs(s: string)
    ensures IsBlank(s) <==> AllSpace(s)
  {
    TrimIs(s, Trim(s));
    var before, after :| SpacedOut(s, before, Trim(s), after);
    NoText(before, Trim(s), after);
  }

  lemma LettersAre(c: char, d: char)
    ensures LowerChar(c) == LowerChar(d) <==> SameLetter(c, d)
  {}

  /** Two texts are one name when they have equal length and agree letter by letter but for case. */
  lemma SameNameIs(s: string, t: string)
    ensures SameName(s, t) <==> SameLetters(s, t)
  {
    if s != "" { LowerAt(s, 0); }
    if t != "" { LowerAt(t, 0); }
    if |s| == |t| {
      forall i | 0 <= i < |s| ensures Lower(s)[i] == Lower(t)[i] <==> SameLetter(s[i], t[i]) {
        LowerAt(s, i);
        LowerAt(t, i);
        LettersAre(s[i], t[i]);
      }
    }
  }

  function LastIndexOf(s: string, c: char): (i: int)
    ensures -1 <= i < |s|
    ensures i >= 0 ==> s[i] == c
    ensures forall j :: i < j < |s| ==> s[j] != c
  {
    if s == "" then -1
    else if s[|s| - 1] == c then |s| - 1
    else LastIndexOf(s[..|s| - 1], c)
  }

  predicate StartsWith(s: string, prefix: string) {
    prefix <= s
  }
}
