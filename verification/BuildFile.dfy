/** The check on the build file: the jobs it declares, read off the indentation of its lines, and their time limits. */
module BuildFile {
  import opened Text

  datatype Job = Job(name: string, settings: seq<string>)

  const JOB := "- job:"
  const STEPS := "steps:"
  const LIMIT := "timeoutInMinutes:"

  function Indentation(line: string): nat {
    |line| - |TrimStart(line)|
  }

  predicate IsJob(line: string) {
    StartsWith(Trim(line), JOB)
  }

  function NameOf(line: string): string
    requires IsJob(line)
  {
    Trim(Trim(line)[|JOB|..])
  }

  /** The line ends the settings of a job that stands so deep. */
  predicate Ends(line: string, depth: nat) {
    Trim(line) == STEPS || Indentation(line) <= depth
  }

  /** The line begins with so much white space and no more. */
  ghost predicate IsIndented(line: string, n: nat) {
    n <= |line| && (forall i :: 0 <= i < n ==> line[i] in SPACES) && (n < |line| ==> line[n] !in SPACES)
  }

  lemma {:induction false} IndentationIs(line: string)
    ensures IsIndented(line, Indentation(line)) && TrimStart(line) == line[Indentation(line)..]
  {
    if line != "" {
      SpacesAre(line[0]);
      if IsSpace(line[0]) {
        IndentationIs(line[1..]);
        assert forall i :: 1 <= i < |line| ==> line[i] == line[1..][i - 1];
      }
    }
  }

  lemma OneIndentation(line: string, m: nat, n: nat)
    requires IsIndented(line, m) && IsIndented(line, n)
    ensures m == n
  {}

  /** A line declares a job when it begins so once its space is trimmed, and names it by the rest, trimmed too. */
  lemma HowJobsRead(line: string)
    ensures IsJob(line) <==> exists text :: TrimsTo(line, text) && "- job:" <= text
    ensures forall text :: TrimsTo(line, text) && "- job:" <= text ==> TrimsTo(text[6..], NameOf(line))
  {
    TrimIs(line, Trim(line));
    forall text | TrimsTo(line, text) ensures text == Trim(line) { TrimIs(line, text); }
    if IsJob(line) {
      assert TrimsTo(line, Trim(line)) && JOB <= Trim(line);
      TrimIs(Trim(line)[|JOB|..], NameOf(line));
    }
  }

  /** A line ends the settings of a job when it opens its steps, or stands no deeper than the job. */
  lemma HowSettingsEnd(line: string, depth: nat)
    ensures IsBlank(line) <==> AllSpace(line)
    ensures Ends(line, depth) <==> TrimsTo(line, "steps:") || exists n :: 0 <= n <= depth && IsIndented(line, n)
  {
    BlankIs(line);
    IndentationIs(line);
    TrimIs(line, STEPS);
    forall n: nat | IsIndented(line, n) ensures n == Indentation(line) {
      OneIndentation(line, n, Indentation(line));
    }
  }

  function SettingsIn(lines: seq<string>, depth: nat): seq<string> {
    if lines == [] then []
    else if IsBlank(lines[0]) then SettingsIn(lines[1..], depth)
    else if Ends(lines[0], depth) then []
    else [Trim(lines[0])] + SettingsIn(lines[1..], depth)
  }

  function JobsIn(lines: seq<string>): seq<Job> {
    if lines == [] then []
    else if IsJob(lines[0])
    then [Job(NameOf(lines[0]), SettingsIn(lines[1..], Indentation(lines[0])))] + JobsIn(lines[1..])
    else JobsIn(lines[1..])
  }

  method Jobs(lines: seq<string>) returns (found: seq<Job>)
    ensures found == JobsIn(lines)
  {
    found := [];
    for i := 0 to |lines|
      invariant found + JobsIn(lines[i..]) == JobsIn(lines)
    {
      if !IsJob(lines[i]) { continue; }
      var settings := SettingsAfter(lines, i);
      found := found + [Job(NameOf(lines[i]), settings)];
    }
  }

  method SettingsAfter(lines: seq<string>, index: nat) returns (settings: seq<string>)
    requires index < |lines|
    ensures settings == SettingsIn(lines[index + 1..], Indentation(lines[index]))
  {
    var depth := Indentation(lines[index]);
    settings := [];
    for j := index + 1 to |lines|
      invariant settings + SettingsIn(lines[j..], depth) == SettingsIn(lines[index + 1..], depth)
    {
      if IsBlank(lines[j]) { continue; }
      if Ends(lines[j], depth) { return; }
      settings := settings + [Trim(lines[j])];
    }
  }

  // ---- printing ----

  /** A line among a job's settings: one of them and how deep it stands, or nothing but white space. */
  datatype Line = Setting(depth: nat, text: string) | Blank(space: string)

  /** A job as it is laid out: how deep it stands, the lines of its settings, and whatever lines come between
      them and the next job. */
  datatype Layout = Layout(depth: nat, name: string, settings: seq<Line>, after: seq<string>)

  function Spaces(n: nat): string {
    seq(n, _ => ' ')
  }

  function Indented(depth: nat, text: string): string {
    Spaces(depth) + text
  }

  function PrintedLine(line: Line): string {
    match line
    case Setting(depth, text) => Indented(depth, text)
    case Blank(space) => space
  }

  function PrintedSettings(settings: seq<Line>): seq<string> {
    if settings == [] then [] else [PrintedLine(settings[0])] + PrintedSettings(settings[1..])
  }

  function Texts(settings: seq<Line>): seq<string> {
    if settings == [] then []
    else (if settings[0].Setting? then [settings[0].text] else []) + Texts(settings[1..])
  }

  function Printed(layouts: seq<Layout>): seq<string> {
    if layouts == [] then []
    else [Indented(layouts[0].depth, JOB + " " + layouts[0].name)]
         + (PrintedSettings(layouts[0].settings) + (layouts[0].after + Printed(layouts[1..])))
  }

  function Declared(layouts: seq<Layout>): seq<Job> {
    if layouts == [] then [] else [Job(layouts[0].name, Texts(layouts[0].settings))] + Declared(layouts[1..])
  }

  predicate IsTrimmed(s: string) {
    Trim(s) == s
  }

  /** The first of these lines that is not blank, if there is one, ends the settings. */
  predicate EndSettings(lines: seq<string>, depth: nat) {
    lines != [] ==> if IsBlank(lines[0]) then EndSettings(lines[1..], depth) else Ends(lines[0], depth)
  }

  predicate IsSettingLine(depth: nat, line: Line) {
    match line
    case Setting(d, text) => d > depth && IsTrimmed(text) && text != "" && text != STEPS && !StartsWith(text, JOB)
    case Blank(space) => IsBlank(space)
  }

  /** Settings stand deeper than their job and are neither its steps nor jobs, blank lines among them; what
      follows them is not a setting by its first line, and holds no job of its own. */
  ghost predicate WellLaidOut(layouts: seq<Layout>) {
    layouts != [] ==>
      && IsTrimmed(layouts[0].name)
      && (forall i :: 0 <= i < |layouts[0].settings| ==> IsSettingLine(layouts[0].depth, layouts[0].settings[i]))
      && (forall i :: 0 <= i < |layouts[0].after| ==> !IsJob(layouts[0].after[i]))
      && EndSettings(layouts[0].after + Printed(layouts[1..]), layouts[0].depth)
      && WellLaidOut(layouts[1..])
  }

  // ---- reading what was printed ----

  lemma {:induction false} SpacesTrimAway(n: nat, s: string)
    ensures TrimStart(Indented(n, s)) == TrimStart(s)
  {
    if n == 0 {
      assert Indented(0, s) == s;
    } else {
      assert Indented(n, s)[1..] == Indented(n - 1, s);
      SpacesTrimAway(n - 1, s);
    }
  }

  lemma ReadIndented(n: nat, s: string)
    requires s != "" && IsTrimmed(s)
    ensures Trim(Indented(n, s)) == s && Indentation(Indented(n, s)) == n
  {
    SpacesTrimAway(n, s);
    TrimmedBothEnds(s);
  }

  lemma TrimmedBothEnds(s: string)
    requires IsTrimmed(s)
    ensures TrimStart(s) == s && TrimEnd(s) == s
  {
    assert |TrimEnd(TrimStart(s))| == |s|;
  }

  /** Space at the end trims away too. */
  lemma EndTrimsAway(s: string)
    requires s != "" && !IsSpace(s[|s| - 1])
    ensures TrimEnd(s + " ") == s
  {
    assert (s + " ")[..|s|] == s;
  }

  /** What is left of a job's line when its space is trimmed. */
  lemma HeaderTrims(depth: nat, name: string)
    requires IsTrimmed(name)
    ensures var line := Indented(depth, JOB + " " + name);
            Trim(line) == (if name == "" then JOB else JOB + " " + name) && Indentation(line) == depth
  {
    var text := JOB + " " + name;
    SpacesTrimAway(depth, text);
    assert text[0] == '-' && TrimStart(text) == text;
    if name == "" {
      assert text == JOB + " ";
      EndTrimsAway(JOB);
    } else {
      TrimmedBothEnds(name);
      assert text[|text| - 1] == name[|name| - 1];
    }
  }

  lemma HeaderReads(depth: nat, name: string)
    requires IsTrimmed(name)
    ensures var line := Indented(depth, JOB + " " + name);
            IsJob(line) && NameOf(line) == name && Indentation(line) == depth && !IsBlank(line)
  {
    HeaderTrims(depth, name);
    if name == "" {
      assert JOB[|JOB|..] == "";
    } else {
      assert (JOB + " " + name)[|JOB|..] == Indented(1, name);
      SpacesTrimAway(1, name);
      TrimmedBothEnds(name);
    }
  }

  lemma {:induction false} NothingSet(lines: seq<string>, depth: nat)
    requires EndSettings(lines, depth)
    ensures SettingsIn(lines, depth) == []
  {
    if lines != [] && IsBlank(lines[0]) {
      NothingSet(lines[1..], depth);
    }
  }

  lemma LineIsRead(depth: nat, line: Line)
    requires IsSettingLine(depth, line)
    ensures var text := PrintedLine(line);
            && !IsJob(text)
            && if line.Blank? then IsBlank(text) else Trim(text) == line.text && !IsBlank(text) && !Ends(text, depth)
  {
    if line.Setting? {
      ReadIndented(line.depth, line.text);
    }
  }

  lemma LineFirst(line: string, rest: seq<string>, depth: nat)
    requires IsBlank(line) || !Ends(line, depth)
    ensures SettingsIn([line] + rest, depth) == (if IsBlank(line) then [] else [Trim(line)]) + SettingsIn(rest, depth)
  {
    assert ([line] + rest)[1..] == rest;
  }

  lemma JobFirst(line: string, rest: seq<string>)
    requires IsJob(line)
    ensures JobsIn([line] + rest) == [Job(NameOf(line), SettingsIn(rest, Indentation(line)))] + JobsIn(rest)
  {
    assert ([line] + rest)[1..] == rest;
  }

  lemma PrintedInTurn(settings: seq<Line>, rest: seq<string>)
    requires settings != []
    ensures PrintedSettings(settings) + rest
            == [PrintedLine(settings[0])] + (PrintedSettings(settings[1..]) + rest)
  {}

  lemma {:induction false} SettingsRead(settings: seq<Line>, depth: nat, rest: seq<string>)
    requires forall i :: 0 <= i < |settings| ==> IsSettingLine(depth, settings[i])
    requires EndSettings(rest, depth)
    ensures SettingsIn(PrintedSettings(settings) + rest, depth) == Texts(settings)
  {
    if settings == [] {
      assert PrintedSettings(settings) + rest == rest;
      NothingSet(rest, depth);
    } else {
      SettingsRead(settings[1..], depth, rest);
      LineIsRead(depth, settings[0]);
      LineFirst(PrintedLine(settings[0]), PrintedSettings(settings[1..]) + rest, depth);
      PrintedInTurn(settings, rest);
    }
  }

  lemma {:induction false} NoJobsAmong(lines: seq<string>, rest: seq<string>)
    requires forall i :: 0 <= i < |lines| ==> !IsJob(lines[i])
    ensures JobsIn(lines + rest) == JobsIn(rest)
  {
    if lines == [] {
      assert lines + rest == rest;
    } else {
      NoJobsAmong(lines[1..], rest);
      assert (lines + rest)[1..] == lines[1..] + rest;
    }
  }

  lemma {:induction false} SettingsAreNoJobs(settings: seq<Line>, depth: nat)
    requires forall i :: 0 <= i < |settings| ==> IsSettingLine(depth, settings[i])
    ensures forall i :: 0 <= i < |PrintedSettings(settings)| ==> !IsJob(PrintedSettings(settings)[i])
  {
    if settings != [] {
      SettingsAreNoJobs(settings[1..], depth);
      LineIsRead(depth, settings[0]);
    }
  }

  /** Reading the jobs undoes printing them, whatever lines come before the first and after each. */
  lemma {:induction false} JobsUndoPrinting(before: seq<string>, layouts: seq<Layout>)
    requires WellLaidOut(layouts) && forall i :: 0 <= i < |before| ==> !IsJob(before[i])
    ensures JobsIn(before + Printed(layouts)) == Declared(layouts)
    decreases layouts
  {
    NoJobsAmong(before, Printed(layouts));
    if layouts != [] {
      var l := layouts[0];
      var rest := l.after + Printed(layouts[1..]);
      HeaderReads(l.depth, l.name);
      JobFirst(Indented(l.depth, JOB + " " + l.name), PrintedSettings(l.settings) + rest);
      SettingsRead(l.settings, l.depth, rest);
      SettingsAreNoJobs(l.settings, l.depth);
      NoJobsAmong(PrintedSettings(l.settings), rest);
      JobsUndoPrinting(l.after, layouts[1..]);
    }
  }

  /** A name and settings that some file can declare a job with. */
  ghost predicate CanBePrinted(job: Job) {
    && EndsInText(job.name)
    && forall i :: 0 <= i < |job.settings| ==>
         && job.settings[i] != "" && EndsInText(job.settings[i])
         && job.settings[i] != "steps:" && !("- job:" <= job.settings[i])
  }

  function SettingLines(texts: seq<string>): seq<Line> {
    seq(|texts|, i requires 0 <= i < |texts| => Setting(2, texts[i]))
  }

  lemma {:induction false} TextsOfLines(texts: seq<string>)
    ensures Texts(SettingLines(texts)) == texts
  {
    if texts != [] {
      TextsOfLines(texts[1..]);
      assert SettingLines(texts)[1..] == SettingLines(texts[1..]);
    }
  }

  lemma TrimmedIs(s: string)
    ensures IsTrimmed(s) <==> EndsInText(s)
  {
    if s != "" {
      SpacesAre(s[0]);
      SpacesAre(s[|s| - 1]);
    }
  }

  /** Any such jobs are declared by a file laid out so: every job unindented, its settings two deep. */
  lemma {:induction false} AnyJobsCanBeLaidOut(jobs: seq<Job>) returns (layouts: seq<Layout>)
    requires forall i :: 0 <= i < |jobs| ==> CanBePrinted(jobs[i])
    ensures WellLaidOut(layouts) && Declared(layouts) == jobs
    ensures layouts != [] ==> layouts[0].depth == 0
  {
    layouts := [];
    if jobs != [] {
      var job := jobs[0];
      var rest := AnyJobsCanBeLaidOut(jobs[1..]);
      TextsOfLines(job.settings);
      TrimmedIs(job.name);
      forall i | 0 <= i < |job.settings| ensures IsTrimmed(job.settings[i]) { TrimmedIs(job.settings[i]); }
      if rest != [] {
        HeaderReads(0, rest[0].name);
      }
      layouts := [Layout(0, job.name, SettingLines(job.settings), [])] + rest;
      assert layouts[1..] == rest && [] + Printed(rest) == Printed(rest);
    }
  }

  // ---- time limits ----

  datatype Problem = NoJob | NoLimit(name: string)

  predicate HasLimit(settings: seq<string>) {
    exists i :: 0 <= i < |settings| && StartsWith(settings[i], LIMIT)
  }

  function WithoutLimit(jobs: seq<Job>): seq<Problem> {
    if jobs == [] then []
    else
      var before, last := WithoutLimit(jobs[..|jobs| - 1]), jobs[|jobs| - 1];
      if HasLimit(last.settings) then before else before + [NoLimit(last.name)]
  }

  /** What the check reports of a build file's jobs. */
  function JobProblems(lines: seq<string>): seq<Problem> {
    (if JobsIn(lines) == [] then [NoJob] else []) + WithoutLimit(JobsIn(lines))
  }

  method Problems(lines: seq<string>) returns (found: seq<Problem>)
    ensures found == JobProblems(lines)
  {
    var declared := Jobs(lines);
    found := if declared == [] then [NoJob] else [];
    ghost var none := found;
    for i := 0 to |declared|
      invariant found == none + WithoutLimit(declared[..i])
    {
      assert declared[..i + 1][..i] == declared[..i];
      if !HasLimit(declared[i].settings) {
        found := found + [NoLimit(declared[i].name)];
      }
    }
    assert declared[..|declared|] == declared;
  }

  /** The job declared at this line has its limit at that one, and nothing between them ends its settings. */
  ghost predicate LimitedAt(lines: seq<string>, job: nat, at: nat) {
    && job < at < |lines| && StartsWith(Trim(lines[at]), LIMIT)
    && forall k :: job < k <= at && !IsBlank(lines[k]) ==> !Ends(lines[k], Indentation(lines[job]))
  }

  ghost predicate IsLimited(lines: seq<string>, job: nat) {
    exists at: nat :: LimitedAt(lines, job, at)
  }

  /** A limit at this line, with nothing that ends the settings before it or there. */
  ghost predicate LimitIn(lines: seq<string>, depth: nat, at: nat) {
    && at < |lines| && StartsWith(Trim(lines[at]), LIMIT)
    && forall k :: 0 <= k <= at && !IsBlank(lines[k]) ==> !Ends(lines[k], depth)
  }

  lemma OneSettingMore(setting: string, rest: seq<string>)
    ensures HasLimit([setting] + rest) <==> StartsWith(setting, LIMIT) || HasLimit(rest)
  {
    var settings := [setting] + rest;
    if StartsWith(setting, LIMIT) {
      assert StartsWith(settings[0], LIMIT);
    }
    if HasLimit(rest) {
      var i :| 0 <= i < |rest| && StartsWith(rest[i], LIMIT);
      assert StartsWith(settings[i + 1], LIMIT);
    }
  }

  lemma {:induction false} WhereLimited(lines: seq<string>, depth: nat) returns (at: nat)
    requires HasLimit(SettingsIn(lines, depth))
    ensures LimitIn(lines, depth, at)
  {
    at := 0;
    if IsBlank(lines[0]) {
      at := WhereLimited(lines[1..], depth);
      at := at + 1;
    } else {
      OneSettingMore(Trim(lines[0]), SettingsIn(lines[1..], depth));
      if !StartsWith(Trim(lines[0]), LIMIT) {
        at := WhereLimited(lines[1..], depth);
        at := at + 1;
      }
    }
  }

  lemma {:induction false} LimitIsRead(lines: seq<string>, depth: nat, at: nat)
    requires LimitIn(lines, depth, at)
    ensures HasLimit(SettingsIn(lines, depth))
  {
    if at > 0 {
      assert LimitIn(lines[1..], depth, at - 1);
      LimitIsRead(lines[1..], depth, at - 1);
    }
    if !IsBlank(lines[0]) {
      OneSettingMore(Trim(lines[0]), SettingsIn(lines[1..], depth));
    }
  }

  lemma SameLimit(lines: seq<string>, job: nat, at: nat)
    requires job < at
    ensures LimitedAt(lines, job, at)
            <==> job < |lines| && LimitIn(lines[job + 1..], Indentation(lines[job]), at - job - 1)
  {
    if at < |lines| {
      var below := lines[job + 1..];
      assert forall k :: job < k < |lines| ==> lines[k] == below[k - job - 1];
      assert forall k :: 0 <= k < |below| ==> below[k] == lines[k + job + 1];
    }
  }

  lemma LimitedExactlyWhere(lines: seq<string>, job: nat)
    requires job < |lines|
    ensures HasLimit(SettingsIn(lines[job + 1..], Indentation(lines[job]))) <==> IsLimited(lines, job)
  {
    var below, depth := lines[job + 1..], Indentation(lines[job]);
    if HasLimit(SettingsIn(below, depth)) {
      var at := WhereLimited(below, depth);
      SameLimit(lines, job, job + 1 + at);
    }
    if IsLimited(lines, job) {
      var at: nat :| LimitedAt(lines, job, at);
      SameLimit(lines, job, at);
      LimitIsRead(below, depth, at - job - 1);
    }
  }

  lemma {:induction false} NoneWithoutLimit(jobs: seq<Job>)
    ensures WithoutLimit(jobs) == [] <==> forall i :: 0 <= i < |jobs| ==> HasLimit(jobs[i].settings)
  {
    if jobs != [] {
      NoneWithoutLimit(jobs[..|jobs| - 1]);
    }
  }

  ghost predicate AllLimited(jobs: seq<Job>) {
    forall i :: 0 <= i < |jobs| ==> HasLimit(jobs[i].settings)
  }

  ghost predicate AllLimitedIn(lines: seq<string>) {
    forall i :: 0 <= i < |lines| && IsJob(lines[i]) ==> IsLimited(lines, i)
  }

  lemma LimitedFurtherOn(lines: seq<string>, i: nat)
    requires i + 1 < |lines|
    ensures IsLimited(lines, i + 1) <==> IsLimited(lines[1..], i)
  {
    LimitedExactlyWhere(lines, i + 1);
    LimitedExactlyWhere(lines[1..], i);
    assert lines[1..][i + 1..] == lines[i + 2..];
  }

  lemma AllLimitedFurtherOn(lines: seq<string>)
    requires lines != []
    ensures AllLimitedIn(lines) <==> AllLimitedIn(lines[1..]) && (IsJob(lines[0]) ==> IsLimited(lines, 0))
  {
    forall i | 1 <= i < |lines| ensures IsLimited(lines, i) <==> IsLimited(lines[1..], i - 1) {
      LimitedFurtherOn(lines, i - 1);
    }
    assert forall i :: 0 <= i < |lines| - 1 ==> lines[1..][i] == lines[i + 1];
  }

  lemma {:induction false} EveryJobLimited(lines: seq<string>)
    ensures AllLimited(JobsIn(lines)) <==> AllLimitedIn(lines)
    ensures JobsIn(lines) == [] <==> forall i :: 0 <= i < |lines| ==> !IsJob(lines[i])
  {
    if lines != [] {
      EveryJobLimited(lines[1..]);
      AllLimitedFurtherOn(lines);
      if IsJob(lines[0]) {
        LimitedExactlyWhere(lines, 0);
        var job := Job(NameOf(lines[0]), SettingsIn(lines[1..], Indentation(lines[0])));
        assert JobsIn(lines)[0] == job && JobsIn(lines)[1..] == JobsIn(lines[1..]);
      }
    }
  }

  /** Nothing is reported exactly when there is a job, and below every line that declares one comes a time limit
      before its steps and before anything that stands no deeper than it. */
  lemma NoProblemsExactlyWhen(lines: seq<string>)
    ensures JobProblems(lines) == []
            <==> (exists i :: 0 <= i < |lines| && IsJob(lines[i]))
                 && forall i :: 0 <= i < |lines| && IsJob(lines[i]) ==> IsLimited(lines, i)
  {
    EveryJobLimited(lines);
    NoneWithoutLimit(JobsIn(lines));
  }

  // ---- which jobs are reported ----

  /** A job is declared here, and has no limit. */
  ghost predicate IsUnlimited(lines: seq<string>, i: nat) {
    i < |lines| && IsJob(lines[i]) && !IsLimited(lines, i)
  }

  ghost predicate IsReport(problem: Problem, lines: seq<string>, i: nat) {
    i < |lines| && IsJob(lines[i]) && !IsLimited(lines, i) && problem == NoLimit(NameOf(lines[i]))
  }

  /** Each of these stands for the place beside it; the places are in order, and none is left out. */
  ghost predicate Listed<T>(found: seq<T>, at: seq<nat>, is_: (T, nat) -> bool, any: nat -> bool) {
    && |at| == |found|
    && (forall k :: 0 <= k < |at| ==> is_(found[k], at[k]))
    && (forall j, k :: 0 <= j < k < |at| ==> at[j] < at[k])
    && forall i: nat :: any(i) ==> i in at
  }

  ghost function ReportOf(lines: seq<string>): (Problem, nat) -> bool {
    (problem: Problem, i: nat) => IsReport(problem, lines, i)
  }

  ghost function UnlimitedIn(lines: seq<string>): nat -> bool {
    (i: nat) => IsUnlimited(lines, i)
  }

  /** The jobs without a limit, each where it is declared, in order and all of them. */
  ghost predicate ReportedAt(found: seq<Problem>, lines: seq<string>, at: seq<nat>) {
    Listed(found, at, ReportOf(lines), UnlimitedIn(lines))
  }

  lemma {:induction false} OneJobFirst(job: Job, rest: seq<Job>)
    ensures WithoutLimit([job] + rest)
            == (if HasLimit(job.settings) then [] else [NoLimit(job.name)]) + WithoutLimit(rest)
  {
    var jobs := [job] + rest;
    if rest == [] {
      assert jobs[..0] == [] && jobs == [job];
    } else {
      OneJobFirst(job, rest[..|rest| - 1]);
      assert jobs[..|jobs| - 1] == [job] + rest[..|rest| - 1];
    }
  }

  function Shifted(at: seq<nat>): seq<nat> {
    seq(|at|, k requires 0 <= k < |at| => at[k] + 1)
  }

  function OneFurtherOn(at: seq<nat>, first: bool): seq<nat> {
    (if first then [0] else []) + Shifted(at)
  }

  lemma ListedFurtherOn<T>(found: seq<T>, at: seq<nat>, is_: (T, nat) -> bool, any: nat -> bool,
                           later: (T, nat) -> bool, anyLater: nat -> bool, first: seq<T>)
    requires Listed(found, at, later, anyLater) && |first| <= 1
    requires forall p: T, i: nat :: later(p, i) ==> is_(p, i + 1)
    requires forall i: nat :: any(i) && i > 0 ==> anyLater(i - 1)
    requires if first == [] then !any(0) else is_(first[0], 0)
    ensures Listed(first + found, OneFurtherOn(at, first != []), is_, any)
  {
    var now, n := OneFurtherOn(at, first != []), |first|;
    forall k | 0 <= k < |now| ensures is_((first + found)[k], now[k]) {
      if k >= n {
        assert later(found[k - n], at[k - n]);
      }
    }
    forall i: nat | any(i) ensures i in now {
      if i > 0 {
        var k :| 0 <= k < |at| && at[k] == i - 1;
        assert now[k + n] == i;
      } else {
        assert now[0] == 0;
      }
    }
  }

  lemma ReportFurtherOn(problem: Problem, lines: seq<string>, i: nat)
    requires lines != []
    ensures IsReport(problem, lines, i + 1) <==> IsReport(problem, lines[1..], i)
    ensures IsUnlimited(lines, i + 1) <==> IsUnlimited(lines[1..], i)
  {
    if i + 1 < |lines| {
      LimitedFurtherOn(lines, i);
    }
  }

  lemma ReportedFurtherOn(found: seq<Problem>, lines: seq<string>, at: seq<nat>)
    requires lines != [] && ReportedAt(found, lines[1..], at)
    ensures var first := IsUnlimited(lines, 0);
            ReportedAt((if first then [NoLimit(NameOf(lines[0]))] else []) + found, lines, OneFurtherOn(at, first))
  {
    var first := if IsUnlimited(lines, 0) then [NoLimit(NameOf(lines[0]))] else [];
    forall p: Problem, i: nat | ReportOf(lines[1..])(p, i) ensures ReportOf(lines)(p, i + 1) {
      ReportFurtherOn(p, lines, i);
    }
    forall i: nat | UnlimitedIn(lines)(i) && i > 0 ensures UnlimitedIn(lines[1..])(i - 1) {
      ReportFurtherOn(NoJob, lines, i - 1);
    }
    ListedFurtherOn(found, at, ReportOf(lines), UnlimitedIn(lines), ReportOf(lines[1..]), UnlimitedIn(lines[1..]),
                    first);
  }

  lemma {:induction false} WithoutLimitAre(lines: seq<string>) returns (at: seq<nat>)
    ensures ReportedAt(WithoutLimit(JobsIn(lines)), lines, at)
  {
    at := [];
    if lines != [] {
      at := WithoutLimitAre(lines[1..]);
      ReportedFurtherOn(WithoutLimit(JobsIn(lines[1..])), lines, at);
      at := OneFurtherOn(at, IsUnlimited(lines, 0));
      if IsJob(lines[0]) {
        LimitedExactlyWhere(lines, 0);
        OneJobFirst(Job(NameOf(lines[0]), SettingsIn(lines[1..], Indentation(lines[0]))), JobsIn(lines[1..]));
      } else {
        assert [] + WithoutLimit(JobsIn(lines[1..])) == WithoutLimit(JobsIn(lines));
      }
    }
  }

  /** What is reported: that there is no job, where no line declares one; and every job without a limit, by its
      name, in the order they are declared. */
  lemma WhatIsReported(lines: seq<string>) returns (unlimited: seq<Problem>, at: seq<nat>)
    ensures JobProblems(lines) == (if exists i :: 0 <= i < |lines| && IsJob(lines[i]) then [] else [NoJob]) + unlimited
    ensures ReportedAt(unlimited, lines, at)
  {
    at := WithoutLimitAre(lines);
    unlimited := WithoutLimit(JobsIn(lines));
    EveryJobLimited(lines);
  }

  // ---- a block by its opening ----

  predicate IsUnder(line: string) {
    line == "" || line[0] in SPACES
  }

  /** The first line that opens so is this one. */
  ghost predicate OpensAt(lines: seq<string>, opening: string, from: nat) {
    from < |lines| && StartsWith(lines[from], opening) && forall i :: 0 <= i < from ==> !StartsWith(lines[i], opening)
  }

  /** The block is every line below, up to the first that is neither indented nor empty. */
  ghost predicate IsBlockBelow(lines: seq<string>, from: nat, block: seq<string>) {
    && from < |lines| && block <= lines[from + 1..]
    && (forall i :: 0 <= i < |block| ==> IsUnder(block[i]))
    && (from + 1 + |block| < |lines| ==> !IsUnder(lines[from + 1 + |block|]))
  }

  /** The lines under the first one that opens so, as far as they are indented or empty; none without it. */
  method IndentedBlock(lines: seq<string>, opening: string) returns (block: seq<string>)
    ensures forall from: nat :: OpensAt(lines, opening, from) ==> IsBlockBelow(lines, from, block)
    ensures (forall from: nat :: !OpensAt(lines, opening, from)) ==> block == []
  {
    block := [];
    for i := 0 to |lines|
      invariant forall j :: 0 <= j < i ==> !StartsWith(lines[j], opening)
    {
      if StartsWith(lines[i], opening) {
        for j := i + 1 to |lines|
          invariant block == lines[i + 1..j] && forall k :: 0 <= k < |block| ==> IsUnder(block[k])
        {
          if !IsUnder(lines[j]) { break; }
          block := block + [lines[j]];
        }
        assert IsBlockBelow(lines, i, block) && OpensAt(lines, opening, i);
        return;
      }
    }
  }
}
