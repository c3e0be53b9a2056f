/**
 The root crontab as a list of jobs. Managed lines carry a marker comment; every other
 line belongs to the administrator.
 */
module Crontab {
  import opened Text

  const MARKER := "# axiapanel:"

  /** A job; `tag` is its label, empty if there is none. */
  datatype Job = Job(id: string, schedule: string, command: string, tag: string)

  predicate ScheduleChar(c: char) {
    '0' <= c <= '9' || c == '*' || c == '/' || c == '-' || c == ','
  }

  /** `is_valid_schedule`: five fields of schedule characters. */
  predicate ValidSchedule(schedule: string) {
    var parts := Words(schedule);
    |parts| == 5 && forall i | 0 <= i < 5 :: forall k | 0 <= k < |parts[i]| :: ScheduleChar(parts[i][k])
  }

  /** The length of a text in UTF-8. */
  function Utf8Length(s: string): nat {
    if s == "" then 0
    else
      var code := s[0] as int;
      (if code < 0x80 then 1 else if code < 0x800 then 2 else if code < 0x10000 then 3 else 4) + Utf8Length(s[1..])
  }

  /** `is_safe_cron_command`; `allowed` stands for its pattern checks. */
  predicate SafeCommand(command: string, allowed: string -> bool) {
    command != "" && Utf8Length(command) <= 4096 && Clean(command) && '\0' !in command && allowed(command)
  }

  datatype SyncError = InvalidSchedule(schedule: string) | EmptyCommand | DisallowedCommand

  function Check(job: Job, allowed: string -> bool): Option<SyncError> {
    if !ValidSchedule(job.schedule) then Some(InvalidSchedule(job.schedule))
    else if job.command == "" then Some(EmptyCommand)
    else if !SafeCommand(job.command, allowed) then Some(DisallowedCommand)
    else None
  }

  function CronLine(job: Job): string {
    job.schedule + " " + job.command + " " + MARKER + job.id + " " + job.tag
  }

  function CronLines(jobs: seq<Job>): (r: seq<string>)
    ensures |r| == |jobs| && forall i | 0 <= i < |jobs| :: r[i] == CronLine(jobs[i])
  {
    if jobs == [] then [] else [CronLine(jobs[0])] + CronLines(jobs[1..])
  }

  predicate Managed(line: string) {
    Contains(line, MARKER)
  }

  predicate Unmanaged(line: string) {
    !Contains(line, MARKER)
  }

  /** The administrator's lines. */
  function Foreign(text: string): seq<string> {
    Filter(Unmanaged, Lines(text))
  }

  /** What `write_crontab` installs. */
  function Installed(ls: seq<string>): string {
    Join(ls, "\n") + "\n"
  }

  /** All jobs or, if one is refused, nothing. */
  function FirstError(jobs: seq<Job>, allowed: string -> bool): Option<SyncError> {
    if jobs == [] then None
    else match Check(jobs[0], allowed) case Some(e) => Some(e) case None => FirstError(jobs[1..], allowed)
  }

  function Sync(existing: string, jobs: seq<Job>, allowed: string -> bool): Result<string, SyncError> {
    match FirstError(jobs, allowed)
    case Some(e) => Err(e)
    case None => Ok(Installed(Foreign(existing) + CronLines(jobs)))
  }

  method SyncCrons(existing: string, jobs: seq<Job>, allowed: string -> bool)
    returns (result: Result<string, SyncError>)
    ensures result == Sync(existing, jobs, allowed)
  {
    hide Check, CronLine, Foreign;
    var lines := Foreign(existing);
    for i := 0 to |jobs|
      invariant lines == Foreign(existing) + CronLines(jobs)[..i]
      invariant FirstError(jobs, allowed) == FirstError(jobs[i..], allowed)
    {
      assert jobs[i..][1..] == jobs[i + 1..];
      var error := Check(jobs[i], allowed);
      if error.Some? {
        return Err(error.value);
      }
      lines := lines + [CronLine(jobs[i])];
    }
    assert CronLines(jobs)[..|jobs|] == CronLines(jobs);
    result := Ok(Installed(lines));
  }

  // ---- The two readers -------------------------------------------------------------

  /** What both readers make of a managed line: the part before the marker, the id, the label. */
  datatype Parts = Parts(before: string, id: string, tag: string)

  function SplitLine(line: string): Option<Parts> {
    match Find(line, MARKER)
    case None => None
    case Some(pos) =>
      var after := line[pos + |MARKER|..];
      match Find(after, " ")
      case Some(p) => Some(Parts(Trim(line[..pos]), after[..p], Trim(after[p + 1..])))
      case None => Some(Parts(Trim(line[..pos]), Trim(after), ""))
  }

  /** `list_crons`. */
  function ListLines(ls: seq<string>): seq<Parts> {
    if ls == [] then []
    else (match SplitLine(ls[0]) { case None => [] case Some(p) => [p] }) + ListLines(ls[1..])
  }

  function ListCrons(text: string): seq<Parts> {
    ListLines(Lines(text))
  }

  /** `splitn` at spaces. */
  function SplitN(s: string, n: nat): seq<string>
    requires n > 0
    decreases n
  {
    if n == 1 then [s]
    else match Find(s, " ") case None => [s] case Some(i) => [s[..i]] + SplitN(s[i + 1..], n - 1)
  }

  /** One line of the configuration export: schedule and command apart. */
  function ExportLine(line: string): Option<Job> {
    match SplitLine(line)
    case None => None
    case Some(p) =>
      var parts := SplitN(p.before, 6);
      if |parts| < 6 then None else Some(Job(p.id, Join(parts[..5], " "), parts[5], p.tag))
  }

  function ExportLines(ls: seq<string>): seq<Job> {
    if ls == [] then []
    else (match ExportLine(ls[0]) { case None => [] case Some(j) => [j] }) + ExportLines(ls[1..])
  }

  /** `read_crontab_entries`. */
  function ReadEntries(text: string): seq<Job> {
    ExportLines(Lines(text))
  }

  // ---- Jobs ------------------------------------------------------------------------------

  /** A job written on one line. */
  predicate OneLine(job: Job) {
    '\n' !in job.schedule && '\n' !in job.id && '\n' !in job.tag
  }

  predicate AllOneLine(jobs: seq<Job>) {
    forall i | 0 <= i < |jobs| :: OneLine(jobs[i])
  }

  predicate NoReturn(job: Job) {
    '\r' !in job.schedule && '\r' !in job.id && '\r' !in job.tag
  }

  predicate AllNoReturn(jobs: seq<Job>) {
    forall i | 0 <= i < |jobs| :: NoReturn(jobs[i])
  }

  /** A job that a sync accepts, blocklists apart, and that holds no carriage return. */
  predicate Sound(job: Job) {
    NoReturn(job) && ValidSchedule(job.schedule) && job.command != "" && Clean(job.command)
  }

  predicate AllSound(jobs: seq<Job>) {
    forall i | 0 <= i < |jobs| :: Sound(jobs[i])
  }

  function Spaces(s: string): nat {
    if s == "" then 0 else if s[0] == ' ' then 1 + Spaces(s[1..]) else Spaces(s[1..])
  }

  /** What the job list shows as it is: no marker in the command, no whitespace around the parts, no space in the id. */
  predicate Listable(job: Job) {
    && Unmanaged(job.command) && Trimmed(job.schedule + " " + job.command)
    && ' ' !in job.id && Trimmed(job.tag)
  }

  /** What the export reads as it is: a schedule with exactly four spaces besides. */
  predicate Readable(job: Job) {
    Listable(job) && Spaces(job.schedule) == 4
  }

  lemma {:induction false} WordsCover(s: string, c: char)
    requires c in s && !IsSpace(c)
    ensures exists i | 0 <= i < |Words(s)| :: c in Words(s)[i]
    decreases |s|
  {
    var t := TrimStart(s);
    InTrimStart(s, c);
    var w := Word(t);
    assert t == w + t[|w|..];
    assert Words(s) == [w] + Words(t[|w|..]);
    if c in w {
      assert c in Words(s)[0];
    } else {
      assert c in t[|w|..];
      WordsCover(t[|w|..], c);
      var i :| 0 <= i < |Words(t[|w|..])| && c in Words(t[|w|..])[i];
      assert Words(s)[i + 1] == Words(t[|w|..])[i];
    }
  }

  lemma {:induction false} InTrimStart(s: string, c: char)
    requires c in s && !IsSpace(c)
    ensures c in TrimStart(s)
  {
    if IsSpace(s[0]) {
      assert s == [s[0]] + s[1..];
      InTrimStart(s[1..], c);
    }
  }

  lemma WordsLack(s: string, c: char)
    requires !IsSpace(c) && forall i | 0 <= i < |Words(s)| :: c !in Words(s)[i]
    ensures c !in s
  {
    if c in s {
      WordsCover(s, c);
    }
  }

  /** A valid schedule is not empty and holds no marker. */
  lemma ScheduleIsPlain(schedule: string)
    requires ValidSchedule(schedule)
    ensures '#' !in schedule && schedule != ""
  {
    assert !IsSpace('#') && !ScheduleChar('#');
    var words := Words(schedule);
    forall i | 0 <= i < |words|
      ensures '#' !in words[i]
    {
      assert forall k | 0 <= k < |words[i]| :: ScheduleChar(words[i][k]);
    }
    WordsLack(schedule, '#');
  }

  // ---- A job's own line --------------------------------------------------------------------

  function Before(job: Job): string {
    job.schedule + " " + job.command
  }

  lemma LineForm(job: Job)
    ensures CronLine(job) == (Before(job) + " ") + (MARKER + (job.id + " " + job.tag))
    ensures |Before(job) + " "| == |job.schedule| + |job.command| + 2
  {
  }

  lemma MarkerHere(before: string, after: string)
    ensures OccursAt(before + (MARKER + after), MARKER, |before|)
  {
    assert (before + (MARKER + after))[|before|..] == MARKER + after;
  }

  /** No occurrence of the marker starts before the job's own. */
  lemma EarlyMarker(job: Job, j: nat)
    requires '#' !in job.schedule && Unmanaged(job.command)
    requires j < |job.schedule| + 1 + |job.command| + 1
    ensures !OccursAt(CronLine(job), MARKER, j)
  {
    var line, n := CronLine(job), |job.schedule| + 1;
    var pos := n + |job.command| + 1;
    assert line == (job.schedule + " ") + (job.command + (" " + MARKER + job.id + " " + job.tag));
    assert line[pos] == '#' && line[pos - 1] == ' ';
    if j < n {
      assert line[j] == (job.schedule + " ")[j];
      assert line[j..][0] == line[j] != '#';
    } else if j + |MARKER| <= pos - 1 {
      assert line[j..][..|MARKER|] == job.command[j - n..][..|MARKER|];
      assert !OccursAt(job.command, MARKER, j - n);
    } else {
      assert line[j..][pos - 1 - j] == ' ' && line[j..][pos - j] == '#';
    }
  }

  /** The marker of a job's line is found where it was put. */
  lemma MarkerFound(job: Job)
    requires '#' !in job.schedule && Unmanaged(job.command)
    ensures Find(CronLine(job), MARKER) == Some(|Before(job) + " "|)
  {
    hide *;
    var before, after := Before(job) + " ", job.id + " " + job.tag;
    LineForm(job);
    forall j | 0 <= j < |before|
      ensures !OccursAt(CronLine(job), MARKER, j)
    {
      EarlyMarker(job, j);
    }
    MarkerHere(before, after);
    FindIs(CronLine(job), MARKER, |before|);
  }

  lemma LaterOccurrence(a: string, b: string, c: string, m: nat)
    requires OccursAt(b, MARKER, m)
    ensures OccursAt(a + (b + c), MARKER, |a| + m) && m + |MARKER| <= |b|
  {
    assert (a + (b + c))[|a| + m..] == b[m..] + c;
  }

  lemma FoundBy(line: string, i: nat)
    requires OccursAt(line, MARKER, i)
    ensures Find(line, MARKER).Some? && Find(line, MARKER).value <= i
  {
  }

  /** A marker in the command is found first. */
  lemma MarkerEarlier(job: Job)
    requires !Unmanaged(job.command)
    ensures Find(CronLine(job), MARKER).Some? && Find(CronLine(job), MARKER).value < |Before(job)|
  {
    var m :| 0 <= m <= |job.command| && OccursAt(job.command, MARKER, m);
    var a, c := job.schedule + " ", " " + MARKER + job.id + " " + job.tag;
    assert CronLine(job) == a + (job.command + c) && |MARKER| > 0;
    assert |Before(job)| == |a| + |job.command|;
    hide *;
    LaterOccurrence(a, job.command, c, m);
    FoundBy(CronLine(job), |a| + m);
  }

  lemma LineIsManaged(job: Job)
    ensures !Unmanaged(CronLine(job))
  {
    hide CronLine, Before;
    LineForm(job);
    MarkerHere(Before(job) + " ", job.id + " " + job.tag);
  }

  lemma SplitLineIs(line: string, before: string, after: string)
    requires Find(line, MARKER) == Some(|before|) && line == before + (MARKER + after)
    ensures SplitLine(line) ==
              match Find(after, " ")
              case Some(p) => Some(Parts(Trim(before), after[..p], Trim(after[p + 1..])))
              case None => Some(Parts(Trim(before), Trim(after), ""))
  {
    hide Find, Trim;
    assert line[..|before|] == before && line[|before| + |MARKER|..] == after;
  }

  lemma FindSpace(a: string, b: string)
    requires ' ' !in a
    ensures Find(a + " " + b, " ") == Some(|a|)
  {
    var s := a + " " + b;
    assert s[|a|..] == " " + b;
    forall j | 0 <= j < |a|
      ensures !OccursAt(s, " ", j)
    {
      assert s[j..][0] == a[j];
      assert a[j] in a;
    }
    FindIs(s, " ", |a|);
  }

  lemma FindEarlierSpace(a: string, b: string)
    requires ' ' in a
    ensures Find(a + " " + b, " ").Some? && Find(a + " " + b, " ").value < |a|
  {
    var k :| 0 <= k < |a| && a[k] == ' ';
    assert (a + " " + b)[k..][0] == ' ';
    assert OccursAt(a + " " + b, " ", k);
  }

  lemma TrimPaddedExactly(s: string)
    ensures Trim(s + " ") == s <==> Trimmed(s)
  {
    if Trimmed(s) {
      TrimPaddedEnd(s);
    }
  }

  lemma TrimExactly(s: string)
    ensures Trim(s) == s <==> Trimmed(s)
  {
    if Trimmed(s) {
      TrimOfTrimmed(s);
    }
  }

  lemma {:induction false} TrimNoLonger(s: string)
    ensures |Trim(s)| <= |s|
  {
  }

  /** The job list shows a job as it is if and only if it is listable. */
  lemma {:induction false} ListExactly(job: Job)
    requires ValidSchedule(job.schedule)
    ensures SplitLine(CronLine(job)) == Some(Parts(Before(job), job.id, job.tag)) <==> Listable(job)
  {
    ScheduleIsPlain(job.schedule);
    var line, before, after := CronLine(job), Before(job) + " ", job.id + " " + job.tag;
    LineForm(job);
    if Unmanaged(job.command) {
      MarkerFound(job);
      TrimPaddedExactly(Before(job));
      TrimExactly(job.tag);
      assert Trimmed(Before(job)) <==> Trimmed(job.schedule + " " + job.command);
      hide *;
      SplitLineIs(line, before, after);
      AfterMarkerExactly(job.id, job.tag);
      ListableIs(job);
    } else {
      MarkerEarlier(job);
      hide ValidSchedule, CronLine, Before, Find, Trim, Contains, Trimmed;
      TrimNoLonger(line[..Find(line, MARKER).value]);
    }
  }

  lemma ListableIs(job: Job)
    ensures Listable(job) <==>
              Unmanaged(job.command) && Trimmed(job.schedule + " " + job.command) && ' ' !in job.id && Trimmed(job.tag)
  {
  }

  /** Id and label come back if and only if the id has no space and the label no whitespace around it. */
  lemma AfterMarkerExactly(id: string, tag: string)
    ensures var p := Find(id + " " + tag, " ");
            && p.Some? && p.value <= |id|
            && (((id + " " + tag)[..p.value] == id && Trim((id + " " + tag)[p.value + 1..]) == tag)
                <==> (' ' !in id && Trim(tag) == tag))
  {
    var after := id + " " + tag;
    if ' ' in id {
      FindEarlierSpace(id, tag);
    } else {
      FindSpace(id, tag);
      assert after[..|id|] == id && after[|id| + 1..] == tag;
    }
  }

  // ---- Schedule and command apart ---------------------------------------------------------------

  lemma {:induction false} SpacesAppend(a: string, b: string)
    ensures Spaces(a + b) == Spaces(a) + Spaces(b)
  {
    if a == "" {
      assert a + b == b;
    } else {
      assert (a + b)[1..] == a[1..] + b;
      SpacesAppend(a[1..], b);
    }
  }

  lemma {:induction false} NoSpaces(s: string)
    ensures Spaces(s) == 0 <==> ' ' !in s
  {
    if s == "" {
    } else {
      assert s == [s[0]] + s[1..];
      NoSpaces(s[1..]);
    }
  }

  /** A text is a first part without spaces, or one before its first space. */
  lemma FirstSpace(s: string) returns (a: string, b: string)
    requires ' ' in s
    ensures ' ' !in a && s == a + " " + b
  {
    var i := 0;
    while s[i] != ' '
      invariant 0 <= i < |s| && ' ' !in s[..i] && ' ' in s[i..]
      decreases |s| - i
    {
      i := i + 1;
    }
    a, b := s[..i], s[i + 1..];
    assert s == s[..i] + [s[i]] + s[i + 1..];
  }

  lemma SplitNStep(a: string, b: string, n: nat)
    requires ' ' !in a && n > 1
    ensures SplitN(a + " " + b, n) == [a] + SplitN(b, n - 1)
  {
    var s := a + " " + b;
    FindSpace(a, b);
    assert s[..|a|] == a && s[|a| + 1..] == b;
  }

  lemma SplitNLast(s: string, n: nat)
    requires n > 0 && (n == 1 || ' ' !in s)
    ensures SplitN(s, n) == [s]
  {
    if n > 1 {
      NotContainsChar(s, " ", 0);
    }
  }

  /** Splitting is undone by joining, and all parts but the last are free of spaces. */
  lemma {:induction false} SplitNParts(s: string, n: nat)
    requires n > 0
    ensures var parts := SplitN(s, n);
            && 0 < |parts| <= n && Join(parts, " ") == s
            && forall i | 0 <= i < |parts| - 1 :: ' ' !in parts[i]
    decreases n
  {
    hide Find, SplitN, Join;
    if n > 1 && ' ' in s {
      var a, b := FirstSpace(s);
      SplitNStep(a, b, n);
      SplitNParts(b, n - 1);
      JoinFirst(a, SplitN(b, n - 1), " ");
    } else {
      SplitNLast(s, n);
      JoinSingle(s);
    }
  }

  lemma JoinSingle(a: string)
    ensures Join([a], " ") == a
  {
  }

  lemma {:induction false} JoinSnoc(parts: seq<string>, last: string)
    requires parts != []
    ensures Join(parts + [last], " ") == Join(parts, " ") + " " + last
  {
    if |parts| == 1 {
      assert parts == [parts[0]];
      JoinFirst(parts[0], [last], " ");
      JoinSingle(last);
    } else {
      JoinSnoc(parts[1..], last);
      hide Join;
      assert parts == [parts[0]] + parts[1..];
      assert parts + [last] == [parts[0]] + (parts[1..] + [last]);
      JoinFirst(parts[0], parts[1..] + [last], " ");
      JoinFirst(parts[0], parts[1..], " ");
    }
  }

  lemma {:induction false} SpacesJoin(parts: seq<string>)
    requires parts != [] && forall i | 0 <= i < |parts| :: ' ' !in parts[i]
    ensures Spaces(Join(parts, " ")) == |parts| - 1
  {
    NoSpaces(parts[0]);
    if |parts| == 1 {
      assert parts == [parts[0]];
      JoinSingle(parts[0]);
    } else {
      SpacesJoin(parts[1..]);
      assert parts == [parts[0]] + parts[1..];
      hide Join;
      JoinFirst(parts[0], parts[1..], " ");
      SpacesAppend(parts[0] + " ", Join(parts[1..], " "));
      SpacesAppend(parts[0], " ");
      assert Spaces(" ") == 1 + Spaces("");
    }
  }

  /** A text with n spaces, cut at its own spaces and the next one. */
  lemma {:induction false} SplitNSpaces(s: string, rest: string)
    ensures SplitN(s + " " + rest, Spaces(s) + 2) == SplitN(s, Spaces(s) + 1) + [rest]
    ensures |SplitN(s, Spaces(s) + 1)| == Spaces(s) + 1
    decreases |s|
  {
    NoSpaces(s);
    hide Find, SplitN;
    if ' ' in s {
      var a, b := FirstSpace(s);
      NoSpaces(a);
      SpacesAppend(a + " ", b);
      SpacesAppend(a, " ");
      assert Spaces(" ") == 1 + Spaces("");
      SplitNSpaces(b, rest);
      SplitNStep(a, b, Spaces(s) + 1);
      SplitNStep(a, b + " " + rest, Spaces(s) + 2);
      assert s + " " + rest == a + " " + (b + " " + rest);
    } else {
      SplitNLast(s, 1);
      SplitNStep(s, rest, 2);
      SplitNLast(rest, 1);
    }
  }

  lemma ComesApart(schedule: string, command: string)
    requires Spaces(schedule) == 4
    ensures SplitN(schedule + " " + command, 6) == SplitN(schedule, 5) + [command]
    ensures |SplitN(schedule, 5)| == 5 && Join(SplitN(schedule, 5), " ") == schedule
  {
    SplitNSpaces(schedule, command);
    SplitNParts(schedule, 5);
  }

  lemma CameFrom(parts: seq<string>)
    requires |parts| == 6 && forall i | 0 <= i < 5 :: ' ' !in parts[i]
    ensures Join(parts, " ") == Join(parts[..5], " ") + " " + parts[5]
    ensures Spaces(Join(parts[..5], " ")) == 4
  {
    assert parts == parts[..5] + [parts[5]];
    JoinSnoc(parts[..5], parts[5]);
    SpacesJoin(parts[..5]);
  }

  /**
   A text comes apart into schedule and command if and only if it is made of them and the schedule has four
   spaces.
   */
  lemma CommandExactly(schedule: string, command: string, before: string)
    ensures var parts := SplitN(before, 6);
            (|parts| >= 6 && Join(parts[..5], " ") == schedule && parts[5] == command)
              <==> (before == schedule + " " + command && Spaces(schedule) == 4)
  {
    hide *;
    var parts := SplitN(before, 6);
    SplitNParts(before, 6);
    if |parts| == 6 {
      CameFrom(parts);
    }
    if before == schedule + " " + command && Spaces(schedule) == 4 {
      ComesApart(schedule, command);
      assert parts[..5] == SplitN(schedule, 5);
    }
  }

  /** The export reads a job's line as that job if and only if it is readable. */
  lemma {:induction false} ExportExactly(job: Job)
    requires ValidSchedule(job.schedule)
    ensures ExportLine(CronLine(job)) == Some(job) <==> Readable(job)
  {
    ListExactly(job);
    var split := SplitLine(CronLine(job));
    if split.Some? {
      CommandExactly(job.schedule, job.command, split.value.before);
    }
    hide SplitLine, SplitN, Join, Spaces, CronLine, Listable, ValidSchedule;
    assert Before(job) == job.schedule + " " + job.command;
  }

  // ---- Reading back ------------------------------------------------------------------------

  function ListedJobs(jobs: seq<Job>): (r: seq<Parts>)
    ensures |r| == |jobs| && forall i | 0 <= i < |jobs| :: r[i] == Parts(Before(jobs[i]), jobs[i].id, jobs[i].tag)
  {
    if jobs == [] then [] else [Parts(Before(jobs[0]), jobs[0].id, jobs[0].tag)] + ListedJobs(jobs[1..])
  }

  predicate AllListable(jobs: seq<Job>) {
    forall i | 0 <= i < |jobs| :: Listable(jobs[i])
  }

  predicate AllReadable(jobs: seq<Job>) {
    forall i | 0 <= i < |jobs| :: Readable(jobs[i])
  }

  lemma ListLinesStep(line: string, ls: seq<string>)
    ensures ListLines([line] + ls) == (match SplitLine(line) { case None => [] case Some(p) => [p] }) + ListLines(ls)
  {
    hide SplitLine;
    assert ([line] + ls)[1..] == ls;
  }

  lemma ExportLinesStep(line: string, ls: seq<string>)
    ensures ExportLines([line] + ls) ==
            (match ExportLine(line) { case None => [] case Some(j) => [j] }) + ExportLines(ls)
  {
    hide ExportLine;
    assert ([line] + ls)[1..] == ls;
  }

  /** The readers see managed lines only. */
  lemma {:induction false} ReadersOfManaged(ls: seq<string>)
    ensures ListLines(ls) == ListLines(Filter(Managed, ls)) && ExportLines(ls) == ExportLines(Filter(Managed, ls))
  {
    if ls == [] {
    } else {
      hide *;
      var line, rest := ls[0], ls[1..];
      assert ls == [line] + rest;
      ReadersOfManaged(rest);
      FilterStep(Managed, line, rest);
      ListLinesStep(line, rest);
      ExportLinesStep(line, rest);
      if Managed(line) {
        ListLinesStep(line, Filter(Managed, rest));
        ExportLinesStep(line, Filter(Managed, rest));
      } else {
        UnmanagedIsNot(line);
        UnmanagedSkipped(line);
        NoFurther(ListLines(rest));
        NoFurther(ExportLines(rest));
      }
    }
  }

  lemma UnmanagedIsNot(line: string)
    ensures Unmanaged(line) <==> !Managed(line)
  {
  }

  lemma UnmanagedSkipped(line: string)
    requires Unmanaged(line)
    ensures SplitLine(line) == None && ExportLine(line) == None
  {
  }

  lemma ReadersStep(jobs: seq<Job>)
    requires jobs != []
    ensures var ls := CronLines(jobs[1..]);
            && ListLines(CronLines(jobs)) ==
               (match SplitLine(CronLine(jobs[0])) { case None => [] case Some(p) => [p] }) + ListLines(ls)
            && ExportLines(CronLines(jobs)) ==
               (match ExportLine(CronLine(jobs[0])) { case None => [] case Some(j) => [j] }) + ExportLines(ls)
    ensures ListedJobs(jobs) == [Parts(Before(jobs[0]), jobs[0].id, jobs[0].tag)] + ListedJobs(jobs[1..])
  {
    hide SplitLine, ExportLine, CronLine, Before;
    assert CronLines(jobs) == [CronLine(jobs[0])] + CronLines(jobs[1..]);
  }

  lemma {:induction false} ReadersRead(jobs: seq<Job>)
    requires AllSound(jobs)
    ensures |ListLines(CronLines(jobs))| <= |jobs| && |ExportLines(CronLines(jobs))| <= |jobs|
    ensures ListLines(CronLines(jobs)) == ListedJobs(jobs) <==> AllListable(jobs)
    ensures ExportLines(CronLines(jobs)) == jobs <==> AllReadable(jobs)
  {
    hide *;
    if jobs == [] {
      NothingRead();
    } else {
      FirstSound(jobs);
      var job, ls := jobs[0], CronLines(jobs[1..]);
      ListExactly(job);
      ExportExactly(job);
      ReadersRead(jobs[1..]);
      AllCons(jobs);
      ReadersStep(jobs);
      OneMore(SplitLine(CronLine(job)), ListLines(ls), Parts(Before(job), job.id, job.tag), ListedJobs(jobs[1..]));
      OneMore(ExportLine(CronLine(job)), ExportLines(ls), job, jobs[1..]);
      assert jobs == [job] + jobs[1..];
    }
  }

  lemma NothingRead()
    ensures ListLines(CronLines([])) == [] == ListedJobs([]) && ExportLines(CronLines([])) == []
    ensures AllListable([]) && AllReadable([])
  {
  }

  lemma FirstSound(jobs: seq<Job>)
    requires jobs != [] && AllSound(jobs)
    ensures ValidSchedule(jobs[0].schedule) && AllSound(jobs[1..])
  {
    assert Sound(jobs[0]);
  }

  lemma AllCons(jobs: seq<Job>)
    requires jobs != []
    ensures AllListable(jobs) <==> Listable(jobs[0]) && AllListable(jobs[1..])
    ensures AllReadable(jobs) <==> Readable(jobs[0]) && AllReadable(jobs[1..])
  {
    hide Listable, Readable;
    assert forall i | 1 <= i < |jobs| :: jobs[i] == jobs[1..][i - 1];
  }

  predicate NoBreak(p: Parts) {
    '\n' !in p.before && '\n' !in p.id && '\n' !in p.tag
  }

  lemma Around(line: string, pos: nat)
    requires OccursAt(line, MARKER, pos)
    ensures pos + |MARKER| <= |line| && line == line[..pos] + (MARKER + line[pos + |MARKER|..])
  {
    hide Find;
    assert line[pos..] == MARKER + line[pos + |MARKER|..];
  }

  /** A managed line is a text, the marker and another text. */
  lemma AroundMarker(line: string) returns (before: string, after: string)
    requires Find(line, MARKER).Some?
    ensures Find(line, MARKER) == Some(|before|) && line == before + (MARKER + after)
  {
    hide *;
    var pos := Find(line, MARKER).value;
    Around(line, pos);
    before, after := line[..pos], line[pos + |MARKER|..];
  }

  lemma SplitNoBreak(line: string)
    requires '\n' !in line && SplitLine(line).Some?
    ensures NoBreak(SplitLine(line).value)
  {
    assert Find(line, MARKER).Some?;
    hide SplitLine, Find, Trim;
    var before, after := AroundMarker(line);
    assert line[..|before|] == before && line[|before| + |MARKER|..] == after;
    SplitLineIs(line, before, after);
    TrimWithin(before, '\n');
    AfterNoBreak(after);
  }

  lemma AfterNoBreak(after: string)
    requires '\n' !in after
    ensures match Find(after, " ")
            case Some(p) => '\n' !in after[..p] && '\n' !in Trim(after[p + 1..])
            case None => '\n' !in Trim(after)
  {
    hide Trim;
    match Find(after, " ") {
      case Some(p) => TrimWithin(after[p + 1..], '\n');
      case None => TrimWithin(after, '\n');
    }
  }

  lemma ExportNoBreak(line: string)
    requires '\n' !in line && ExportLine(line).Some?
    ensures OneLine(ExportLine(line).value) && '\n' !in ExportLine(line).value.command
  {
    SplitNoBreak(line);
    var before := SplitLine(line).value.before;
    SplitNParts(before, 6);
    CameFrom(SplitN(before, 6));
    hide SplitLine, SplitN, Join;
    var parts := SplitN(before, 6);
    assert before == Join(parts[..5], " ") + " " + parts[5];
  }

  /** Whatever the lines of a crontab, nothing that is read from them holds a line feed. */
  lemma {:induction false} ReadersNoBreak(ls: seq<string>)
    requires forall i | 0 <= i < |ls| :: '\n' !in ls[i]
    ensures AllOneLine(ExportLines(ls))
    ensures forall i | 0 <= i < |ListLines(ls)| :: NoBreak(ListLines(ls)[i])
  {
    if ls == [] {
    } else {
      ReadersNoBreak(ls[1..]);
      ListNoBreak(ls);
      ExportsNoBreak(ls);
    }
  }

  lemma ListNoBreak(ls: seq<string>)
    requires ls != [] && '\n' !in ls[0]
    requires forall i | 0 <= i < |ListLines(ls[1..])| :: NoBreak(ListLines(ls[1..])[i])
    ensures forall i | 0 <= i < |ListLines(ls)| :: NoBreak(ListLines(ls)[i])
  {
    hide *;
    ListLinesStep(ls[0], ls[1..]);
    assert ls == [ls[0]] + ls[1..];
    if SplitLine(ls[0]).Some? {
      SplitNoBreak(ls[0]);
    }
  }

  lemma ExportsNoBreak(ls: seq<string>)
    requires ls != [] && '\n' !in ls[0] && AllOneLine(ExportLines(ls[1..]))
    ensures AllOneLine(ExportLines(ls))
  {
    hide *;
    ExportLinesStep(ls[0], ls[1..]);
    assert ls == [ls[0]] + ls[1..];
    if ExportLine(ls[0]).Some? {
      ExportNoBreak(ls[0]);
      OneLineCons(ExportLine(ls[0]).value, ExportLines(ls[1..]));
    } else {
      NoFurther(ExportLines(ls[1..]));
    }
  }

  lemma OneLineCons(job: Job, jobs: seq<Job>)
    requires OneLine(job) && AllOneLine(jobs)
    ensures AllOneLine([job] + jobs)
  {
    hide OneLine;
  }

  lemma ListedBreaks(jobs: seq<Job>)
    requires !AllOneLine(jobs)
    ensures exists i | 0 <= i < |ListedJobs(jobs)| :: !NoBreak(ListedJobs(jobs)[i])
  {
    var i :| 0 <= i < |jobs| && !OneLine(jobs[i]);
    assert !NoBreak(ListedJobs(jobs)[i]);
  }

  lemma AllCleanIndexed(ls: seq<string>)
    requires AllClean(ls)
    ensures forall i | 0 <= i < |ls| :: '\n' !in ls[i]
  {
    forall i | 0 <= i < |ls|
      ensures '\n' !in ls[i]
    {
      assert Clean(ls[i]);
    }
  }

  /**
   The export reader returns exactly the jobs, in order, if and only if all are readable and on one line each; the
   job list shows them as they are if and only if all are listable and on one line each. It is enough that the
   managed lines are those of the jobs in the latter case.
   */
  lemma ReadBack(ls: seq<string>, jobs: seq<Job>)
    requires AllClean(ls) && AllSound(jobs)
    requires AllOneLine(jobs) ==> Filter(Managed, ls) == CronLines(jobs)
    ensures ExportLines(ls) == jobs <==> AllReadable(jobs) && AllOneLine(jobs)
    ensures ListLines(ls) == ListedJobs(jobs) <==> AllListable(jobs) && AllOneLine(jobs)
  {
    ReadersOfManaged(ls);
    hide *;
    if AllOneLine(jobs) {
      ReadersRead(jobs);
    } else {
      AllCleanIndexed(ls);
      ReadersNoBreak(ls);
      ListedBreaks(jobs);
    }
  }

  // ---- The lines that jobs are written on --------------------------------------------------------

  /** The lines of a job's text: one, unless its schedule, id or label holds a line feed. */
  function Pieces(job: Job): seq<string> {
    Lines(CronLine(job) + "\n")
  }

  /** Lines of a job that hold no marker, so that the next sync takes them for the administrator's. */
  function Strays(job: Job): seq<string> {
    Filter(Unmanaged, Pieces(job))
  }

  function MarkedLines(job: Job): seq<string> {
    Filter(Managed, Pieces(job))
  }

  function AllPieces(jobs: seq<Job>): seq<string> {
    if jobs == [] then [] else Pieces(jobs[0]) + AllPieces(jobs[1..])
  }

  function AllStrays(jobs: seq<Job>): seq<string> {
    if jobs == [] then [] else Strays(jobs[0]) + AllStrays(jobs[1..])
  }

  function AllMarked(jobs: seq<Job>): seq<string> {
    if jobs == [] then [] else MarkedLines(jobs[0]) + AllMarked(jobs[1..])
  }

  lemma {:induction false} PiecesProject(jobs: seq<Job>)
    ensures Filter(Unmanaged, AllPieces(jobs)) == AllStrays(jobs) && Filter(Managed, AllPieces(jobs)) == AllMarked(jobs)
  {
    if jobs == [] {
    } else {
      PiecesProject(jobs[1..]);
      FilterAppend(Unmanaged, Pieces(jobs[0]), AllPieces(jobs[1..]));
      FilterAppend(Managed, Pieces(jobs[0]), AllPieces(jobs[1..]));
      hide Pieces, Managed, Unmanaged, Filter;
    }
  }

  lemma NoReturnInLine(job: Job)
    requires Sound(job)
    ensures '\r' !in CronLine(job) + "\n"
    ensures OneLine(job) <==> '\n' !in CronLine(job)
  {
    assert Clean(MARKER) && Clean(" ");
    hide ValidSchedule;
  }

  lemma PiecesClean(job: Job)
    requires Sound(job)
    ensures AllClean(Pieces(job))
  {
    NoReturnInLine(job);
    hide CronLine;
    LinesClean(CronLine(job) + "\n");
  }

  lemma OnePiece(job: Job)
    requires Sound(job) && OneLine(job)
    ensures Pieces(job) == [CronLine(job)] && MarkedLines(job) == [CronLine(job)] && Strays(job) == []
  {
    NoReturnInLine(job);
    LineIsManaged(job);
    hide CronLine;
    var line := CronLine(job);
    LinesCons(line, "");
    assert line + "\n" == line + "\n" + "" && StripCr(line) == line;
    assert Pieces(job) == [line];
    hide Contains;
    assert Filter(Managed, [line][1..]) == [] && Filter(Unmanaged, [line][1..]) == [];
  }

  /** Every job has at least one line with a marker. */
  lemma SomeMarked(job: Job)
    requires Sound(job)
    ensures MarkedLines(job) != []
  {
    NoReturnInLine(job);
    LineForm(job);
    var text := CronLine(job) + "\n";
    assert text == (Before(job) + " ") + MARKER + (job.id + " " + job.tag + "\n");
    hide *;
    ContainsAround(Before(job) + " ", MARKER, job.id + " " + job.tag + "\n");
    LineEnds(CronLine(job));
    UnlinesOfLines(text);
    MarkerPlain();
    ContainsUnlines(Lines(text), MARKER);
    var i :| 0 <= i < |Lines(text)| && Contains(Lines(text)[i], MARKER);
    FilterFinds(Lines(text), i);
    MarkedLinesAre(job);
  }

  lemma MarkedLinesAre(job: Job)
    ensures MarkedLines(job) == Filter(Managed, Lines(CronLine(job) + "\n"))
  {
  }

  lemma MarkerPlain()
    ensures MARKER != [] && '\n' !in MARKER
  {
  }

  lemma {:induction false} FilterFinds(ls: seq<string>, i: nat)
    requires i < |ls| && Contains(ls[i], MARKER)
    ensures Filter(Managed, ls) != []
  {
    if i == 0 {
    } else {
      FilterFinds(ls[1..], i - 1);
    }
  }

  lemma {:induction false} OnePieceEach(jobs: seq<Job>)
    requires AllSound(jobs) && AllOneLine(jobs)
    ensures AllMarked(jobs) == CronLines(jobs) && AllStrays(jobs) == []
  {
    if jobs == [] {
    } else {
      assert Sound(jobs[0]) && OneLine(jobs[0]);
      OnePiece(jobs[0]);
      OnePieceEach(jobs[1..]);
      hide Sound, OneLine, CronLine, MarkedLines, Strays;
    }
  }

  lemma {:induction false} AllPiecesClean(jobs: seq<Job>)
    requires AllSound(jobs)
    ensures AllClean(AllPieces(jobs))
  {
    if jobs == [] {
    } else {
      assert Sound(jobs[0]);
      PiecesClean(jobs[0]);
      AllPiecesClean(jobs[1..]);
      hide Sound, Pieces, Clean;
    }
  }

  lemma {:induction false} LinesOfCronLines(jobs: seq<Job>)
    ensures Lines(Unlines(CronLines(jobs))) == AllPieces(jobs)
  {
    if jobs == [] {
    } else {
      var line := CronLine(jobs[0]);
      LinesOfCronLines(jobs[1..]);
      LineEnds(line);
      assert CronLines(jobs)[1..] == CronLines(jobs[1..]);
      hide Lines, CronLine, Terminated;
      LinesAppend(line + "\n", Unlines(CronLines(jobs[1..])));
    }
  }

  // ---- Sync ------------------------------------------------------------------------------------

  /** An empty crontab is installed as one blank line. */
  function OrBlank(foreign: seq<string>, nothing: bool): seq<string> {
    if foreign == [] && nothing then [""] else foreign
  }

  lemma InstalledNothing()
    ensures Installed([]) == "\n" && Lines("\n") == [""] && Unmanaged("")
    ensures Filter(Unmanaged, [""]) == [""] && Filter(Managed, [""]) == []
  {
    LinesCons("", "");
    assert "\n" == "" + "\n" + "";
    NotContainsChar("", MARKER, 0);
    hide Contains;
    assert [""][1..] == [];
  }

  lemma InstalledSome(foreign: seq<string>, jobs: seq<Job>)
    requires AllClean(foreign) && foreign + CronLines(jobs) != []
    ensures Installed(foreign + CronLines(jobs)) == Unlines(foreign) + Unlines(CronLines(jobs))
    ensures Lines(Installed(foreign + CronLines(jobs))) == foreign + AllPieces(jobs)
  {
    JoinThenNewline(foreign + CronLines(jobs));
    hide CronLine, Lines, Join, Clean;
    UnlinesAppend(foreign, CronLines(jobs));
    LinesAppend(Unlines(foreign), Unlines(CronLines(jobs)));
    LinesOfUnlines(foreign);
    LinesOfCronLines(jobs);
  }

  /** The lines of an installed crontab. */
  lemma InstalledLines(foreign: seq<string>, jobs: seq<Job>)
    requires AllClean(foreign)
    ensures Lines(Installed(foreign + CronLines(jobs))) == OrBlank(foreign, jobs == []) + AllPieces(jobs)
  {
    if foreign + CronLines(jobs) == [] {
      assert foreign + CronLines(jobs) == [] && jobs == [] && foreign == [];
      InstalledNothing();
      hide Lines, Installed;
      assert [""] + AllPieces([]) == [""];
    } else {
      InstalledSome(foreign, jobs);
    }
  }

  lemma ForeignClean(text: string)
    requires '\r' !in text
    ensures AllClean(Foreign(text)) && forall l <- Foreign(text) :: Unmanaged(l)
  {
    LinesClean(text);
  }

  lemma {:induction false} AcceptedSound(jobs: seq<Job>, allowed: string -> bool)
    requires AllNoReturn(jobs) && FirstError(jobs, allowed) == None
    ensures AllSound(jobs)
  {
    if jobs == [] {
    } else {
      AcceptedSound(jobs[1..], allowed);
      CheckExactly(jobs[0], allowed);
      assert Sound(jobs[0]);
      hide Sound, NoReturn, Check;
      assert forall i | 1 <= i < |jobs| :: jobs[i] == jobs[1..][i - 1];
    }
  }

  lemma NotManaged(ls: seq<string>)
    requires forall l <- ls :: Unmanaged(l)
    ensures Filter(Managed, ls) == [] && Filter(Unmanaged, ls) == ls
  {
    FilterNone(Managed, ls);
    FilterAll(Unmanaged, ls);
  }

  lemma OrBlankUnmanaged(foreign: seq<string>, nothing: bool)
    requires AllClean(foreign) && forall l <- foreign :: Unmanaged(l)
    ensures AllClean(OrBlank(foreign, nothing)) && forall l <- OrBlank(foreign, nothing) :: Unmanaged(l)
  {
    InstalledNothing();
  }

  /** What an installed crontab holds: the administrator's lines and the jobs' strays, and the jobs' marked lines. */
  lemma InstalledHolds(foreign: seq<string>, jobs: seq<Job>)
    requires AllClean(foreign) && (forall l <- foreign :: Unmanaged(l)) && AllSound(jobs)
    ensures var ls := Lines(Installed(foreign + CronLines(jobs)));
            && AllClean(ls)
            && Filter(Unmanaged, ls) == OrBlank(foreign, jobs == []) + AllStrays(jobs)
            && Filter(Managed, ls) == AllMarked(jobs)
  {
    var kept, pieces := OrBlank(foreign, jobs == []), AllPieces(jobs);
    OrBlankUnmanaged(foreign, jobs == []);
    InstalledLines(foreign, jobs);
    AllPiecesClean(jobs);
    PiecesProject(jobs);
    NotManaged(kept);
    FilterAppend(Unmanaged, kept, pieces);
    FilterAppend(Managed, kept, pieces);
    hide Lines, Installed, Clean, Managed, Unmanaged, Sound, Filter, OrBlank, AllPieces, AllStrays, AllMarked;
    hide CronLines;
  }

  /**
   After any accepted sync the export returns the synced jobs if and only if all are readable and on one line
   each; the list shows them if and only if all are listable and on one line each; and what counts as the
   administrator's lines is those from before, in order, followed by the lines of jobs that hold no marker.
   */
  lemma SyncReadsBack(existing: string, jobs: seq<Job>, allowed: string -> bool)
    requires '\r' !in existing && AllNoReturn(jobs) && Sync(existing, jobs, allowed).Ok?
    ensures var text := Sync(existing, jobs, allowed).value;
            && (ReadEntries(text) == jobs <==> AllReadable(jobs) && AllOneLine(jobs))
            && (ListCrons(text) == ListedJobs(jobs) <==> AllListable(jobs) && AllOneLine(jobs))
            && Foreign(text) == OrBlank(Foreign(existing), jobs == []) + AllStrays(jobs)
  {
    var text := Sync(existing, jobs, allowed).value;
    ForeignClean(existing);
    AcceptedSound(jobs, allowed);
    InstalledHolds(Foreign(existing), jobs);
    if AllOneLine(jobs) {
      OnePieceEach(jobs);
    }
    assert ReadEntries(text) == ExportLines(Lines(text)) && ListCrons(text) == ListLines(Lines(text));
    assert text == Installed(Foreign(existing) + CronLines(jobs)) && Foreign(text) == Filter(Unmanaged, Lines(text));
    hide *;
    ReadBack(Lines(text), jobs);
  }

  lemma {:induction false} UnlinesLength(a: seq<string>, b: seq<string>)
    ensures |Unlines(a + b)| >= |Unlines(b)| + |a|
  {
    UnlinesAppend(a, b);
    UnlinesAtLeast(a);
  }

  lemma {:induction false} UnlinesAtLeast(a: seq<string>)
    ensures |Unlines(a)| >= |a|
  {
    if a == [] {
    } else {
      UnlinesAtLeast(a[1..]);
    }
  }

  lemma InstalledIs(ls: seq<string>)
    requires ls != []
    ensures Installed(ls) == Unlines(ls)
  {
    JoinThenNewline(ls);
  }

  lemma InstalledLonger(foreign: seq<string>, strays: seq<string>, ls: seq<string>)
    requires foreign + ls != []
    ensures Installed(foreign + strays + ls) == Installed(foreign + ls) <==> strays == []
  {
    hide *;
    assert foreign + strays + ls == foreign + (strays + ls);
    if strays == [] {
      NoFurther(ls);
    } else {
      InstalledIs(foreign + (strays + ls));
      InstalledIs(foreign + ls);
      UnlinesAppend(foreign, ls);
      UnlinesAppend(foreign, strays + ls);
      UnlinesLength(strays, ls);
    }
  }

  lemma SyncIs(existing: string, jobs: seq<Job>, allowed: string -> bool)
    requires Sync(existing, jobs, allowed).Ok?
    ensures forall text :: Sync(text, jobs, allowed) == Ok(Installed(Foreign(text) + CronLines(jobs)))
  {
    hide Foreign, CronLine, Installed;
  }

  lemma SameOrLonger(foreign: seq<string>, strays: seq<string>, ls: seq<string>)
    requires foreign + ls == [] ==> strays == []
    ensures (Installed(OrBlank(foreign, ls == []) + strays + ls) == Installed(foreign + ls)) <==> strays == []
  {
    if foreign + ls == [] {
      assert foreign + ls == [] && ls == [] && foreign == [];
      assert [""] + strays + ls == [""];
      BlankOrNothing();
    } else {
      hide Installed;
      InstalledLonger(foreign, strays, ls);
    }
  }

  /** Syncing the same jobs again writes the same crontab if and only if every line of the jobs holds the marker. */
  lemma SyncIdempotentExactly(existing: string, jobs: seq<Job>, allowed: string -> bool)
    requires '\r' !in existing && AllNoReturn(jobs) && Sync(existing, jobs, allowed).Ok?
    ensures (Sync(Sync(existing, jobs, allowed).value, jobs, allowed) == Sync(existing, jobs, allowed))
              <==> AllStrays(jobs) == []
  {
    NoStraysOfNone(jobs);
    hide *;
    SyncReadsBack(existing, jobs, allowed);
    SyncIs(existing, jobs, allowed);
    SameOrLonger(Foreign(existing), AllStrays(jobs), CronLines(jobs));
  }

  lemma NoStraysOfNone(jobs: seq<Job>)
    ensures jobs == [] ==> AllStrays(jobs) == []
    ensures CronLines(jobs) == [] <==> jobs == []
  {
    hide Strays;
  }

  lemma BlankOrNothing()
    ensures Installed([""]) == Installed([])
  {
  }

  /** The same jobs synced n times. */
  function SyncTimes(existing: string, jobs: seq<Job>, n: nat): string {
    if n == 0 then existing else Installed(Foreign(SyncTimes(existing, jobs, n - 1)) + CronLines(jobs))
  }

  function Times(ls: seq<string>, n: nat): seq<string> {
    if n == 0 then [] else Times(ls, n - 1) + ls
  }

  lemma StraysAgain(foreign: seq<string>, jobs: seq<Job>, text: string)
    requires AllClean(foreign) && (forall l <- foreign :: Unmanaged(l)) && AllSound(jobs) && jobs != []
    requires text == Installed(foreign + CronLines(jobs))
    ensures AllClean(Lines(text)) && Foreign(text) == foreign + AllStrays(jobs)
  {
    assert Foreign(text) == Filter(Unmanaged, Lines(text)) && OrBlank(foreign, jobs == []) == foreign;
    hide *;
    InstalledHolds(foreign, jobs);
  }

  /** Every further sync adds the strays once more. */
  lemma {:induction false} StraysPileUp(existing: string, jobs: seq<Job>, n: nat)
    requires '\r' !in existing && AllSound(jobs) && jobs != []
    ensures AllClean(Lines(SyncTimes(existing, jobs, n)))
    ensures Foreign(SyncTimes(existing, jobs, n)) == Foreign(existing) + Times(AllStrays(jobs), n)
  {
    hide Lines, Foreign, AllClean, Unmanaged, AllSound, Filter, AllStrays, CronLines, Installed;
    if n == 0 {
      LinesClean(existing);
      assert Times(AllStrays(jobs), 0) == [];
    } else {
      var before := SyncTimes(existing, jobs, n - 1);
      StraysPileUp(existing, jobs, n - 1);
      ForeignOfClean(before);
      StraysAgain(Foreign(before), jobs, SyncTimes(existing, jobs, n));
      hide *;
      TimesStep(AllStrays(jobs), n);
      Regrouped(Foreign(existing), Times(AllStrays(jobs), n - 1), AllStrays(jobs));
    }
  }

  lemma TimesStep(ls: seq<string>, n: nat)
    requires n > 0
    ensures Times(ls, n) == Times(ls, n - 1) + ls
  {
  }

  lemma Regrouped(a: seq<string>, b: seq<string>, c: seq<string>)
    ensures a + b + c == a + (b + c)
  {
  }

  lemma ForeignOfClean(text: string)
    requires AllClean(Lines(text))
    ensures AllClean(Foreign(text)) && forall l <- Foreign(text) :: Unmanaged(l)
  {
    hide Lines, Clean;
  }

  lemma TwoLines(a: string, b: string)
    requires Clean(a) && Clean(b)
    ensures Lines(a + "\n" + b + "\n") == [a, b]
  {
    assert StripCr(a) == a && StripCr(b) == b;
    assert a + "\n" + b + "\n" == a + "\n" + (b + "\n" + "");
    LinesCons(b, "");
    hide StripCr, Find;
    LinesCons(a, b + "\n" + "");
  }

  lemma SecondStrays(a: string, b: string)
    requires !Unmanaged(a) && Unmanaged(b)
    ensures Filter(Unmanaged, [a, b]) == [b]
  {
    hide *;
    assert [a, b] == [a] + ([b] + []);
    FilterStep(Unmanaged, a, [b] + []);
    FilterStep(Unmanaged, b, []);
    FilterEmpty();
  }

  lemma FilterEmpty()
    ensures Filter(Unmanaged, []) == []
  {
  }

  lemma BrokenLine(job: Job, first: string, second: string)
    requires job.tag == first + "\n" + second
    ensures CronLine(job) == CronLine(job.(tag := first)) + "\n" + second
  {
  }

  lemma CronLineClean(job: Job)
    requires Sound(job) && OneLine(job)
    ensures Clean(CronLine(job))
  {
    NoReturnInLine(job);
    hide CronLine;
  }

  /** A label with a line feed, of an otherwise plain job: its second line is a stray. */
  lemma BrokenLabel(job: Job, first: string, second: string)
    requires Sound(job) && '\n' !in job.schedule && '\n' !in job.id && job.tag == first + "\n" + second
    requires Clean(first) && Clean(second) && Unmanaged(second)
    ensures Strays(job) == [second]
  {
    var whole := job.(tag := first);
    assert Sound(whole) && OneLine(whole);
    assert Strays(job) == Filter(Unmanaged, Lines(CronLine(job) + "\n"));
    hide *;
    CronLineClean(whole);
    LineIsManaged(whole);
    BrokenLine(job, first, second);
    TwoLines(CronLine(whole), second);
    SecondStrays(CronLine(whole), second);
  }

  lemma StraysOfOne(job: Job)
    ensures AllStrays([job]) == Strays(job)
  {
    hide Strays;
    assert [job][1..] == [] && Strays(job) + [] == Strays(job);
  }

  lemma NextWord(w: string, rest: string)
    requires w != [] && NoSpace(w)
    ensures Words(w + " " + rest) == [w] + Words(rest)
  {
    assert w + " " + rest == w + (" " + rest);
    WordsStep(w, " " + rest);
    WordsSpace(' ', rest);
  }

  lemma LastWord(w: string)
    requires w != [] && NoSpace(w)
    ensures Words(w) == [w]
  {
    assert w + "" == w;
    WordsStep(w, "");
    hide Word, NoSpace;
    assert TrimStart("") == "" && Words("") == [];
  }

  /** Digits, asterisks, slashes, minus signs and commas. */
  predicate FieldCode(c: char) {
    48 <= c as int <= 57 || c as int in {42, 44, 45, 47}
  }

  predicate Field(w: string) {
    w != "" && forall i | 0 <= i < |w| :: FieldCode(w[i])
  }

  lemma FieldIsWord(w: string)
    requires Field(w)
    ensures w != [] && NoSpace(w) && Clean(w)
  {
    forall c | c in w
      ensures !IsSpace(c) && c != '\n' && c != '\r'
    {
      var i :| 0 <= i < |w| && w[i] == c;
      assert FieldCode(w[i]);
    }
  }

  lemma CodesAreChars(c: char)
    ensures ScheduleChar(c) <==> FieldCode(c)
    ensures FieldCode(c) ==> !IsSpace(c)
  {
  }

  lemma FiveFields(a: string, b: string, c: string, d: string, e: string)
    requires Field(a) && Field(b) && Field(c) && Field(d) && Field(e)
    ensures Words(a + " " + (b + " " + (c + " " + (d + " " + e)))) == [a, b, c, d, e]
  {
    hide *;
    FieldIsWord(a);
    FieldIsWord(b);
    FieldIsWord(c);
    FieldIsWord(d);
    FieldIsWord(e);
    LastWord(e);
    NextWord(d, e);
    NextWord(c, d + " " + e);
    NextWord(b, c + " " + (d + " " + e));
    NextWord(a, b + " " + (c + " " + (d + " " + e)));
  }

  lemma FieldsAreValid(schedule: string, a: string, b: string, c: string, d: string, e: string)
    requires Field(a) && Field(b) && Field(c) && Field(d) && Field(e) && Words(schedule) == [a, b, c, d, e]
    ensures ValidSchedule(schedule)
  {
    forall x: char
      ensures ScheduleChar(x) <==> FieldCode(x)
    {
      CodesAreChars(x);
    }
    hide Words, ScheduleChar, FieldCode;
  }

  /** Any five fields with a space between each two make a schedule. */
  lemma FiveFieldsAreValid(a: string, b: string, c: string, d: string, e: string)
    requires Field(a) && Field(b) && Field(c) && Field(d) && Field(e)
    ensures ValidSchedule(a + " " + b + " " + c + " " + d + " " + e)
  {
    hide *;
    FiveFields(a, b, c, d, e);
    assert a + " " + b + " " + c + " " + d + " " + e == a + " " + (b + " " + (c + " " + (d + " " + e)));
    FieldsAreValid(a + " " + b + " " + c + " " + d + " " + e, a, b, c, d, e);
  }

  lemma {:induction false} WordsWithin(s: string, i: nat, k: nat)
    requires i < |Words(s)| && k < |Words(s)[i]|
    ensures Words(s)[i][k] in s && !IsSpace(Words(s)[i][k])
    decreases |s|
  {
    var t := TrimStart(s);
    var w := Word(t);
    assert t == w + t[|w|..] && Words(s) == [w] + Words(t[|w|..]);
    assert Words(s)[i][k] in Words(s)[i];
    hide IsSpace;
    StartWithin(s);
    if i > 0 {
      assert Words(s)[i] == Words(t[|w|..])[i - 1];
      WordsWithin(t[|w|..], i - 1, k);
    } else {
      assert NoSpace(w) && w[k] in w;
    }
  }

  lemma {:induction false} StartWithin(s: string)
    ensures forall c <- TrimStart(s) :: c in s
  {
    if s == "" || !IsSpace(s[0]) {
    } else {
      StartWithin(s[1..]);
    }
  }

  /** A schedule is valid if and only if it has five words and every character is whitespace or one of a field. */
  lemma ScheduleExactly(schedule: string)
    ensures ValidSchedule(schedule) <==>
              |Words(schedule)| == 5 && forall i | 0 <= i < |schedule| :: IsSpace(schedule[i]) || FieldCode(schedule[i])
  {
    var words := Words(schedule);
    if ValidSchedule(schedule) {
      forall i | 0 <= i < |schedule| && !IsSpace(schedule[i])
        ensures FieldCode(schedule[i])
      {
        hide Words, IsSpace;
        WordsCover(schedule, schedule[i]);
        var j :| 0 <= j < |words| && schedule[i] in words[j];
        var k :| 0 <= k < |words[j]| && words[j][k] == schedule[i];
        assert ScheduleChar(words[j][k]);
        CodesAreChars(schedule[i]);
      }
    }
    if |words| == 5 && forall i | 0 <= i < |schedule| :: IsSpace(schedule[i]) || FieldCode(schedule[i]) {
      forall i, k | 0 <= i < 5 && 0 <= k < |words[i]|
        ensures ScheduleChar(words[i][k])
      {
        hide Words, IsSpace;
        WordsWithin(schedule, i, k);
        var j :| 0 <= j < |schedule| && schedule[j] == words[i][k];
        CodesAreChars(schedule[j]);
      }
    }
  }

  const EVERY_FIVE := "*/5 * * * *"

  /** Every five minutes is a valid schedule; a schedule by name is not. */
  lemma ScheduleExamples()
    ensures ValidSchedule(EVERY_FIVE) && !ValidSchedule("@daily")
  {
    assert FieldCode('*') && FieldCode('/') && FieldCode('5') && !FieldCode('@') && !IsSpace('@');
    assert EVERY_FIVE == "*/5" + " " + "*" + " " + "*" + " " + "*" + " " + "*";
    assert Field("*/5") && Field("*") && "@daily"[0] == '@';
    hide *;
    FiveFieldsAreValid("*/5", "*", "*", "*", "*");
    ScheduleExactly("@daily");
  }

  // ---- Lines and refusals, written out --------------------------------------------------------

  /** The line of a job. */
  lemma LineWritten(job: Job)
    ensures CronLine(job) == job.schedule + " " + job.command + " # axiapanel:" + job.id + " " + job.tag
  {
    var front := job.schedule + " " + job.command;
    assert " " + MARKER == " # axiapanel:";
    assert front + " " + MARKER == front + (" " + MARKER);
  }

  /**
   A command is safe if and only if it has 1 to 4096 bytes, no NUL, line feed or carriage return, and is not
   blocked.
   */
  lemma SafeExactly(command: string, allowed: string -> bool)
    ensures SafeCommand(command, allowed) <==>
              && command != "" && Utf8Length(command) <= 4096
              && (forall i | 0 <= i < |command| :: command[i] as int !in {0, 10, 13}) && allowed(command)
  {
    forall c: char | c in command
      ensures exists i | 0 <= i < |command| :: command[i] == c
    {
    }
    hide Utf8Length;
  }

  /** A text of ASCII has as many bytes as characters, and any text at least as many. */
  lemma {:induction false} AsciiLength(s: string)
    ensures Utf8Length(s) >= |s| && ((forall i | 0 <= i < |s| :: s[i] as int < 128) ==> Utf8Length(s) == |s|)
  {
    if s == "" {
    } else {
      AsciiLength(s[1..]);
    }
  }

  /** The first job that is refused decides the error: its schedule, then an empty command, then the command. */
  lemma {:induction false} RefusedByFirst(jobs: seq<Job>, k: nat, allowed: string -> bool)
    requires k < |jobs|
    requires forall i | 0 <= i < k :: ValidSchedule(jobs[i].schedule) && SafeCommand(jobs[i].command, allowed)
    requires !ValidSchedule(jobs[k].schedule) || !SafeCommand(jobs[k].command, allowed)
    ensures FirstError(jobs, allowed) ==
              if !ValidSchedule(jobs[k].schedule) then Some(InvalidSchedule(jobs[k].schedule))
              else if jobs[k].command == "" then Some(EmptyCommand)
              else Some(DisallowedCommand)
  {
    if k == 0 {
      hide ValidSchedule;
    } else {
      assert ValidSchedule(jobs[0].schedule) && SafeCommand(jobs[0].command, allowed);
      assert Check(jobs[0], allowed) == None by { hide ValidSchedule; }
      hide ValidSchedule, SafeCommand, Check;
      RefusedByFirst(jobs[1..], k - 1, allowed);
    }
  }

  const NIGHTLY := "0 4 * * *"

  lemma NightlyIsValid()
    ensures ValidSchedule(NIGHTLY) && Clean(NIGHTLY)
  {
    assert NIGHTLY == "0" + " " + ("4" + " " + ("*" + " " + ("*" + " " + "*")));
    assert Clean(NIGHTLY);
    assert Field("0") && Field("4") && Field("*");
    hide *;
    FiveFields("0", "4", "*", "*", "*");
    FieldsAreValid(NIGHTLY, "0", "4", "*", "*", "*");
  }

  /** A schedule with two spaces in a row, which five fields still are, is not exported as it is. */
  lemma WideScheduleExample(job: Job)
    requires job.schedule == "*  * * * *"
    ensures ValidSchedule(job.schedule) && ExportLine(CronLine(job)) != Some(job)
  {
    var rest := "*" + " " + ("*" + " " + ("*" + " " + "*"));
    assert Field("*") && IsSpace(' ');
    assert job.schedule == "*" + " " + ([' '] + rest);
    SpacesOfWide();
    assert Spaces(job.schedule) != 4 ==> !Readable(job);
    hide *;
    FieldIsWord("*");
    FiveFields("*", "*", "*", "*", "*");
    NextWord("*", rest);
    NextWord("*", [' '] + rest);
    WordsSpace(' ', rest);
    FieldsAreValid(job.schedule, "*", "*", "*", "*", "*");
    ExportExactly(job);
  }

  lemma SpacesOfWide()
    ensures Spaces("*  * * * *") == 5
  {
    assert "*  * * * *" == "*  *" + " * * *";
    SpacesAppend("*  *", " * * *");
    assert Spaces("*  *") == 2 && Spaces(" * * *") == 3;
  }

  /** Syncing a job whose label has two lines n times adds the second line n times to the administrator's. */
  lemma BrokenLabelExample(existing: string, n: nat)
    requires '\r' !in existing
    ensures var job := Job("7", NIGHTLY, "true", "nightly\nbackup");
            && Sound(job)
            && Foreign(SyncTimes(existing, [job], n)) == Foreign(existing) + Times(["backup"], n)
  {
    var job := Job("7", NIGHTLY, "true", "nightly\nbackup");
    NotContainsChar("backup", MARKER, 0);
    NightlyIsValid();
    BrokenIsSound();
    hide *;
    BrokenLabel(job, "nightly", "backup");
    StraysOfOne(job);
    AllSoundOne(job);
    StraysPileUp(existing, [job], n);
  }

  lemma BrokenIsSound()
    ensures Sound(Job("7", NIGHTLY, "true", "nightly\nbackup"))
    ensures '\n' !in NIGHTLY && '\n' !in "7" && "nightly\nbackup" == "nightly" + "\n" + "backup"
    ensures Clean("nightly") && Clean("backup") && '#' !in "backup" && MARKER[0] == '#'
  {
    NightlyIsValid();
    hide ValidSchedule;
  }

  lemma AllSoundOne(job: Job)
    requires Sound(job)
    ensures AllSound([job])
  {
    hide Sound;
  }

  /** A sync is refused if and only if one of its jobs is. */
  lemma {:induction false} SyncRefusedExactly(existing: string, jobs: seq<Job>, allowed: string -> bool)
    ensures Sync(existing, jobs, allowed).Err? <==>
              exists i | 0 <= i < |jobs| :: !ValidSchedule(jobs[i].schedule) || !SafeCommand(jobs[i].command, allowed)
  {
    if jobs == [] {
    } else {
      SyncRefusedExactly(existing, jobs[1..], allowed);
      hide ValidSchedule, SafeCommand;
      CheckExactly(jobs[0], allowed);
      assert forall i | 1 <= i < |jobs| :: jobs[i] == jobs[1..][i - 1];
      if Check(jobs[0], allowed) == None && Sync(existing, jobs, allowed).Err? {
        var i :| 0 <= i < |jobs[1..]| &&
            (!ValidSchedule(jobs[1..][i].schedule) || !SafeCommand(jobs[1..][i].command, allowed));
        assert jobs[i + 1] == jobs[1..][i];
      }
    }
  }

  lemma CheckExactly(job: Job, allowed: string -> bool)
    ensures Check(job, allowed).Some? <==> !ValidSchedule(job.schedule) || !SafeCommand(job.command, allowed)
  {
  }

  /** The bytes of a character by its code, and of a text by its characters. */
  lemma {:induction false} Utf8ByCode(c: char, s: string)
    ensures Utf8Length([c]) ==
              if c as int <= 127 then 1 else if c as int <= 2047 then 2 else if c as int <= 65535 then 3 else 4
    ensures Utf8Length([c] + s) == Utf8Length([c]) + Utf8Length(s)
  {
    assert [c][1..] == "" && ([c] + s)[1..] == s;
  }
}
