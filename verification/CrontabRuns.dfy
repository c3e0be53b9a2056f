/**
 Removals from the root crontab, and every run of syncs and removals, with reads of the crontab that
 fail in between.
 */
module CrontabRuns {
  import opened Crontab
  import opened Text

  /** `remove_cron`: every line holding the marker and the id goes. */
  function Remove(existing: string, id: string): string {
    Installed(Filter(Keeps(id), Lines(existing)))
  }

  predicate Untouched(line: string, id: string) {
    !Contains(line, MARKER + id)
  }

  function Keeps(id: string): string -> bool {
    line => Untouched(line, id)
  }

  // ---- Which jobs a removal finds --------------------------------------------------------------

  /** The jobs that a removal is meant for: those whose id, followed by their label, starts with the given id. */
  predicate Hit(job: Job, id: string) {
    id <= Tail(job)
  }

  function Tail(job: Job): string {
    job.id + " " + job.tag
  }

  /** A job whose line holds the marker once. */
  predicate MarkedOnce(job: Job) {
    Unmanaged(job.command) && Unmanaged(Tail(job))
  }

  /** A job whose command holds no marker, and whose id and label hold one only before what they begin with. */
  predicate Distinctive(job: Job) {
    && Unmanaged(job.command)
    && forall k | 0 <= k <= |Tail(job)| && OccursAt(Tail(job), MARKER, k) :: Tail(job)[k + |MARKER|..] <= Tail(job)
  }

  predicate AllDistinctive(jobs: seq<Job>) {
    forall i | 0 <= i < |jobs| :: Distinctive(jobs[i])
  }

  lemma PrefixOfId(job: Job, id: string)
    requires ' ' !in id
    ensures Hit(job, id) <==> id <= job.id
  {
    var tail := Tail(job);
    assert tail[|job.id|] == ' ';
    if |id| > |job.id| {
      assert id[|job.id|] in id;
    } else {
      assert tail[..|id|] == job.id[..|id|];
    }
  }

  lemma NotInMarker(text: string, k: nat)
    requires 0 < k < |MARKER|
    ensures !(MARKER <= (MARKER + text)[k..])
  {
    assert (MARKER + text)[k..][0] == MARKER[k] != '#';
  }

  lemma LateMarker(text: string, k: nat)
    requires 0 < k <= |MARKER + text| && MARKER <= (MARKER + text)[k..]
    ensures k >= |MARKER| && OccursAt(text, MARKER, k - |MARKER|)
  {
    if k < |MARKER| {
      NotInMarker(text, k);
    } else {
      assert (MARKER + text)[k..] == text[k - |MARKER|..];
    }
  }

  lemma OccursHere(s: string, i: nat)
    requires OccursAt(s, MARKER, i)
    ensures i <= |s| && MARKER <= s[i..]
  {
  }

  /** The marker occurs in a job's line where it was put, and after that only where id and label hold it. */
  lemma WhereMarked(job: Job, i: nat)
    requires ValidSchedule(job.schedule) && Unmanaged(job.command) && OccursAt(CronLine(job), MARKER, i)
    ensures var pos := |Before(job) + " "|;
            i == pos || (i >= pos + |MARKER| && OccursAt(Tail(job), MARKER, i - pos - |MARKER|))
  {
    ScheduleIsPlain(job.schedule);
    assert Tail(job) == job.id + " " + job.tag;
    hide *;
    var before, after := Before(job) + " ", Tail(job);
    LineForm(job);
    if i < |before| {
      EarlyMarker(job, i);
    } else if i > |before| {
      OccursAtAfter(before, MARKER + after, MARKER, i);
      OccursHere(MARKER + after, i - |before|);
      LateMarker(after, i - |before|);
    }
  }

  lemma OnlyMarker(job: Job, i: nat)
    requires ValidSchedule(job.schedule) && MarkedOnce(job) && OccursAt(CronLine(job), MARKER, i)
    ensures i == |Before(job) + " "|
  {
    hide ValidSchedule, CronLine, Before;
    WhereMarked(job, i);
  }

  lemma LineRest(job: Job, k: nat)
    requires k <= |Tail(job)|
    ensures var pos, line := |Before(job) + " "|, CronLine(job);
            pos + |MARKER| + k <= |line| && line[pos + |MARKER| + k..] == Tail(job)[k..]
  {
    LineForm(job);
    assert CronLine(job) == (Before(job) + " " + MARKER) + Tail(job);
  }

  lemma AfterMarker(line: string, id: string, i: nat)
    requires OccursAt(line, MARKER + id, i)
    ensures OccursAt(line, MARKER, i) && i + |MARKER| <= |line| && id <= line[i + |MARKER|..]
  {
    assert line[i..][..|MARKER + id|] == MARKER + id;
    assert line[i..][..|MARKER|] == MARKER;
    assert line[i..][|MARKER|..] == line[i + |MARKER|..];
    assert (MARKER + id)[|MARKER|..] == id;
  }

  lemma MarkerThen(line: string, id: string, i: nat)
    requires OccursAt(line, MARKER, i) && i + |MARKER| <= |line| && id <= line[i + |MARKER|..]
    ensures Contains(line, MARKER + id)
  {
    assert line[i..] == MARKER + line[i + |MARKER|..];
    assert OccursAt(line, MARKER + id, i);
  }

  lemma OwnMarker(job: Job)
    ensures OccursAt(CronLine(job), MARKER, |Before(job) + " "|)
    ensures CronLine(job)[|Before(job) + " "| + |MARKER|..] == Tail(job)
  {
    LineForm(job);
    LineRest(job, 0);
    hide CronLine, Before;
    MarkerHere(Before(job) + " ", job.id + " " + job.tag);
  }

  /** A job that a removal is meant for is found in any case. */
  lemma HitIsFound(job: Job, id: string)
    requires Hit(job, id)
    ensures Contains(CronLine(job), MARKER + id)
  {
    OwnMarker(job);
    assert id <= Tail(job);
    hide *;
    MarkerThen(CronLine(job), id, |Before(job) + " "|);
  }

  /**
   A distinctive job's line matches a removal if and only if the job is meant; for an id without spaces, if and
   only if it is a prefix of the job's.
   */
  lemma MarkedWith(job: Job, id: string)
    requires ValidSchedule(job.schedule) && Distinctive(job)
    ensures Contains(CronLine(job), MARKER + id) <==> Hit(job, id)
    ensures ' ' !in id ==> (Contains(CronLine(job), MARKER + id) <==> id <= job.id)
  {
    if ' ' !in id {
      PrefixOfId(job, id);
    }
    if Hit(job, id) {
      HitIsFound(job, id);
    } else {
      hide ValidSchedule, CronLine, Before, Tail;
      if i :| 0 <= i <= |CronLine(job)| && OccursAt(CronLine(job), MARKER + id, i) {
        FoundIsHit(job, id, i);
      }
    }
  }

  lemma FoundIsHit(job: Job, id: string, i: nat)
    requires ValidSchedule(job.schedule) && Distinctive(job) && OccursAt(CronLine(job), MARKER + id, i)
    ensures Hit(job, id)
  {
    var pos := |Before(job) + " "|;
    hide ValidSchedule, CronLine, Before, Tail, OccursAt;
    AfterMarker(CronLine(job), id, i);
    WhereMarked(job, i);
    if i == pos {
      OwnMarker(job);
    } else {
      var k := i - pos - |MARKER|;
      OccursWithin(Tail(job), k);
      LineRest(job, k + |MARKER|);
    }
  }

  lemma OccursWithin(s: string, k: nat)
    requires OccursAt(s, MARKER, k)
    ensures k + |MARKER| <= |s|
  {
  }

  lemma TailInLine(job: Job, k: nat)
    requires k + |MARKER| <= |Tail(job)| && OccursAt(Tail(job), MARKER, k)
    ensures Contains(CronLine(job), MARKER + Tail(job)[k + |MARKER|..])
  {
    var at := |Before(job) + " "| + |MARKER| + k;
    LineRest(job, k);
    LineRest(job, k + |MARKER|);
    assert OccursAt(CronLine(job), MARKER, at);
    hide *;
    MarkerThen(CronLine(job), Tail(job)[k + |MARKER|..], at);
  }

  /** A marker in the command: what follows it names a removal that takes the job without being meant for it. */
  lemma CommandMarked(job: Job) returns (id: string)
    requires !Unmanaged(job.command)
    ensures Contains(CronLine(job), MARKER + id) && !Hit(job, id)
  {
    var m :| 0 <= m <= |job.command| && OccursAt(job.command, MARKER, m);
    var a, c := job.schedule + " ", " " + MARKER + job.id + " " + job.tag;
    assert CronLine(job) == a + (job.command + c);
    assert |c| > |Tail(job)|;
    LaterOccurrence(a, job.command, c, m);
    id := CronLine(job)[|a| + m + |MARKER|..];
    assert |id| >= |c|;
    hide CronLine, Tail, Contains, OccursAt;
    MarkerThen(CronLine(job), id, |a| + m);
  }

  /** Removals take out a job only when they are meant for it if and only if the job is distinctive. */
  lemma MeantExactly(job: Job)
    requires ValidSchedule(job.schedule)
    ensures (forall id :: Contains(CronLine(job), MARKER + id) <==> Hit(job, id)) <==> Distinctive(job)
  {
    if Distinctive(job) {
      forall id
        ensures Contains(CronLine(job), MARKER + id) <==> Hit(job, id)
      {
        MarkedWith(job, id);
      }
    } else {
      var id := NotDistinctive(job);
      assert Contains(CronLine(job), MARKER + id) && !Hit(job, id);
    }
  }

  lemma NotDistinctive(job: Job) returns (id: string)
    requires !Distinctive(job)
    ensures Contains(CronLine(job), MARKER + id) && !Hit(job, id)
  {
    if !Unmanaged(job.command) {
      id := CommandMarked(job);
    } else {
      hide Unmanaged;
      var k :| 0 <= k <= |Tail(job)| && OccursAt(Tail(job), MARKER, k) && !(Tail(job)[k + |MARKER|..] <= Tail(job));
      id := Tail(job)[k + |MARKER|..];
      hide *;
      OccursWithin(Tail(job), k);
      TailInLine(job, k);
      NotHit(job, id);
    }
  }

  lemma NotHit(job: Job, id: string)
    requires !(id <= Tail(job))
    ensures !Hit(job, id)
  {
  }

  // ---- Jobs on several lines ------------------------------------------------------------------------

  lemma MarkedTwice(l: string, rest: string, i: nat, j: nat)
    requires OccursAt(l, MARKER, i) && OccursAt(rest, MARKER, j)
    ensures OccursAt(l + "\n" + rest, MARKER, i) && OccursAt(l + "\n" + rest, MARKER, |l| + 1 + j) && i <= |l|
  {
    assert l + "\n" + rest == l + ("\n" + rest);
    OccursWithin(l, i);
    OccursAtWithin(l, "\n" + rest, MARKER, i);
    OccursAtAfter(l + "\n", rest, MARKER, |l| + 1 + j);
  }

  lemma FirstAndMore(l: string, rest: string)
    requires '\n' !in l && '\r' !in l && '\r' !in rest
    ensures Lines(l + "\n" + rest + "\n") == [l] + Lines(rest + "\n") && Unlines(Lines(rest + "\n")) == rest + "\n"
    ensures Lines(rest + "\n") != []
  {
    assert StripCr(l) == l;
    assert l + "\n" + rest + "\n" == l + "\n" + (rest + "\n");
    hide StripCr, Find;
    LinesCons(l, rest + "\n");
    LineEnds(rest);
    UnlinesOfLines(rest + "\n");
    assert Unlines([]) == "";
  }

  lemma IsManaged(line: string)
    ensures Managed(line) <==> Contains(line, MARKER)
  {
  }

  lemma MarkedInUnlines(ls: seq<string>, rest: string)
    requires ls != [] && Managed(ls[0]) && Unlines(ls) == rest + "\n"
    ensures Contains(rest, MARKER)
  {
    assert Contains(ls[0], MARKER);
    MarkerPlain();
    hide *;
    ContainsUnlines(ls, MARKER);
    assert rest + "\n" == rest + "\n" + "";
    SeamAtNewline(rest, "", MARKER);
    NotContainsMarker();
  }

  lemma NotContainsMarker()
    ensures !Contains("", MARKER)
  {
    NotContainsChar("", MARKER, 0);
  }

  /** A job that holds the marker once has no line without it if and only if it is on one line. */
  lemma StraysExactly(job: Job)
    requires Sound(job) && MarkedOnce(job)
    ensures Strays(job) == [] <==> OneLine(job)
  {
    NoReturnInLine(job);
    if OneLine(job) {
      OnePiece(job);
    } else if Strays(job) == [] {
      assert Strays(job) == Filter(Unmanaged, Lines(CronLine(job) + "\n"));
      assert ValidSchedule(job.schedule);
      hide *;
      BrokenTwice(job);
    }
  }

  lemma {:induction false} NoStraysManaged(ls: seq<string>)
    requires Filter(Unmanaged, ls) == []
    ensures forall i | 0 <= i < |ls| :: Managed(ls[i])
  {
    hide *;
    if ls == [] {
    } else {
      var line, rest := ls[0], ls[1..];
      assert ls == [line] + rest;
      FilterStep(Unmanaged, line, rest);
      UnmanagedIsNot(line);
      NoStraysManaged(rest);
    }
  }

  lemma BrokenTwice(job: Job)
    requires ValidSchedule(job.schedule) && MarkedOnce(job)
    requires '\n' in CronLine(job) && '\r' !in CronLine(job) + "\n"
    ensures Filter(Unmanaged, Lines(CronLine(job) + "\n")) != []
  {
    hide *;
    var l, rest := FirstLine(CronLine(job));
    assert forall c <- l :: c in CronLine(job) + "\n";
    assert forall c <- rest :: c in CronLine(job) + "\n";
    FirstAndMore(l, rest);
    var more := Lines(rest + "\n");
    if Filter(Unmanaged, [l] + more) == [] {
      NoStraysManaged([l] + more);
      assert ([l] + more)[0] == l && ([l] + more)[1] == more[0];
      MarkedInUnlines(more, rest);
      IsManaged(l);
      TwoMarkers(job, l, rest);
    }
  }

  lemma TwoMarkers(job: Job, l: string, rest: string)
    requires ValidSchedule(job.schedule) && MarkedOnce(job) && CronLine(job) == l + "\n" + rest
    ensures !Contains(l, MARKER) || !Contains(rest, MARKER)
  {
    forall i, j | 0 <= i <= |l| && 0 <= j <= |rest|
      ensures !OccursAt(l, MARKER, i) || !OccursAt(rest, MARKER, j)
    {
      hide *;
      if OccursAt(l, MARKER, i) && OccursAt(rest, MARKER, j) {
        MarkedTwice(l, rest, i, j);
        OnlyMarker(job, i);
        OnlyMarker(job, |l| + 1 + j);
      }
    }
  }

  // ---- Crontabs and lists of jobs ------------------------------------------------------------------------

  /** A job of the last sync with those of its marked lines that removals have left. */
  datatype Entry = Entry(job: Job, lines: seq<string>)

  /** The administrator's lines, and the jobs of which a line is left. */
  datatype State = State(foreign: seq<string>, entries: seq<Entry>)

  function Jobs(entries: seq<Entry>): (r: seq<Job>)
    ensures |r| == |entries| && forall i | 0 <= i < |entries| :: r[i] == entries[i].job
  {
    if entries == [] then [] else [entries[0].job] + Jobs(entries[1..])
  }

  function LinesLeft(entries: seq<Entry>): seq<string> {
    if entries == [] then [] else entries[0].lines + LinesLeft(entries[1..])
  }

  function Entries(jobs: seq<Job>): (r: seq<Entry>)
    ensures |r| == |jobs| && forall i | 0 <= i < |jobs| :: r[i] == Entry(jobs[i], MarkedLines(jobs[i]))
  {
    if jobs == [] then [] else [Entry(jobs[0], MarkedLines(jobs[0]))] + Entries(jobs[1..])
  }

  predicate Fits(e: Entry) {
    Sound(e.job) && e.lines != [] && (OneLine(e.job) ==> e.lines == [CronLine(e.job)])
  }

  predicate AllFit(entries: seq<Entry>) {
    forall i | 0 <= i < |entries| :: Fits(entries[i])
  }

  /** The jobs after a removal: one goes when its last line does. */
  function Without(entries: seq<Entry>, id: string): seq<Entry> {
    if entries == [] then []
    else
      var left := Filter(Keeps(id), entries[0].lines);
      (if left == [] then [] else [Entry(entries[0].job, left)]) + Without(entries[1..], id)
  }

  /** A crontab whose unmanaged lines are the administrator's and whose managed lines are those left of jobs. */
  predicate Represents(text: string, st: State) {
    && AllClean(Lines(text))
    && Filter(Unmanaged, Lines(text)) == st.foreign
    && Filter(Managed, Lines(text)) == LinesLeft(st.entries)
    && AllFit(st.entries)
  }

  lemma {:induction false} LinesOfEntries(jobs: seq<Job>)
    requires AllSound(jobs)
    ensures LinesLeft(Entries(jobs)) == AllMarked(jobs) && AllFit(Entries(jobs)) && Jobs(Entries(jobs)) == jobs
  {
    if jobs == [] {
    } else {
      assert Sound(jobs[0]);
      EntryFits(jobs[0]);
      LinesOfEntries(jobs[1..]);
      hide Sound, MarkedLines, Fits;
      assert Entries(jobs) == [Entry(jobs[0], MarkedLines(jobs[0]))] + Entries(jobs[1..]);
    }
  }

  lemma EntryFits(job: Job)
    requires Sound(job)
    ensures Fits(Entry(job, MarkedLines(job)))
  {
    SomeMarked(job);
    if OneLine(job) {
      OnePiece(job);
    }
    hide Sound, MarkedLines, OneLine, CronLine;
  }

  lemma {:induction false} OneLineEntries(entries: seq<Entry>)
    requires AllFit(entries) && AllOneLine(Jobs(entries))
    ensures LinesLeft(entries) == CronLines(Jobs(entries))
  {
    if entries == [] {
    } else {
      assert Fits(entries[0]) && OneLine(Jobs(entries)[0]);
      assert Jobs(entries)[1..] == Jobs(entries[1..]);
      hide CronLine, Sound, OneLine;
      OneLineEntries(entries[1..]);
    }
  }

  lemma {:induction false} JobsSound(entries: seq<Entry>)
    requires AllFit(entries)
    ensures AllSound(Jobs(entries))
  {
    forall i | 0 <= i < |entries|
      ensures Sound(Jobs(entries)[i])
    {
      assert Fits(entries[i]);
    }
  }

  /**
   Of a crontab that represents jobs, the export returns exactly those jobs if and only if all are readable and
   on one line each, and the job list shows them if and only if all are listable and on one line each.
   */
  lemma {:induction false} ReadersOfState(text: string, st: State)
    requires Represents(text, st)
    ensures ReadEntries(text) == Jobs(st.entries) <==> AllReadable(Jobs(st.entries)) && AllOneLine(Jobs(st.entries))
    ensures (ListCrons(text) == ListedJobs(Jobs(st.entries)))
              <==> (AllListable(Jobs(st.entries)) && AllOneLine(Jobs(st.entries)))
    ensures Foreign(text) == st.foreign
  {
    JobsSound(st.entries);
    if AllOneLine(Jobs(st.entries)) {
      OneLineEntries(st.entries);
    }
    assert ReadEntries(text) == ExportLines(Lines(text)) && ListCrons(text) == ListLines(Lines(text));
    assert Foreign(text) == Filter(Unmanaged, Lines(text));
    var ls, jobs := Lines(text), Jobs(st.entries);
    hide Lines, Jobs, LinesLeft, AllSound, AllFit, AllReadable, AllListable, AllOneLine, AllClean, Filter, Managed;
    hide Unmanaged;
    hide ListLines, ExportLines, ReadEntries, ListCrons, Foreign, ListedJobs, CronLines;
    ReadBack(ls, jobs);
  }

  /** Every crontab without carriage returns and without managed lines represents no jobs. */
  lemma NoJobs(text: string)
    requires '\r' !in text && Filter(Managed, Lines(text)) == []
    ensures Represents(text, State(Foreign(text), []))
  {
    LinesClean(text);
  }

  // ---- Removal -----------------------------------------------------------------------------------------------

  lemma ForeignUntouched(line: string, id: string)
    requires Unmanaged(line)
    ensures Untouched(line, id)
  {
    assert MARKER + id == "" + MARKER + id;
    ContainsAround("", MARKER, id);
    if Contains(line, MARKER + id) {
      ContainsIn(line, MARKER + id, MARKER);
    }
  }

  lemma ForeignKept(ls: seq<string>, id: string)
    requires forall l <- ls :: Unmanaged(l)
    ensures Filter(Keeps(id), ls) == ls
  {
    forall l | l in ls
      ensures Keeps(id)(l)
    {
      ForeignUntouched(l, id);
    }
    FilterAll(Keeps(id), ls);
  }

  lemma {:induction false} KeptLines(entries: seq<Entry>, id: string)
    ensures Filter(Keeps(id), LinesLeft(entries)) == LinesLeft(Without(entries, id))
  {
    hide Untouched, Keeps;
    if entries == [] {
    } else {
      KeptLines(entries[1..], id);
      FilterAppend(Keeps(id), entries[0].lines, LinesLeft(entries[1..]));
      var left := Filter(Keeps(id), entries[0].lines);
      hide Filter;
      var rest := Without(entries[1..], id);
      if left == [] {
        assert [] + rest == rest;
        assert [] + LinesLeft(rest) == LinesLeft(rest);
      } else {
        assert Without(entries, id)[1..] == rest;
      }
    }
  }

  lemma {:induction false} EntryStillFits(e: Entry, id: string)
    requires Fits(e) && Filter(Keeps(id), e.lines) != []
    ensures Fits(Entry(e.job, Filter(Keeps(id), e.lines)))
  {
    hide Sound, OneLine, CronLine, Untouched;
    if OneLine(e.job) {
      var line := CronLine(e.job);
      assert [line] == [line] + [];
      hide Keeps;
      FilterStep(Keeps(id), line, []);
      assert Filter(Keeps(id), []) == [];
    }
  }

  lemma {:induction false} WithoutFits(entries: seq<Entry>, id: string)
    requires AllFit(entries)
    ensures AllFit(Without(entries, id))
  {
    if entries == [] {
    } else {
      assert Fits(entries[0]);
      WithoutFits(entries[1..], id);
      hide Fits, Keeps, Filter;
      if Filter(Keeps(id), entries[0].lines) != [] {
        EntryStillFits(entries[0], id);
      }
    }
  }

  lemma {:induction false} LinesLeftNone(entries: seq<Entry>)
    requires AllFit(entries)
    ensures LinesLeft(entries) == [] <==> entries == []
  {
    if entries != [] {
      assert Fits(entries[0]);
    }
  }

  function RemoveStep(st: State, id: string): State {
    var entries := Without(st.entries, id);
    State(OrBlank(st.foreign, entries == []), entries)
  }

  lemma RemovedLines(ls: seq<string>)
    requires AllClean(ls)
    ensures Lines(Installed(ls)) == if ls == [] then [""] else ls
  {
    if ls == [] {
      InstalledNothing();
    } else {
      InstalledIs(ls);
      hide Installed, Lines, Clean;
      LinesOfUnlines(ls);
    }
  }

  lemma {:induction false} Projections(ls: seq<string>)
    ensures |Filter(Unmanaged, ls)| + |Filter(Managed, ls)| == |ls|
    ensures forall l <- Filter(Unmanaged, ls) :: Unmanaged(l)
  {
    hide *;
    if ls == [] {
      FiltersEmpty();
    } else {
      Projections(ls[1..]);
      UnmanagedIsNot(ls[0]);
      FilterStep(Unmanaged, ls[0], ls[1..]);
      FilterStep(Managed, ls[0], ls[1..]);
      assert ls == [ls[0]] + ls[1..];
    }
  }

  lemma FiltersEmpty()
    ensures Filter(Unmanaged, []) == [] && Filter(Managed, []) == []
  {
  }

  lemma StillClean(ls: seq<string>, id: string)
    requires AllClean(ls)
    ensures AllClean(Filter(Keeps(id), ls))
  {
    hide Clean, Keeps;
  }

  /**
   Removing any text takes away the marked lines that hold it after the marker, and no line of the
   administrator's.
   */
  lemma {:induction false} RemoveRepresents(text: string, st: State, id: string)
    requires Represents(text, st)
    ensures Represents(Remove(text, id), RemoveStep(st, id))
  {
    var ls := Lines(text);
    var left := Filter(Keeps(id), ls);
    var entries := Without(st.entries, id);
    assert AllClean(ls) && Filter(Unmanaged, ls) == st.foreign && Filter(Managed, ls) == LinesLeft(st.entries);
    assert Remove(text, id) == Installed(left) &&
           RemoveStep(st, id) == State(OrBlank(st.foreign, entries == []), entries);
    assert AllFit(st.entries);
    hide *;
    StillClean(ls, id);
    RemovedLines(left);
    LeftProjected(ls, id);
    KeptLines(st.entries, id);
    WithoutFits(st.entries, id);
    LinesLeftNone(entries);
    InstalledRepresents(Remove(text, id), left, st.foreign, entries);
  }

  lemma LeftProjected(ls: seq<string>, id: string)
    ensures var left := Filter(Keeps(id), ls);
            && Filter(Unmanaged, left) == Filter(Unmanaged, ls)
            && Filter(Managed, left) == Filter(Keeps(id), Filter(Managed, ls))
            && |Filter(Unmanaged, left)| + |Filter(Managed, left)| == |left|
  {
    hide *;
    FilterCommutes(Unmanaged, Keeps(id), ls);
    FilterCommutes(Managed, Keeps(id), ls);
    Projections(ls);
    Projections(Filter(Keeps(id), ls));
    ForeignKept(Filter(Unmanaged, ls), id);
  }

  lemma {:induction false} InstalledRepresents(text: string, left: seq<string>, foreign: seq<string>,
                                               entries: seq<Entry>)
    requires AllClean(left) && Lines(text) == (if left == [] then [""] else left)
    requires Filter(Unmanaged, left) == foreign && Filter(Managed, left) == LinesLeft(entries) && AllFit(entries)
    requires |foreign| + |LinesLeft(entries)| == |left| && (LinesLeft(entries) == [] <==> entries == [])
    ensures Represents(text, State(OrBlank(foreign, entries == []), entries))
  {
    if left == [] {
      InstalledNothing();
      assert AllClean([""]);
    }
    hide Lines, Filter, Clean, Managed, Unmanaged, LinesLeft, Fits;
  }

  /** Ids that are distinct and of one length, as the panel's are. */
  predicate OneLength(jobs: seq<Job>) {
    forall i, j | 0 <= i < j < |jobs| :: jobs[i].id != jobs[j].id && |jobs[i].id| == |jobs[j].id|
  }

  lemma {:induction false} OneLengthApart(jobs: seq<Job>, i: nat, j: nat)
    requires OneLength(jobs) && i < |jobs| && j < |jobs| && i != j
    ensures !Hit(jobs[j], jobs[i].id)
  {
    assert |jobs[i].id| == |jobs[j].id| && jobs[i].id != jobs[j].id;
    assert Tail(jobs[j])[..|jobs[i].id|] == jobs[j].id;
  }

  lemma OwnHit(job: Job)
    ensures Hit(job, job.id)
  {
    assert Tail(job)[..|job.id|] == job.id;
  }

  /** A distinctive job on one line goes if and only if the removal is meant for it, and stays as it is otherwise. */
  lemma {:induction false} GoesExactly(e: Entry, id: string)
    requires Fits(e) && OneLine(e.job) && Distinctive(e.job)
    ensures Filter(Keeps(id), e.lines) == if Hit(e.job, id) then [] else e.lines
  {
    var line := CronLine(e.job);
    assert e.lines == [line] && ValidSchedule(e.job.schedule);
    hide Fits, Sound, OneLine, Distinctive, CronLine, Hit, ValidSchedule, Contains;
    MarkedWith(e.job, id);
    assert [line] == [line] + [];
    FilterStep(Keeps(id), line, []);
    assert Filter(Keeps(id), []) == [];
  }

  lemma {:induction false} WithoutAbsent(entries: seq<Entry>, id: string)
    requires forall i | 0 <= i < |entries| :: Stays(entries[i], id)
    ensures Without(entries, id) == entries
  {
    if entries == [] {
    } else {
      assert Stays(entries[0], id);
      hide Stays, Keeps, Filter;
      WithoutAbsent(entries[1..], id);
    }
  }

  lemma {:induction false} WithoutAppend(a: seq<Entry>, b: seq<Entry>, id: string)
    ensures Without(a + b, id) == Without(a, id) + Without(b, id)
  {
    hide Keeps, Filter;
    if a == [] {
      assert a + b == b;
    } else {
      assert (a + b)[1..] == a[1..] + b;
      WithoutAppend(a[1..], b, id);
    }
  }

  /** Of jobs with ids of one length, a removal of the k-th job's id takes the lines of that job. */
  lemma {:induction false} LeftOf(entries: seq<Entry>, k: nat, i: nat)
    requires AllFit(entries) && k < |entries| && i < |entries|
    requires AllOneLine(Jobs(entries)) && AllDistinctive(Jobs(entries)) && OneLength(Jobs(entries))
    ensures Filter(Keeps(entries[k].job.id), entries[i].lines) == if i == k then [] else entries[i].lines
    ensures entries[i].lines != []
  {
    var jobs := Jobs(entries);
    assert jobs[i] == entries[i].job && jobs[k] == entries[k].job;
    assert Fits(entries[i]) && OneLine(jobs[i]) && Distinctive(jobs[i]);
    hide *;
    GoesExactly(entries[i], entries[k].job.id);
    LinesThere(entries[i]);
    if i == k {
      OwnHit(jobs[i]);
    } else {
      OneLengthApart(jobs, k, i);
    }
  }

  predicate Stays(e: Entry, id: string) {
    Filter(Keeps(id), e.lines) == e.lines && e.lines != []
  }

  lemma {:induction false} WithoutMiddle(before: seq<Entry>, e: Entry, after: seq<Entry>, id: string)
    requires forall i | 0 <= i < |before| :: Stays(before[i], id)
    requires forall i | 0 <= i < |after| :: Stays(after[i], id)
    requires Filter(Keeps(id), e.lines) == []
    ensures Without(before + ([e] + after), id) == before + after
  {
    hide *;
    WithoutAbsent(before, id);
    WithoutAbsent(after, id);
    WithoutSingle(e, id);
    WithoutAppend(before, [e] + after, id);
    WithoutAppend([e], after, id);
    NoEntry(after);
  }

  lemma {:induction false} LeftStays(entries: seq<Entry>, k: nat, i: nat)
    requires AllFit(entries) && k < |entries| && i < |entries| && i != k
    requires AllOneLine(Jobs(entries)) && AllDistinctive(Jobs(entries)) && OneLength(Jobs(entries))
    ensures Stays(entries[i], entries[k].job.id)
  {
    LeftOf(entries, k, i);
  }

  lemma {:induction false} WithoutOne(entries: seq<Entry>, k: nat)
    requires AllFit(entries) && k < |entries|
    requires AllOneLine(Jobs(entries)) && AllDistinctive(Jobs(entries)) && OneLength(Jobs(entries))
    ensures Without(entries, entries[k].job.id) == entries[..k] + entries[k + 1..]
  {
    hide *;
    var id, before, after := entries[k].job.id, entries[..k], entries[k + 1..];
    forall i | 0 <= i < |before|
      ensures Stays(before[i], id)
    {
      LeftStays(entries, k, i);
    }
    forall i | 0 <= i < |after|
      ensures Stays(after[i], id)
    {
      LeftStays(entries, k, k + 1 + i);
    }
    LeftOf(entries, k, k);
    WithoutMiddle(before, entries[k], after, id);
    assert entries == before + ([entries[k]] + after);
  }

  lemma {:induction false} LinesThere(e: Entry)
    requires Fits(e)
    ensures e.lines != []
  {
  }

  lemma {:induction false} WithoutSingle(e: Entry, id: string)
    requires Filter(Keeps(id), e.lines) == []
    ensures Without([e], id) == []
  {
    hide Keeps, Filter;
    assert [e][1..] == [] && Without([], id) == [];
  }

  lemma {:induction false} NoEntry(after: seq<Entry>)
    ensures [] + after == after
  {
  }

  lemma {:induction false} JobsAppend(a: seq<Entry>, b: seq<Entry>)
    ensures Jobs(a + b) == Jobs(a) + Jobs(b)
  {
    assert forall i | 0 <= i < |a + b| :: Jobs(a + b)[i] == (Jobs(a) + Jobs(b))[i];
  }

  lemma {:induction false} JobsWithout(entries: seq<Entry>, k: nat)
    requires k < |entries|
    ensures Jobs(entries[..k] + entries[k + 1..]) == Jobs(entries)[..k] + Jobs(entries)[k + 1..]
  {
    JobsAppend(entries[..k], entries[k + 1..]);
    assert Jobs(entries[..k]) == Jobs(entries)[..k];
    assert Jobs(entries[k + 1..]) == Jobs(entries)[k + 1..];
  }

  lemma {:induction false} StillOneLine(jobs: seq<Job>, k: nat)
    requires AllOneLine(jobs) && k < |jobs|
    ensures AllOneLine(jobs[..k] + jobs[k + 1..])
  {
    hide OneLine;
    var left := jobs[..k] + jobs[k + 1..];
    assert forall i | 0 <= i < |left| :: left[i] == jobs[if i < k then i else i + 1];
  }

  lemma {:induction false} RemoveStepIs(st: State, id: string)
    ensures RemoveStep(st, id) == State(OrBlank(st.foreign, Without(st.entries, id) == []), Without(st.entries, id))
  {
  }

  /** With ids that are distinct and of one length, removing a job's id from a crontab removes that job alone. */
  lemma {:induction false} RemoveExactlyOne(text: string, st: State, k: nat)
    requires Represents(text, st) && k < |st.entries|
    requires AllOneLine(Jobs(st.entries)) && AllDistinctive(Jobs(st.entries)) && OneLength(Jobs(st.entries))
    ensures var end, left := Remove(text, st.entries[k].job.id), Jobs(st.entries)[..k] + Jobs(st.entries)[k + 1..];
            && (ReadEntries(end) == left <==> AllReadable(left))
            && (ListCrons(end) == ListedJobs(left) <==> AllListable(left))
            && Foreign(end) == OrBlank(st.foreign, left == [])
  {
    var id := st.entries[k].job.id;
    assert AllFit(st.entries);
    hide *;
    StillOneLine(Jobs(st.entries), k);
    WithoutOne(st.entries, k);
    JobsWithout(st.entries, k);
    RemoveRepresents(text, st, id);
    RemoveStepIs(st, id);
    ReadersOfState(Remove(text, id), RemoveStep(st, id));
    SameSize(Without(st.entries, id));
  }

  lemma {:induction false} SameSize(entries: seq<Entry>)
    ensures entries == [] <==> Jobs(entries) == []
  {
  }

  lemma {:induction false} BothGo(entries: seq<Entry>, id: string)
    requires |entries| == 2 && Fits(entries[0]) && Fits(entries[1]) && OneLine(entries[0].job) &&
             OneLine(entries[1].job)
    requires Hit(entries[0].job, id) && Hit(entries[1].job, id)
    ensures Without(entries, id) == []
  {
    hide *;
    HitGoes(entries[0], id);
    HitGoes(entries[1], id);
    WithoutSingle(entries[0], id);
    WithoutSingle(entries[1], id);
    WithoutAppend([entries[0]], [entries[1]], id);
    assert entries == [entries[0]] + [entries[1]];
    NoEntry([]);
  }

  lemma NothingListed()
    ensures AllReadable([]) && AllListable([]) && ListedJobs([]) == [] && AllOneLine([]) && Jobs([]) == []
  {
  }

  /** Ids of different lengths are not safe: removing "1" also removes "10". */
  lemma {:induction false} PrefixIdExample(text: string, st: State, a: Job, b: Job)
    requires Represents(text, st) && Jobs(st.entries) == [a, b] && a.id == "1" && b.id == "10"
    requires OneLine(a) && OneLine(b)
    ensures ReadEntries(Remove(text, "1")) == [] && ListCrons(Remove(text, "1")) == []
  {
    assert |st.entries| == 2 && st.entries[0].job == Jobs(st.entries)[0] && st.entries[1].job == Jobs(st.entries)[1];
    assert Fits(st.entries[0]) && Fits(st.entries[1]);
    assert "10"[..1] == "1";
    PrefixOfId(a, "1");
    PrefixOfId(b, "1");
    hide *;
    BothGo(st.entries, "1");
    NothingListed();
    RemoveStepIs(st, "1");
    RemoveRepresents(text, st, "1");
    ReadersOfState(Remove(text, "1"), RemoveStep(st, "1"));
  }

  lemma {:induction false} HitGoes(e: Entry, id: string)
    requires Fits(e) && OneLine(e.job) && Hit(e.job, id)
    ensures Filter(Keeps(id), e.lines) == []
  {
    var line := CronLine(e.job);
    assert e.lines == [line];
    hide Fits, Sound, OneLine, CronLine, Hit, Contains;
    HitIsFound(e.job, id);
    assert [line] == [line] + [];
    FilterStep(Keeps(id), line, []);
    assert Filter(Keeps(id), []) == [];
  }

  // ---- Every run -----------------------------------------------------------------------------------------

  /** `read` says whether the crontab could be read; if not, the code goes on from an empty one. */
  datatype Op = SyncOp(jobs: seq<Job>, read: bool) | RemoveOp(id: string, read: bool)

  function Seen(text: string, read: bool): string {
    if read then text else ""
  }

  function Apply(text: string, op: Op, allowed: string -> bool): string {
    match op
    case SyncOp(jobs, read) => (match Sync(Seen(text, read), jobs, allowed) case Ok(t) => t case Err(_) => text)
    case RemoveOp(id, read) => Remove(Seen(text, read), id)
  }

  function ApplyAll(text: string, ops: seq<Op>, allowed: string -> bool): string
    decreases |ops|
  {
    if ops == [] then text else ApplyAll(Apply(text, ops[0], allowed), ops[1..], allowed)
  }

  function SeenState(st: State, read: bool): State {
    if read then st else State([], [])
  }

  /** The same operations on the administrator's lines and the list of jobs. */
  function Step(st: State, op: Op, allowed: string -> bool): State {
    match op
    case SyncOp(jobs, read) =>
      if FirstError(jobs, allowed).Some? then st
      else State(OrBlank(SeenState(st, read).foreign, jobs == []) + AllStrays(jobs), Entries(jobs))
    case RemoveOp(id, read) => RemoveStep(SeenState(st, read), id)
  }

  function StepAll(st: State, ops: seq<Op>, allowed: string -> bool): State
    decreases |ops|
  {
    if ops == [] then st else StepAll(Step(st, ops[0], allowed), ops[1..], allowed)
  }

  /** Synced jobs hold no carriage return; there is no condition on removals. */
  predicate NoReturns(op: Op) {
    op.SyncOp? ==> AllNoReturn(op.jobs)
  }

  lemma {:induction false} SeenRepresents(text: string, st: State, read: bool)
    requires Represents(text, st)
    ensures Represents(Seen(text, read), SeenState(st, read))
  {
    hide Clean, Fits;
    assert Lines("") == [];
  }

  /** After an accepted sync any crontab without carriage returns represents the synced jobs. */
  lemma SyncRepresents(text: string, jobs: seq<Job>, allowed: string -> bool)
    requires AllClean(Lines(text)) && AllNoReturn(jobs) && FirstError(jobs, allowed) == None
    ensures Represents(Installed(Foreign(text) + CronLines(jobs)),
                       State(OrBlank(Foreign(text), jobs == []) + AllStrays(jobs), Entries(jobs)))
  {
    AcceptedSound(jobs, allowed);
    ForeignOfClean(text);
    LinesOfEntries(jobs);
    hide *;
    var foreign := Foreign(text);
    InstalledHolds(foreign, jobs);
    IsRepresented(Installed(foreign + CronLines(jobs)), OrBlank(foreign, jobs == []) + AllStrays(jobs), Entries(jobs));
  }

  lemma {:induction false} IsRepresented(text: string, foreign: seq<string>, entries: seq<Entry>)
    requires AllClean(Lines(text)) && Filter(Unmanaged, Lines(text)) == foreign
    requires Filter(Managed, Lines(text)) == LinesLeft(entries) && AllFit(entries)
    ensures Represents(text, State(foreign, entries))
  {
    hide Lines, Filter, Clean, Fits;
  }

  lemma {:induction false} ForeignOfState(text: string, st: State)
    requires Represents(text, st)
    ensures AllClean(Lines(text)) && Foreign(text) == st.foreign
  {
  }

  lemma {:induction false} StepRepresents(text: string, st: State, op: Op, allowed: string -> bool)
    requires Represents(text, st) && NoReturns(op)
    ensures Represents(Apply(text, op, allowed), Step(st, op, allowed))
  {
    SeenRepresents(text, st, op.read);
    ForeignOfState(Seen(text, op.read), SeenState(st, op.read));
    hide Represents, AllNoReturn, FirstError, Installed, CronLines, AllStrays, Entries, Foreign, OrBlank;
    hide Remove, RemoveStep, Seen, SeenState, AllClean, Lines;
    match op
    case SyncOp(jobs, read) =>
      if FirstError(jobs, allowed) == None {
        SyncRepresents(Seen(text, read), jobs, allowed);
      }
    case RemoveOp(id, read) => RemoveRepresents(Seen(text, read), SeenState(st, read), id);
  }

  lemma {:induction false} RunRepresents(text: string, st: State, ops: seq<Op>, allowed: string -> bool)
    requires Represents(text, st) && forall i | 0 <= i < |ops| :: NoReturns(ops[i])
    ensures Represents(ApplyAll(text, ops, allowed), StepAll(st, ops, allowed))
    decreases |ops|
  {
    hide Represents, Apply, Step, NoReturns;
    if ops == [] {
    } else {
      StepRepresents(text, st, ops[0], allowed);
      RunRepresents(Apply(text, ops[0], allowed), Step(st, ops[0], allowed), ops[1..], allowed);
    }
  }

  /**
   Over every run of syncs and removals, reads that fail included, of jobs without carriage returns: the export
   returns the list that the same run makes if and only if its jobs are readable and on one line each, the job
   list shows it if and only if they are listable and on one line each, and the administrator's lines are
   those that the same run makes.
   */
  lemma {:induction false} RunRefinesList(text: string, st: State, ops: seq<Op>, allowed: string -> bool)
    requires Represents(text, st) && forall i | 0 <= i < |ops| :: NoReturns(ops[i])
    ensures var end, after := ApplyAll(text, ops, allowed), StepAll(st, ops, allowed); var list := Jobs(after.entries);
            && (ReadEntries(end) == list <==> AllReadable(list) && AllOneLine(list))
            && (ListCrons(end) == ListedJobs(list) <==> AllListable(list) && AllOneLine(list))
            && Foreign(end) == after.foreign
  {
    hide *;
    RunRepresents(text, st, ops, allowed);
    ReadersOfState(ApplyAll(text, ops, allowed), StepAll(st, ops, allowed));
  }

  // ---- The administrator's lines over a run ------------------------------------------------------------------

  predicate Writes(op: Op, allowed: string -> bool) {
    op.RemoveOp? || FirstError(op.jobs, allowed) == None
  }

  /** An operation that writes without having read. */
  predicate Blind(op: Op, allowed: string -> bool) {
    Writes(op, allowed) && !op.read
  }

  /** A sync that writes a line without the marker. */
  predicate Straying(op: Op, allowed: string -> bool) {
    op.SyncOp? && Writes(op, allowed) && AllStrays(op.jobs) != []
  }

  lemma {:induction false} SightedStep(st: State, op: Op, allowed: string -> bool)
    requires !Blind(op, allowed) && st.foreign != []
    ensures var after := Step(st, op, allowed).foreign;
            st.foreign <= after && (after == st.foreign <==> !Straying(op, allowed))
  {
    hide FirstError, AllStrays, Entries, Without;
  }

  /** As long as no operation writes without having read, the administrator's lines stay where they are in front. */
  lemma {:induction false} ForeignInFront(st: State, ops: seq<Op>, allowed: string -> bool)
    requires st.foreign != [] && forall i | 0 <= i < |ops| :: !Blind(ops[i], allowed)
    ensures st.foreign <= StepAll(st, ops, allowed).foreign
    ensures (StepAll(st, ops, allowed).foreign == st.foreign)
              <==> forall i | 0 <= i < |ops| :: !Straying(ops[i], allowed)
    decreases |ops|
  {
    hide Blind, Straying, Step;
    if ops == [] {
    } else {
      SightedStep(st, ops[0], allowed);
      ForeignInFront(Step(st, ops[0], allowed), ops[1..], allowed);
      assert forall i | 1 <= i < |ops| :: ops[i] == ops[1..][i - 1];
    }
  }

  /**
   Over every run in which no operation writes without having read, the administrator's lines are kept in front
   and in order, and nothing is added to them if and only if every line of the synced jobs holds the marker.
   */
  lemma {:induction false} ForeignKeptExactly(text: string, st: State, ops: seq<Op>, allowed: string -> bool)
    requires Represents(text, st) && (forall i | 0 <= i < |ops| :: NoReturns(ops[i])) && st.foreign != []
    requires forall i | 0 <= i < |ops| :: !Blind(ops[i], allowed)
    ensures Foreign(text) <= Foreign(ApplyAll(text, ops, allowed))
    ensures (Foreign(ApplyAll(text, ops, allowed)) == Foreign(text))
              <==> forall i | 0 <= i < |ops| :: !Straying(ops[i], allowed)
  {
    hide *;
    ReadersOfState(text, st);
    RunRefinesList(text, st, ops, allowed);
    ForeignInFront(st, ops, allowed);
  }

  predicate AllBlank(ls: seq<string>) {
    forall i | 0 <= i < |ls| :: ls[i] == ""
  }

  lemma {:induction false} NotStrayingStep(st: State, op: Op, allowed: string -> bool)
    requires !Straying(op, allowed)
    ensures AllBlank(st.foreign) ==> AllBlank(Step(st, op, allowed).foreign)
    ensures if Blind(op, allowed) then AllBlank(Step(st, op, allowed).foreign)
            else Step(st, op, allowed).foreign == OrBlank(st.foreign, Step(st, op, allowed).foreign != st.foreign)
  {
    hide FirstError, AllStrays, Entries, Without;
  }

  lemma {:induction false} BlankStays(st: State, ops: seq<Op>, allowed: string -> bool)
    requires AllBlank(st.foreign) && forall i | 0 <= i < |ops| :: !Straying(ops[i], allowed)
    ensures AllBlank(StepAll(st, ops, allowed).foreign)
    decreases |ops|
  {
    hide Straying, Step, AllBlank;
    if ops == [] {
    } else {
      NotStrayingStep(st, ops[0], allowed);
      BlankStays(Step(st, ops[0], allowed), ops[1..], allowed);
    }
  }

  lemma {:induction false} LostByBlind(st: State, ops: seq<Op>, allowed: string -> bool)
    requires !AllBlank(st.foreign) && forall i | 0 <= i < |ops| :: !Straying(ops[i], allowed)
    ensures StepAll(st, ops, allowed).foreign == st.foreign <==> forall i | 0 <= i < |ops| :: !Blind(ops[i], allowed)
    decreases |ops|
  {
    if ops == [] {
    } else {
      var after := Step(st, ops[0], allowed);
      NotStrayingStep(st, ops[0], allowed);
      assert st.foreign != [];
      hide Straying, Blind, Step, AllBlank;
      assert forall i | 1 <= i < |ops| :: ops[i] == ops[1..][i - 1];
      if Blind(ops[0], allowed) {
        BlankStays(after, ops[1..], allowed);
      } else {
        LostByBlind(after, ops[1..], allowed);
      }
    }
  }

  /**
   If every line of the synced jobs holds the marker, a run keeps the administrator's lines, one of them not blank,
   if and only if none of its operations writes after a read that failed.
   */
  lemma {:induction false} LostExactly(text: string, st: State, ops: seq<Op>, allowed: string -> bool)
    requires Represents(text, st) && (forall i | 0 <= i < |ops| :: NoReturns(ops[i])) && !AllBlank(st.foreign)
    requires forall i | 0 <= i < |ops| :: !Straying(ops[i], allowed)
    ensures Foreign(ApplyAll(text, ops, allowed)) == Foreign(text) <==>
            forall i | 0 <= i < |ops| :: !Blind(ops[i], allowed)
  {
    hide *;
    ReadersOfState(text, st);
    RunRefinesList(text, st, ops, allowed);
    LostByBlind(st, ops, allowed);
  }

  // ---- A removal, written out --------------------------------------------------------------------------------

  /** A removal keeps exactly the lines that do not hold the marker and the id, in order. */
  lemma {:induction false} RemovalWritten(ls: seq<string>, id: string)
    requires AllClean(ls) && ls != [] && forall i | 0 <= i < |ls| :: !Contains(ls[i], "# axiapanel:" + id)
    ensures Remove(Unlines(ls), id) == Unlines(ls)
    ensures forall l | Clean(l) && Contains(l, "# axiapanel:" + id) :: Remove(Unlines([l] + ls), id) == Unlines(ls)
  {
    MarkerIs();
    forall l | l in ls
      ensures Keeps(id)(l)
    {
      assert Untouched(l, id);
    }
    FilterAll(Keeps(id), ls);
    KeptWritten(ls, id);
    forall l | Clean(l) && Contains(l, "# axiapanel:" + id)
      ensures Remove(Unlines([l] + ls), id) == Unlines(ls)
    {
      assert AllClean([l] + ls);
      assert !Keeps(id)(l);
      FilterStep(Keeps(id), l, ls);
      hide *;
      KeptWritten([l] + ls, id);
      InstalledIs(ls);
    }
    InstalledIs(ls);
  }

  lemma MarkerIs()
    ensures MARKER == "# axiapanel:"
  {
  }

  lemma {:induction false} KeptWritten(ls: seq<string>, id: string)
    requires AllClean(ls)
    ensures Remove(Unlines(ls), id) == Installed(Filter(Keeps(id), ls))
  {
    LinesOfUnlines(ls);
    hide Lines, Unlines, Installed, Keeps;
  }
}
