/**
 The status pages that read `main.cf`, over runs of the edits that write it.
 */
module PostfixStatus {
  import opened Text
  import opened Postfix
  import opened PostfixRuns
  import opened PostfixSettings

  // ---- The status pages ------------------------------------------------------------------------------------

  /** `lines().find(…)`. */
  function FirstWith(q: Query, ls: seq<string>): Option<string> {
    if ls == [] then None else if Picks(q, ls[0]) then Some(ls[0]) else FirstWith(q, ls[1..])
  }

  /** `split(sep).nth(1).unwrap_or("").trim()` */
  function SecondField(l: string, sep: char): string {
    var parts := Split(l, [sep]);
    Trim(if |parts| > 1 then parts[1] else "")
  }

  function FieldOf(l: Option<string>, sep: char): string {
    if l.None? then "" else SecondField(l.value, sep)
  }

  datatype Status = Status(relay: string, rate: Option<string>, inbound: string, outbound: string)

  /** What the three status pages report from the lines of a file. */
  function Shown(ls: seq<string>): Status {
    var rate := FirstWith(RateNoted, ls);
    Status(FieldOf(FirstWith(Named(RELAY_HOST), ls), '='),
           if rate.None? then None else Some(SecondField(rate.value, ':')),
           FieldOf(FirstWith(Named(INBOUND), ls), '='),
           FieldOf(FirstWith(Named(OUTBOUND), ls), '='))
  }

  function BeforeEquals(s: string): string {
    if s == "" || s[0] == '=' then "" else [s[0]] + BeforeEquals(s[1..])
  }

  /** The part of a value that a status page shows. */
  function Cut(value: string): string {
    Trim(BeforeEquals(value))
  }

  /** What an administrator expects each request to do; removing the relay also forgets the outbound TLS level. */
  function Step(s: Status, r: Request): Status {
    if !Accepted(r) then s
    else
      match r
      case RelayConfigure(host, port, _, _) => s.(relay := Cut(RelayValue(host, port)), outbound := "encrypt")
      case RelayRemove => s.(relay := "", outbound := "")
      case RateLimitSet(rate) => s.(rate := Some(rate))
      case RateLimitRemove => s.(rate := None)
      case TlsEnforce(inbound, outbound) => s.(inbound := inbound, outbound := outbound)
  }

  function StepAll(s: Status, rs: seq<Request>): Status
    decreases |rs|
  {
    if rs == [] then s else StepAll(Step(s, rs[0]), rs[1..])
  }

  lemma {:induction false} FirstIsHead(q: Query, ls: seq<string>)
    ensures FirstWith(q, ls) == if Select(q, ls) == [] then None else Some(Select(q, ls)[0])
  {
    if ls == [] {
    } else {
      FirstIsHead(q, ls[1..]);
    }
  }

  lemma SameFirst(q: Query, a: seq<string>, b: seq<string>)
    requires Select(q, a) == Select(q, b)
    ensures FirstWith(q, a) == FirstWith(q, b)
  {
    FirstIsHead(q, a);
    FirstIsHead(q, b);
  }

  lemma FirstNonblank(q: Query, ls: seq<string>)
    requires !Picks(q, "")
    ensures FirstWith(q, Select(Nonblank, ls)) == FirstWith(q, ls)
  {
    SelectImplied(q, Nonblank, ls);
    SameFirst(q, Select(Nonblank, ls), ls);
  }

  lemma ShownEntries(text: string)
    ensures Shown(Entries(text)) == Shown(Lines(text))
  {
    assert !Picks(Named(RELAY_HOST), "") && !Picks(Named(INBOUND), "") && !Picks(Named(OUTBOUND), "");
    NotContainsChar("", RATE_NOTE + ":", 0);
    FirstNonblank(Named(RELAY_HOST), Lines(text));
    FirstNonblank(Named(INBOUND), Lines(text));
    FirstNonblank(Named(OUTBOUND), Lines(text));
    FirstNonblank(RateNoted, Lines(text));
  }

  /** The rate limit's note is a comment without the relay's; the relay's note is a comment, or part of a relay host. */
  predicate Separate(l: string) {
    && (Contains(l, RATE_NOTE) ==> "#" <= l && !Contains(l, RELAY_NOTE))
    && (Contains(l, RELAY_NOTE) ==> "#" <= l || RELAY_HOST <= l)
  }

  predicate AllSeparate(ls: seq<string>) {
    forall i | 0 <= i < |ls| :: Separate(ls[i])
  }

  /** Names that a feature neither drops nor writes. */
  predicate Strange(feature: Feature, name: string) {
    && name != "" && name[0] != '#'
    && match feature
       case Relay => ApartNames(RELAY_HOST, name) && ApartNames(SASL, name) && ApartNames(TLS, name)
       case Rate => ApartNames(RATE_DELAY, name) && ApartNames(RECIPIENTS, name)
       case Tls => ApartNames(INBOUND, name) && ApartNames(OUTBOUND, name)
  }

  lemma StrangeNames()
    ensures Strange(Rate, RELAY_HOST) && Strange(Tls, RELAY_HOST)
    ensures Strange(Relay, INBOUND) && Strange(Rate, INBOUND) && Strange(Rate, OUTBOUND)
  {
    NamesApart();
    assert ApartAt(RATE_DELAY, RELAY_HOST, 0) && ApartAt(RECIPIENTS, RELAY_HOST, 0);
    assert ApartAt(INBOUND, RELAY_HOST, 0) && ApartAt(OUTBOUND, RELAY_HOST, 0);
    assert ApartAt(RATE_DELAY, INBOUND, 4) && ApartAt(RECIPIENTS, INBOUND, 4);
    assert ApartAt(RATE_DELAY, OUTBOUND, 5) && ApartAt(RECIPIENTS, OUTBOUND, 5);
    assert RELAY_HOST[0] == 'r' && INBOUND[0] == 's' && OUTBOUND[0] == 's';
  }

  lemma StrangeIsKept(feature: Feature, l: string, name: string)
    requires Strange(feature, name) && Separate(l) && name <= l
    ensures !Dropped(feature, l)
  {
    assert l[0] == name[0];
    assert !Contains(l, RATE_NOTE);
    match feature
    case Relay =>
      StartsWithNeither(l, name, RELAY_HOST);
      assert !Contains(l, RELAY_NOTE);
      StartsWithNeither(l, name, SASL);
      StartsWithNeither(l, name, TLS);
    case Rate =>
      StartsWithNeither(l, name, RATE_DELAY);
      StartsWithNeither(l, name, RECIPIENTS);
    case Tls =>
      StartsWithNeither(l, name, INBOUND);
      StartsWithNeither(l, name, OUTBOUND);
  }

  lemma OwnedIsNotStrange(feature: Feature, owned: string, name: string, l: string)
    requires Owns(feature, owned) && Strange(feature, name) && owned <= l
    ensures !(name <= l)
  {
    match feature
    case Relay =>
      StartsWithNeither(l, name, RELAY_HOST);
      StartsWithNeither(l, name, SASL);
      StartsWithNeither(l, name, TLS);
    case Rate =>
      StartsWithNeither(l, name, RATE_DELAY);
      StartsWithNeither(l, name, RECIPIENTS);
    case Tls =>
      StartsWithNeither(l, name, INBOUND);
      StartsWithNeither(l, name, OUTBOUND);
  }

  lemma StrangeNotWritten(r: Request, name: string)
    requires Accepted(r) && Strange(FeatureOf(r), name)
    ensures Select(Named(name), Added(r)) == []
  {
    NoteNotNamed(r, name);
    SettingsOwned(r);
    var ss := Settings(r);
    hide Settings, Notes, Select, Accepted, Owns, FeatureOf;
    forall i | 0 <= i < |ss|
      ensures !Picks(Named(name), Map(Line, ss)[i])
    {
      OwnedIsNotStrange(FeatureOf(r), ss[i].name, name, Map(Line, ss)[i]);
    }
    SelectNone(Named(name), Map(Line, ss));
    SelectAppend(Named(name), Notes(r), Map(Line, ss));
  }

  lemma Replaced(q: Query, es: seq<string>, r: Request)
    requires Accepted(r)
    requires forall i | 0 <= i < |es| :: Picks(q, es[i]) ==> Dropped(FeatureOf(r), es[i])
    ensures Select(q, After(es, r)) == Select(q, Added(r))
  {
    hide Added, Dropped, FeatureOf, Accepted;
    SelectDisjoint(q, Kept(FeatureOf(r)), es);
    SelectAppend(q, Select(Kept(FeatureOf(r)), es), Added(r));
  }

  lemma Untouched(q: Query, es: seq<string>, r: Request)
    requires Accepted(r) && Select(q, Added(r)) == []
    requires forall i | 0 <= i < |es| :: Picks(q, es[i]) ==> !Dropped(FeatureOf(r), es[i])
    ensures Select(q, After(es, r)) == Select(q, es)
  {
    hide Added, Dropped, FeatureOf, Accepted;
    SelectImplied(q, Kept(FeatureOf(r)), es);
    SelectAppend(q, Select(Kept(FeatureOf(r)), es), Added(r));
  }

  lemma StrangeUntouched(es: seq<string>, r: Request, name: string)
    requires Accepted(r) && AllSeparate(es) && Strange(FeatureOf(r), name)
    ensures FirstWith(Named(name), After(es, r)) == FirstWith(Named(name), es)
  {
    hide Dropped, Strange, Accepted, FeatureOf, Separate, Added, After;
    StrangeNotWritten(r, name);
    forall i | 0 <= i < |es| && Picks(Named(name), es[i])
      ensures !Dropped(FeatureOf(r), es[i])
    {
      StrangeIsKept(FeatureOf(r), es[i], name);
    }
    Untouched(Named(name), es, r);
    SameFirst(Named(name), After(es, r), es);
  }

  lemma SettingFirst(es: seq<string>, r: Request, i: nat)
    requires Accepted(r) && i < |Settings(r)|
    ensures FirstWith(Named(Settings(r)[i].name), After(es, r)) == Some(Line(Settings(r)[i]))
  {
    SettingOnce(es, r, i);
    FirstIsHead(Named(Settings(r)[i].name), After(es, r));
  }

  lemma RemovedFirst(es: seq<string>, r: Request, name: string)
    requires Accepted(r) && Added(r) == [] && Owns(FeatureOf(r), name)
    ensures FirstWith(Named(name), After(es, r)) == None
  {
    hide Owns, Dropped, Added, FeatureOf, Accepted;
    assert After(es, r) == Select(Kept(FeatureOf(r)), es);
    OwnedGone(FeatureOf(r), name, es);
    FirstIsHead(Named(name), After(es, r));
  }

  lemma NotedIsNoted(l: string)
    requires Contains(l, RATE_NOTE + ":")
    ensures Contains(l, RATE_NOTE)
  {
    ContainsAround("", RATE_NOTE, ":");
    assert "" + RATE_NOTE + ":" == RATE_NOTE + ":";
    ContainsIn(l, RATE_NOTE + ":", RATE_NOTE);
  }

  lemma NotedIsKept(feature: Feature, l: string)
    requires feature != Rate && Picks(RateNoted, l) && Separate(l)
    ensures !Dropped(feature, l)
  {
    NotedIsNoted(l);
    assert l[0] == '#';
    assert RELAY_HOST[0] == 'r' && SASL[0] == 's' && TLS[0] == 's' && INBOUND[0] == 's' && OUTBOUND[0] == 's';
  }

  lemma NoHashNoNote(l: string)
    requires '#' !in l
    ensures !Contains(l, RATE_NOTE) && !Contains(l, RELAY_NOTE) && !Contains(l, RATE_NOTE + ":")
  {
    NotContainsChar(l, RATE_NOTE, 0);
    NotContainsChar(l, RELAY_NOTE, 0);
    NotContainsChar(l, RATE_NOTE + ":", 0);
  }

  lemma PlainLine(s: Setting)
    requires PlainSetting(s)
    ensures '#' !in Line(s)
  {
  }

  lemma RelayLineMarked(host: string, port: nat)
    ensures Contains(Directive(RELAY_HOST, RelayValue(host, port)), RATE_NOTE) <==> Contains(host, RATE_NOTE)
    ensures Contains(Directive(RELAY_HOST, RelayValue(host, port)), RATE_NOTE + ":") <==>
            Contains(host, RATE_NOTE + ":")
  {
    var before, after := RELAY_HOST + " = [", "]:" + Dec(port);
    assert Directive(RELAY_HOST, RelayValue(host, port)) == before + host + after;
    assert before[|before| - 1] == '[' && after[0] == ']';
    assert '#' !in before by { ShortNames(); }
    assert '#' !in after by { DigitsPlain(Dec(port)); }
    NotesPlain();
    hide *;
    MarkWithin(before, host, after, RATE_NOTE);
    MarkWithin(before, host, after, RATE_NOTE + ":");
  }

  lemma NotesPlain()
    ensures '[' !in RATE_NOTE && ']' !in RATE_NOTE && RATE_NOTE != "" && RATE_NOTE[0] == '#'
    ensures '[' !in RATE_NOTE + ":" && ']' !in RATE_NOTE + ":" && RATE_NOTE + ":" != "" && (RATE_NOTE + ":")[0] == '#'
  {
  }

  lemma MarkWithin(before: string, host: string, after: string, p: string)
    requires before != "" && before[|before| - 1] == '[' && after != "" && after[0] == ']'
    requires '#' !in before && '#' !in after
    requires p != "" && p[0] == '#' && '[' !in p && ']' !in p
    ensures Contains(before + host + after, p) <==> Contains(host, p)
  {
    hide *;
    forall i | 0 <= i < |before| && |before| < i + |p|
      ensures !OccursAt(before + host, p, i)
    {
      assert (before + host)[|before| - 1] == '[';
      NoCover(before + host, p, i, |before| - 1 - i);
    }
    ContainsConcat(before, host, p);
    forall i | 0 <= i < |before + host| && |before + host| < i + |p|
      ensures !OccursAt(before + host + after, p, i)
    {
      assert (before + host + after)[|before + host|] == ']';
      NoCover(before + host + after, p, i, |before + host| - i);
    }
    ContainsConcat(before + host, after, p);
    NotContainsChar(before, p, 0);
    NotContainsChar(after, p, 0);
  }

  lemma NoCover(s: string, p: string, i: nat, k: nat)
    requires k < |p| && i + k < |s| && s[i + k] !in p
    ensures !OccursAt(s, p, i)
  {
    if OccursAt(s, p, i) {
      OccursAtChar(s, p, i, k);
    }
  }

  /** A relay host without the rate limit's mark. */
  predicate Unmarked(r: Request) {
    r.RelayConfigure? ==> !Contains(r.host, RATE_NOTE)
  }

  lemma PlainLineSeparate(s: Setting)
    requires PlainSetting(s)
    ensures Separate(Line(s)) && !Picks(RateNoted, Line(s))
  {
    PlainLine(s);
    NoHashNoNote(Line(s));
    hide Contains, Line, PlainSetting;
  }

  lemma RelayLineSeparate(host: string, port: nat)
    requires !Contains(host, RATE_NOTE)
    ensures var l := Directive(RELAY_HOST, RelayValue(host, port)); Separate(l) && !Picks(RateNoted, l)
  {
    var l := Directive(RELAY_HOST, RelayValue(host, port));
    RelayLineMarked(host, port);
    assert RELAY_HOST <= l;
    if Contains(l, RATE_NOTE + ":") {
      NotedIsNoted(l);
    }
    hide Contains, Directive, RelayValue;
  }

  lemma RelaySettingSeparate(host: string, port: nat, i: nat)
    requires !Contains(host, RATE_NOTE) && i < 6
    ensures var l := Line(RelaySettings(host, port)[i]); Separate(l) && !Picks(RateNoted, l)
  {
    var ss := RelaySettings(host, port);
    assert ss[0] == Setting(RELAY_HOST, RelayValue(host, port));
    hide RelaySettings, RelayValue, Separate, Picks, Contains, PlainSetting;
    if i == 0 {
      RelayLineSeparate(host, port);
    } else {
      SaslSettings(host, port);
      CaSettings(host, port);
      PlainLineSeparate(ss[i]);
    }
  }

  lemma SettingSeparate(r: Request, i: nat)
    requires Accepted(r) && Unmarked(r) && i < |Settings(r)|
    ensures var l := Line(Settings(r)[i]); Separate(l) && !Picks(RateNoted, l)
  {
    match r
    case RelayConfigure(host, port, _, _) => RelaySettingSeparate(host, port, i);
    case RateLimitSet(_) => SettingsPlain(r); PlainLineSeparate(Settings(r)[i]);
    case TlsEnforce(_, _) => SettingsPlain(r); PlainLineSeparate(Settings(r)[i]);
    case _ =>
  }

  lemma RelayNoteSeparate()
    ensures "#" <= RELAY_NOTE + " configuration"
    ensures !Contains(RELAY_NOTE + " configuration", RATE_NOTE)
    ensures !Contains(RELAY_NOTE + " configuration", RATE_NOTE + ":")
  {
    var l := RELAY_NOTE + " configuration";
    assert RATE_NOTE[19] == 'm';
    assert 'm' !in RELAY_NOTE && 'm' !in " configuration";
    NotContainsChar(l, RATE_NOTE, 19);
    if Contains(l, RATE_NOTE + ":") {
      NotedIsNoted(l);
    }
  }

  lemma RateNoteStarts(x: string)
    ensures "#" <= RATE_NOTE + x && ApartAt(RATE_NOTE + x, RELAY_NOTE, 13) && RELAY_NOTE[0] == '#'
  {
  }

  lemma RateNoteSeparate(rate: string)
    requires '#' !in rate
    ensures var l := RATE_NOTE + ":" + (" " + rate);
            "#" <= l && !Contains(l, RELAY_NOTE) && Contains(l, RATE_NOTE + ":")
  {
    hide *;
    var l := RATE_NOTE + ":" + (" " + rate);
    var x := ":" + (" " + rate);
    assert l == RATE_NOTE + x;
    ContainsAround("", RATE_NOTE + ":", " " + rate);
    assert "" + (RATE_NOTE + ":") + (" " + rate) == l;
    RateNoteStarts(x);
    forall i | 0 < i < |l|
      ensures l[i] != '#'
    {
      HashOnlyFirst(rate, i);
    }
    OnlyFirst(l, RELAY_NOTE, 13);
  }

  /** A pattern whose first character only starts the line occurs at the start or not at all. */
  lemma OnlyFirst(l: string, p: string, k: nat)
    requires p != "" && ApartAt(l, p, k) && forall i | 0 < i < |l| :: l[i] != p[0]
    ensures !Contains(l, p)
  {
    forall i | 0 <= i <= |l|
      ensures !OccursAt(l, p, i)
    {
      if OccursAt(l, p, i) {
        OccursAtChar(l, p, i, 0);
        OccursAtChar(l, p, i, k);
      }
    }
  }

  lemma HashOnlyFirst(rate: string, i: nat)
    requires '#' !in rate
    ensures var l := RATE_NOTE + ":" + (" " + rate); 0 < i < |l| ==> l[i] != '#'
  {
    var l := RATE_NOTE + ":" + (" " + rate);
    assert '#' !in RATE_NOTE[1..];
    if 0 < i < |RATE_NOTE| {
      assert l[i] == RATE_NOTE[1..][i - 1];
    }
  }

  lemma NotesSeparate(r: Request)
    requires Accepted(r)
    ensures AllSeparate(Notes(r))
    ensures FeatureOf(r) != Rate ==> Select(RateNoted, Notes(r)) == []
    ensures r.RateLimitSet? ==> Select(RateNoted, Notes(r)) == Notes(r)
  {
    match r
    case RelayConfigure(_, _, _, _) => RelayNoteSeparate(); SelectNone(RateNoted, Notes(r));
    case RateLimitSet(rate) =>
      RateIsPlain(rate);
      RateTextPlain(rate);
      RateNoteSeparate(rate);
      SelectAll(RateNoted, Notes(r));
    case _ =>
  }

  lemma AddedSeparate(r: Request)
    requires Accepted(r) && Unmarked(r)
    ensures AllSeparate(Added(r)) && Select(RateNoted, Added(r)) == Select(RateNoted, Notes(r))
  {
    NotesSeparate(r);
    var ss := Settings(r);
    var ls := Map(Line, ss);
    hide Settings, Notes, Accepted, Unmarked, Select, Line, Separate, Picks;
    forall i | 0 <= i < |ls|
      ensures Separate(ls[i]) && !Picks(RateNoted, ls[i])
    {
      SettingSeparate(r, i);
    }
    SelectNone(RateNoted, ls);
    SelectAppend(RateNoted, Notes(r), ls);
  }

  lemma AfterSeparate(es: seq<string>, r: Request)
    requires AllSeparate(es) && Unmarked(r)
    ensures AllSeparate(After(es, r))
  {
    if Accepted(r) {
      AddedSeparate(r);
      var kept := Select(Kept(FeatureOf(r)), es);
      hide Separate, Added, Accepted, Unmarked, Select, FeatureOf;
      forall i | 0 <= i < |kept|
        ensures Separate(kept[i])
      {
        SelectIsPart(Kept(FeatureOf(r)), es, i);
      }
    }
  }

  lemma RateUntouched(es: seq<string>, r: Request)
    requires Accepted(r) && Unmarked(r) && AllSeparate(es) && FeatureOf(r) != Rate
    ensures FirstWith(RateNoted, After(es, r)) == FirstWith(RateNoted, es)
  {
    AddedSeparate(r);
    NotesSeparate(r);
    hide Dropped, Added, Accepted, Unmarked, After, FeatureOf, Separate, Select, Picks;
    forall i | 0 <= i < |es| && Picks(RateNoted, es[i])
      ensures !Dropped(FeatureOf(r), es[i])
    {
      NotedIsKept(FeatureOf(r), es[i]);
    }
    Untouched(RateNoted, es, r);
    SameFirst(RateNoted, After(es, r), es);
  }

  lemma RateReplaced(es: seq<string>, r: Request)
    requires Accepted(r) && FeatureOf(r) == Rate
    ensures FirstWith(RateNoted, After(es, r)) == if r.RateLimitSet? then Some(Notes(r)[0]) else None
  {
    assert Unmarked(r);
    NotesSeparate(r);
    AddedSeparate(r);
    assert r.RateLimitSet? || Notes(r) == [];
    assert Notes(r) == [] ==> Select(RateNoted, Notes(r)) == [];
    hide Dropped, Added, Accepted, Unmarked, After, Separate, Select, FeatureOf;
    forall i | 0 <= i < |es| && Picks(RateNoted, es[i])
      ensures Dropped(FeatureOf(r), es[i])
    {
      NotedIsNoted(es[i]);
      RateNotedDropped(es[i]);
    }
    Replaced(RateNoted, es, r);
    FirstIsHead(RateNoted, After(es, r));
  }

  lemma RateNotedDropped(l: string)
    requires Contains(l, RATE_NOTE)
    ensures Dropped(Rate, l)
  {
  }

  // ---- Reading the values back -----------------------------------------------------------------------------------

  lemma FieldReads(before: string, sep: char, value: string)
    requires sep !in before && sep !in value && sep != ' ' && Trimmed(value)
    ensures SecondField(before + [sep] + (" " + value), sep) == value
  {
    SplitAtChar(before, sep, " " + value);
    assert sep !in " " + value;
    NotContainsChar(" " + value, [sep], 0);
    SplitNone(" " + value, [sep]);
    TrimPaddedEnd(value);
  }

  lemma DirectiveReads(name: string, value: string)
    requires '=' !in name && '=' !in value && Trimmed(value)
    ensures SecondField(Directive(name, value), '=') == value
  {
    assert Directive(name, value) == (name + " ") + "=" + (" " + value);
    FieldReads(name + " ", '=', value);
  }

  lemma {:induction false} SplitLacks(s: string, c: char)
    ensures forall i | 0 <= i < |Split(s, [c])| :: c !in Split(s, [c])[i]
    decreases |s|
  {
    match Find(s, [c])
    case None =>
      forall i | 0 <= i < |s|
        ensures s[i] != c
      {
        assert !OccursAt(s, [c], i);
      }
    case Some(k) =>
      SplitLacks(s[k + 1..], c);
      forall i | 0 <= i < k
        ensures s[i] != c
      {
        assert !OccursAt(s, [c], i);
      }
  }

  lemma {:induction false} TrimIsPart(s: string)
    ensures forall c <- Trim(s) :: c in s
  {
    TrimStartIsPart(s);
    assert forall c <- TrimEnd(TrimStart(s)) :: c in TrimStart(s);
  }

  lemma {:induction false} TrimStartIsPart(s: string)
    ensures forall c <- TrimStart(s) :: c in s
  {
    if s == [] {
    } else {
      TrimStartIsPart(s[1..]);
    }
  }

  lemma {:induction false} FirstField(s: string)
    ensures Split(s, "=")[0] == BeforeEquals(s)
  {
    if '=' in s {
      var a, b := AtEquals(s);
      assert ['='] == "=";
      SplitAtChar(a, '=', b);
    } else {
      NotContainsChar(s, "=", 0);
      SplitNone(s, "=");
      NoEquals(s);
    }
  }

  lemma {:induction false} NoEquals(s: string)
    requires '=' !in s
    ensures BeforeEquals(s) == s
  {
    if s == "" {
    } else {
      NoEquals(s[1..]);
    }
  }

  lemma {:induction false} AtEquals(s: string) returns (a: string, b: string)
    requires '=' in s
    ensures '=' !in a && s == a + "=" + b && BeforeEquals(s) == a
  {
    if s[0] == '=' {
      a, b := "", s[1..];
    } else {
      assert s == [s[0]] + s[1..];
      a, b := AtEquals(s[1..]);
      a := [s[0]] + a;
    }
  }

  /** A status page shows of a directive what stands before the first equals sign of its value. */
  lemma DirectiveShown(name: string, value: string)
    requires '=' !in name
    ensures SecondField(Directive(name, value), '=') == Cut(value)
  {
    var before, after := name + " ", " " + value;
    assert Directive(name, value) == before + ['='] + after && ['='] == "=";
    SplitAtChar(before, '=', after);
    FirstField(after);
    assert after[1..] == value && BeforeEquals(after) == " " + BeforeEquals(value);
    assert IsSpace(' ');
    TrimStartSpaces(" ", BeforeEquals(value));
    hide Split, BeforeEquals, TrimStart, TrimEnd, Directive;
  }

  /** The relay's status shows the configured host and port exactly when the host holds no equals sign. */
  lemma {:induction false} RelayShownExactly(text: string, r: Request)
    requires '\r' !in text && Accepted(r) && r.RelayConfigure?
    ensures Shown(Lines(Handle(text, r))).relay == Cut(RelayValue(r.host, r.port))
    ensures Cut(RelayValue(r.host, r.port)) == RelayValue(r.host, r.port) <==> '=' !in r.host
  {
    var value := RelayValue(r.host, r.port);
    HandledEntries(text, r);
    ShownEntries(Handle(text, r));
    SettingFirst(Entries(text), r, 0);
    assert Shown(Lines(Handle(text, r))).relay == SecondField(Directive(RELAY_HOST, value), '=');
    assert '=' !in RELAY_HOST;
    DirectiveShown(RELAY_HOST, value);
    RelayFieldExactly(r.host, r.port);
    hide SecondField, Cut, RelayValue, Shown;
  }

  lemma RelayFieldExactly(host: string, port: nat)
    ensures var value := RelayValue(host, port);
            SecondField(Directive(RELAY_HOST, value), '=') == value <==> '=' !in host
  {
    var value := RelayValue(host, port);
    assert '=' !in RELAY_HOST && '=' !in "";
    DecNoEquals(port);
    assert '=' in host <==> '=' in value by {
      assert value == "[" + host + ("]:" + Dec(port));
      assert '=' !in "[" && '=' !in "]:" + Dec(port);
    }
    if '=' !in host {
      assert Trimmed(value) by { DecNoEquals(port); }
      DirectiveReads(RELAY_HOST, value);
    } else {
      var parts := Split(Directive(RELAY_HOST, value), "=");
      SplitLacks(Directive(RELAY_HOST, value), '=');
      TrimIsPart(if |parts| > 1 then parts[1] else "");
      assert '=' !in SecondField(Directive(RELAY_HOST, value), '=');
    }
  }

  lemma DecNoEquals(n: nat)
    ensures '=' !in Dec(n) && !IsSpace(Dec(n)[|Dec(n)| - 1])
  {
    forall i | 0 <= i < |Dec(n)|
      ensures Dec(n)[i] != '='
    {
    }
  }

  lemma RateReads(rate: string)
    requires ParseRate(rate).Some?
    ensures SecondField(RATE_NOTE + ":" + (" " + rate), ':') == rate
  {
    RateIsPlain(rate);
    hide ParseRate;
    assert ':' !in RATE_NOTE;
    assert RateChar(rate[0]) && RateChar(rate[|rate| - 1]);
    forall i | 0 <= i < |rate|
      ensures rate[i] != ':'
    {
      assert RateChar(rate[i]);
    }
    FieldReads(RATE_NOTE, ':', rate);
  }

  lemma LevelReads(level: string)
    requires ValidLevel(level)
    ensures SecondField(Directive(INBOUND, level), '=') == level == SecondField(Directive(OUTBOUND, level), '=')
  {
    LevelNamesAssign();
    LevelTrimmed(level);
    hide ValidLevel;
    DirectiveReads(INBOUND, level);
    DirectiveReads(OUTBOUND, level);
  }

  lemma LevelTrimmed(level: string)
    requires ValidLevel(level)
    ensures Trimmed(level) && '=' !in level
  {
  }

  lemma LevelNamesAssign()
    ensures '=' !in INBOUND && '=' !in OUTBOUND
  {
    assert '=' !in "security_level" && '=' !in "smtpd_tls_" && '=' !in TLS;
  }

  // ---- The status pages over runs --------------------------------------------------------------------------------

  lemma RelayStep(es: seq<string>, r: Request)
    requires AllSeparate(es) && Accepted(r) && Unmarked(r) && r.RelayConfigure?
    ensures Shown(After(es, r)) == Step(Shown(es), r)
  {
    StrangeNames();
    StrangeUntouched(es, r, INBOUND);
    RateUntouched(es, r);
    SettingFirst(es, r, 0);
    SettingFirst(es, r, 4);
    assert '=' !in RELAY_HOST;
    DirectiveShown(RELAY_HOST, RelayValue(r.host, r.port));
    assert ValidLevel("encrypt");
    LevelReads("encrypt");
    assert Settings(r)[0] == Setting(RELAY_HOST, RelayValue(r.host, r.port)) &&
           Settings(r)[4] == Setting(OUTBOUND, "encrypt");
    hide After, Settings, FirstWith, SecondField, RelayValue, Cut, Strange, AllSeparate, Accepted;
  }

  lemma RelayRemoveStep(es: seq<string>)
    requires AllSeparate(es)
    ensures Shown(After(es, RelayRemove)) == Step(Shown(es), RelayRemove)
  {
    StrangeNames();
    StrangeUntouched(es, RelayRemove, INBOUND);
    RateUntouched(es, RelayRemove);
    NamesApart();
    RemovedFirst(es, RelayRemove, RELAY_HOST);
    RemovedFirst(es, RelayRemove, OUTBOUND);
    hide After, FirstWith, SecondField, Strange, AllSeparate;
  }

  lemma RateStep(es: seq<string>, r: Request)
    requires AllSeparate(es) && Accepted(r) && FeatureOf(r) == Rate
    ensures Shown(After(es, r)) == Step(Shown(es), r)
  {
    StrangeNames();
    StrangeUntouched(es, r, INBOUND);
    StrangeUntouched(es, r, OUTBOUND);
    StrangeUntouched(es, r, RELAY_HOST);
    RateReplaced(es, r);
    if r.RateLimitSet? {
      RateReads(r.rate);
    }
    hide After, FirstWith, SecondField, Strange, AllSeparate, Accepted;
  }

  lemma TlsStep(es: seq<string>, r: Request)
    requires AllSeparate(es) && Accepted(r) && r.TlsEnforce?
    ensures Shown(After(es, r)) == Step(Shown(es), r)
  {
    StrangeNames();
    StrangeUntouched(es, r, RELAY_HOST);
    RateUntouched(es, r);
    SettingFirst(es, r, 0);
    SettingFirst(es, r, 1);
    LevelReads(r.inbound);
    LevelReads(r.outbound);
    hide After, FirstWith, SecondField, Strange, AllSeparate, Accepted;
  }

  lemma {:induction false} StatusStep(es: seq<string>, r: Request)
    requires AllSeparate(es) && Unmarked(r)
    ensures Shown(After(es, r)) == Step(Shown(es), r)
  {
    if Accepted(r) {
      match r
      case RelayConfigure(_, _, _, _) => RelayStep(es, r);
      case RelayRemove => RelayRemoveStep(es);
      case RateLimitSet(_) => RateStep(es, r);
      case RateLimitRemove => RateStep(es, r);
      case TlsEnforce(_, _) => TlsStep(es, r);
    }
  }

  /** After any run of requests, the status pages report what the requests add up to. */
  lemma {:induction false} StatusRefines(text: string, rs: seq<Request>)
    requires '\r' !in text && AllSeparate(Entries(text))
    requires forall i | 0 <= i < |rs| :: Unmarked(rs[i])
    ensures Shown(Lines(HandleAll(text, rs))) == StepAll(Shown(Lines(text)), rs)
    decreases |rs|
  {
    if rs == [] {
    } else {
      hide Shown, Step, After, AllSeparate, Handle, Entries, Lines;
      ShownEntries(text);
      HandledEntries(text, rs[0]);
      ShownEntries(Handle(text, rs[0]));
      StatusStep(Entries(text), rs[0]);
      AfterSeparate(Entries(text), rs[0]);
      StatusRefines(Handle(text, rs[0]), rs[1..]);
    }
  }

  /** From an empty file, on which nothing is configured, the status pages report what the requests add up to. */
  lemma {:induction false} StatusFromNothing(rs: seq<Request>)
    requires forall i | 0 <= i < |rs| :: Unmarked(rs[i])
    ensures Shown(Lines(HandleAll("", rs))) == StepAll(Status("", None, "", ""), rs)
  {
    assert Shown(Lines("")) == Status("", None, "", "") && AllSeparate(Entries(""));
    hide *;
    StatusRefines("", rs);
  }

  // ---- Why a host must not look like a comment --------------------------------------------------------------

  /** A relay line with the rate limit's mark in it is lost at the next rate request, and only then. */
  lemma {:induction false} RelayLostExactly(es: seq<string>, r: Request, s: Request)
    requires Accepted(r) && r.RelayConfigure? && Accepted(s) && FeatureOf(s) == Rate
    ensures Select(Named(RELAY_HOST), After(After(es, r), s)) ==
              if Contains(r.host, RATE_NOTE) then [] else [Directive(RELAY_HOST, RelayValue(r.host, r.port))]
  {
    var l := Directive(RELAY_HOST, RelayValue(r.host, r.port));
    SettingOnce(es, r, 0);
    assert Settings(r)[0] == Setting(RELAY_HOST, RelayValue(r.host, r.port));
    RelayLineMarked(r.host, r.port);
    assert RELAY_HOST <= l;
    hide *;
    RelayUnderRate(After(es, r), s, l);
  }

  lemma RelayUnderRate(es: seq<string>, s: Request, l: string)
    requires Accepted(s) && FeatureOf(s) == Rate && RELAY_HOST <= l
    requires Select(Named(RELAY_HOST), es) == [l]
    ensures Select(Named(RELAY_HOST), After(es, s)) == if Contains(l, RATE_NOTE) then [] else [l]
  {
    hide *;
    StrangeNames();
    StrangeNotWritten(s, RELAY_HOST);
    RelayLineKept(l);
    AfterIs(es, s);
    SelectAppend(Named(RELAY_HOST), Select(Kept(Rate), es), Added(s));
    SelectCommutes(Named(RELAY_HOST), Kept(Rate), es);
    if Contains(l, RATE_NOTE) {
      SelectNone(Kept(Rate), [l]);
    } else {
      SelectAll(Kept(Rate), [l]);
    }
  }

  lemma RelayLineKept(l: string)
    requires RELAY_HOST <= l
    ensures Picks(Kept(Rate), l) <==> !Contains(l, RATE_NOTE)
  {
    assert l[0] == 'r';
    hide Contains;
  }

  lemma AfterIs(es: seq<string>, r: Request)
    requires Accepted(r)
    ensures After(es, r) == Select(Kept(FeatureOf(r)), es) + Added(r)
  {
  }
}
