/**
 The status pages when relay hosts may hold the rate limit's mark: exactly what they report, and
 exactly when that is what the requests add up to.
 */
module PostfixMarks {
  import opened Postfix
  import opened PostfixRuns
  import opened PostfixSettings
  import opened PostfixStatus
  import opened Text

  /** What the file's other lines report, and the relay's line if it holds the mark. */
  datatype Tracked = Tracked(rest: Status, marked: Option<string>)

  /** What the status pages make of that: a marked relay line may also pose as the rate limit's note. */
  function View(t: Tracked): Status {
    match t.marked
    case None => t.rest
    case Some(l) =>
      t.rest.(relay := SecondField(l, '='),
              rate := if t.rest.rate.None? && Picks(RateNoted, l) then Some(SecondField(l, ':')) else t.rest.rate)
  }

  function RelayLine(host: string, port: nat): string {
    Directive(RELAY_HOST, RelayValue(host, port))
  }

  /** What one request does: a rate request drops a marked relay line. */
  function Follow(t: Tracked, r: Request): Tracked {
    if !Accepted(r) then t
    else
      match r
      case RelayConfigure(host, port, _, _) =>
        if Contains(host, RATE_NOTE) then Tracked(Step(t.rest, r).(relay := ""), Some(RelayLine(host, port)))
        else Tracked(Step(t.rest, r), None)
      case TlsEnforce(_, _) => Tracked(Step(t.rest, r), t.marked)
      case _ => Tracked(Step(t.rest, r), None)
  }

  function FollowAll(t: Tracked, rs: seq<Request>): Tracked
    decreases |rs|
  {
    if rs == [] then t else FollowAll(Follow(t, rs[0]), rs[1..])
  }

  // ---- Files with a marked relay line ---------------------------------------------------------------

  predicate Marked(l: string) {
    RELAY_HOST <= l && Contains(l, RATE_NOTE)
  }

  /** `es` are the lines `a` and `b`, with a marked relay line between them if there is one. */
  predicate Holds(es: seq<string>, t: Tracked, a: seq<string>, b: seq<string>) {
    && AllSeparate(a + b) && Shown(a + b) == t.rest
    && match t.marked
       case None => es == a + b
       case Some(l) =>
         es == a + [l] + b && Marked(l) && Select(Named(RELAY_HOST), a + b) == [] && Select(RateNoted, b) == []
  }

  lemma {:induction false} SelectOne(q: Query, l: string)
    ensures Select(q, [l]) == if Picks(q, l) then [l] else []
  {
    if Picks(q, l) {
      SelectAll(q, [l]);
    } else {
      SelectNone(q, [l]);
    }
  }

  lemma {:induction false} SelectInsert(q: Query, a: seq<string>, l: string, b: seq<string>)
    ensures Select(q, a + [l] + b) == Select(q, a) + (if Picks(q, l) then [l] else []) + Select(q, b)
    ensures Select(q, a + b) == Select(q, a) + Select(q, b)
  {
    hide *;
    SelectAppend(q, a + [l], b);
    SelectAppend(q, a, [l]);
    SelectAppend(q, a, b);
    SelectOne(q, l);
  }

  lemma {:induction false} SkipOne(q: Query, a: seq<string>, l: string, b: seq<string>)
    requires !Picks(q, l)
    ensures FirstWith(q, a + [l] + b) == FirstWith(q, a + b)
  {
    hide *;
    SelectInsert(q, a, l, b);
    assert Select(q, a) + [] == Select(q, a);
    SameFirst(q, a + [l] + b, a + b);
  }

  lemma {:induction false} FirstRelay(a: seq<string>, l: string, b: seq<string>)
    requires RELAY_HOST <= l && Select(Named(RELAY_HOST), a + b) == []
    ensures FirstWith(Named(RELAY_HOST), a + [l] + b) == Some(l) && FirstWith(Named(RELAY_HOST), a + b) == None
  {
    RelayNamed(l);
    hide *;
    SelectInsert(Named(RELAY_HOST), a, l, b);
    FirstIsHead(Named(RELAY_HOST), a + [l] + b);
    FirstIsHead(Named(RELAY_HOST), a + b);
  }

  lemma RelayNamed(l: string)
    requires RELAY_HOST <= l
    ensures Picks(Named(RELAY_HOST), l) && !Picks(Named(INBOUND), l) && !Picks(Named(OUTBOUND), l)
  {
    assert l[0] == 'r' && INBOUND[0] == 's' && OUTBOUND[0] == 's';
  }

  lemma {:induction false} FirstNoted(a: seq<string>, l: string, b: seq<string>)
    requires Select(RateNoted, b) == []
    ensures FirstWith(RateNoted, a + [l] + b) ==
              if FirstWith(RateNoted, a + b).None? && Picks(RateNoted, l) then Some(l) else FirstWith(RateNoted, a + b)
  {
    hide *;
    SelectInsert(RateNoted, a, l, b);
    FirstIsHead(RateNoted, a + [l] + b);
    FirstIsHead(RateNoted, a + b);
  }

  /** What a marked or any other relay line adds to what is reported. */
  lemma {:induction false} ShownInsert(a: seq<string>, l: string, b: seq<string>)
    requires RELAY_HOST <= l && Select(Named(RELAY_HOST), a + b) == [] && Select(RateNoted, b) == []
    ensures Shown(a + [l] + b) == View(Tracked(Shown(a + b), Some(l))) && Shown(a + b).relay == ""
  {
    RelayNamed(l);
    FirstRelay(a, l, b);
    FirstNoted(a, l, b);
    SkipOne(Named(INBOUND), a, l, b);
    SkipOne(Named(OUTBOUND), a, l, b);
    hide FirstWith, SecondField, Select, Picks;
  }

  lemma {:induction false} HoldsView(es: seq<string>, t: Tracked, a: seq<string>, b: seq<string>)
    requires Holds(es, t, a, b)
    ensures Shown(es) == View(t)
  {
    if t.marked.Some? {
      assert RELAY_HOST <= t.marked.value;
      hide Shown, View, Select, AllSeparate, Contains;
      ShownInsert(a, t.marked.value, b);
    }
  }

  // ---- What every request keeps -------------------------------------------------------------------------

  lemma {:induction false} PlainStep(es: seq<string>, r: Request)
    requires AllSeparate(es) && Unmarked(r)
    ensures Holds(After(es, r), Tracked(Step(Shown(es), r), None), After(es, r), [])
  {
    hide *;
    StatusStep(es, r);
    AfterSeparate(es, r);
    HoldsPlain(After(es, r), Step(Shown(es), r));
  }

  lemma {:induction false} HoldsPlain(es: seq<string>, s: Status)
    requires AllSeparate(es) && Shown(es) == s
    ensures Holds(es, Tracked(s, None), es, [])
  {
    hide AllSeparate, Shown;
    assert es + [] == es;
  }

  /** The lines of a relay request before and after the relay's own. */
  function FrontOf(es: seq<string>): seq<string> {
    Select(Kept(Relay), es) + [RELAY_NOTE + " configuration"]
  }

  function BackOf(host: string, port: nat): seq<string> {
    Map(Line, RelaySettings(host, port)[1..])
  }

  lemma {:induction false} RelayAfter(es: seq<string>, r: Request)
    requires Accepted(r) && r.RelayConfigure?
    ensures After(es, r) == FrontOf(es) + [RelayLine(r.host, r.port)] + BackOf(r.host, r.port)
  {
    var ss := RelaySettings(r.host, r.port);
    AfterIs(es, r);
    assert Added(r) == [RELAY_NOTE + " configuration"] + Map(Line, ss) && FeatureOf(r) == Relay;
    assert Line(ss[0]) == RelayLine(r.host, r.port);
    hide *;
    MapCut(ss);
  }

  lemma {:induction false} MapCut(ss: seq<Setting>)
    requires ss != []
    ensures Map(Line, ss) == [Line(ss[0])] + Map(Line, ss[1..])
  {
    hide Line;
  }

  lemma SameBack(host: string, other: string, port: nat)
    ensures BackOf(host, port) == BackOf(other, port)
  {
    hide RelayValue;
    assert RelaySettings(host, port)[1..] == RelaySettings(other, port)[1..];
  }

  lemma {:induction false} BackNotNoted(r: Request)
    requires Accepted(r) && r.RelayConfigure? && Unmarked(r)
    ensures Select(RateNoted, BackOf(r.host, r.port)) == []
  {
    var back := BackOf(r.host, r.port);
    assert |back| == 5;
    hide BackOf, Picks, Contains, Accepted;
    forall i | 0 <= i < |back|
      ensures !Picks(RateNoted, back[i])
    {
      BackLine(r.host, r.port, i);
      assert !Contains(r.host, RATE_NOTE);
      RelaySettingSeparate(r.host, r.port, i + 1);
    }
    SelectNone(RateNoted, back);
  }

  lemma BackLine(host: string, port: nat, i: nat)
    requires i < 5
    ensures |BackOf(host, port)| == 5 && BackOf(host, port)[i] == Line(RelaySettings(host, port)[i + 1])
  {
    hide Line, RelayValue;
    assert RelaySettings(host, port)[1..][i] == RelaySettings(host, port)[i + 1];
  }

  lemma {:induction false} SeparateParts(a: seq<string>, l: string, b: seq<string>)
    requires AllSeparate(a + [l] + b)
    ensures AllSeparate(a + b)
  {
    hide Separate;
    var all := a + [l] + b;
    assert forall i | 0 <= i < |a + b| :: (a + b)[i] == all[if i < |a| then i else i + 1];
  }

  lemma PlainHost(r: Request)
    requires Accepted(r) && r.RelayConfigure?
    ensures Accepted(r.(host := "h")) && Unmarked(r.(host := "h"))
  {
    NotContainsChar("h", RATE_NOTE, 0);
  }

  lemma {:induction false} OneRelay(es: seq<string>, r: Request)
    requires Accepted(r) && r.RelayConfigure?
    ensures Select(Named(RELAY_HOST), After(es, r)) == [RelayLine(r.host, r.port)]
  {
    assert Settings(r)[0] == Setting(RELAY_HOST, RelayValue(r.host, r.port)) && |Settings(r)| == 6;
    assert Line(Settings(r)[0]) == RelayLine(r.host, r.port);
    hide *;
    SettingOnce(es, r, 0);
    NameIs(RELAY_HOST, RelayValue(r.host, r.port));
  }

  lemma NameIs(name: string, value: string)
    ensures Setting(name, value).name == name
  {
  }

  lemma {:induction false} OtherwiseNone(a: seq<string>, l: string, b: seq<string>)
    requires RELAY_HOST <= l && Select(Named(RELAY_HOST), a + [l] + b) == [l]
    ensures Select(Named(RELAY_HOST), a + b) == []
  {
    RelayNamed(l);
    hide *;
    SelectInsert(Named(RELAY_HOST), a, l, b);
    var x, y := Select(Named(RELAY_HOST), a), Select(Named(RELAY_HOST), b);
    assert |x + [l] + y| == 1;
  }

  lemma RelayLineStarts(host: string, port: nat)
    ensures RELAY_HOST <= RelayLine(host, port)
    ensures Contains(RelayLine(host, port), RATE_NOTE) <==> Contains(host, RATE_NOTE)
    ensures Picks(RateNoted, RelayLine(host, port)) <==> Contains(host, RATE_NOTE + ":")
  {
    RelayLineMarked(host, port);
    hide Contains, RelayValue;
  }

  /** A relay request with another host changes everything but the relay's line in the same way. */
  lemma {:induction false} OtherHost(es: seq<string>, r: Request)
    requires AllSeparate(es) && Accepted(r) && r.RelayConfigure?
    ensures var a, b := FrontOf(es), BackOf(r.host, r.port);
            && AllSeparate(a + b) && Select(Named(RELAY_HOST), a + b) == [] && Select(RateNoted, b) == []
            && Shown(a + b) == Step(Shown(es), r).(relay := "")
  {
    var plain := r.(host := "h");
    PlainHost(r);
    assert !Contains(plain.host, RATE_NOTE) && plain.port == r.port;
    StepsAlike(Shown(es), r, plain);
    hide *;
    var a, l, b := FrontOf(es), RelayLine(plain.host, plain.port), BackOf(r.host, r.port);
    SameBack(r.host, plain.host, r.port);
    RelayAfter(es, plain);
    RelayLineStarts(plain.host, plain.port);
    OneRelay(es, plain);
    OtherwiseNone(a, l, b);
    BackNotNoted(plain);
    AfterSeparate(es, plain);
    SeparateParts(a, l, b);
    StatusStep(es, plain);
    ShownInsert(a, l, b);
    NotedMarks(plain.host);
    ViewPlain(Shown(a + b), l);
  }

  lemma NotedMarks(host: string)
    ensures Contains(host, RATE_NOTE + ":") ==> Contains(host, RATE_NOTE)
  {
    if Contains(host, RATE_NOTE + ":") {
      NotedIsNoted(host);
    }
  }

  lemma ViewPlain(s: Status, l: string)
    requires s.relay == "" && !Picks(RateNoted, l)
    ensures View(Tracked(s, Some(l))).(relay := "") == s
  {
    hide SecondField, Picks;
  }

  lemma StepsAlike(s: Status, r: Request, plain: Request)
    requires Accepted(r) && Accepted(plain) && r.RelayConfigure? && plain.RelayConfigure?
    requires plain == r.(host := plain.host)
    ensures Step(s, plain).(relay := "") == Step(s, r).(relay := "")
  {
    hide Cut, RelayValue;
  }

  lemma {:induction false} MarkedConfigured(es: seq<string>, r: Request)
    requires AllSeparate(es) && Accepted(r) && r.RelayConfigure? && Contains(r.host, RATE_NOTE)
    ensures Holds(After(es, r), Follow(Tracked(Shown(es), None), r), FrontOf(es), BackOf(r.host, r.port))
  {
    var a, l, b := FrontOf(es), RelayLine(r.host, r.port), BackOf(r.host, r.port);
    OtherHost(es, r);
    RelayAfter(es, r);
    RelayLineStarts(r.host, r.port);
    hide Shown, Step, AllSeparate, Select, Contains, Accepted, After, FrontOf, BackOf, RelayLine;
    assert Marked(l);
  }

  /** A request on a file without a marked relay line. */
  lemma {:induction false} FollowPlain(es: seq<string>, r: Request) returns (a: seq<string>, b: seq<string>)
    requires AllSeparate(es)
    ensures Holds(After(es, r), Follow(Tracked(Shown(es), None), r), a, b)
  {
    if Accepted(r) && r.RelayConfigure? && Contains(r.host, RATE_NOTE) {
      a, b := FrontOf(es), BackOf(r.host, r.port);
      MarkedConfigured(es, r);
    } else {
      PlainFollows(Shown(es), r);
      hide *;
      a, b := After(es, r), [];
      if Accepted(r) {
        PlainStep(es, r);
      } else {
        Refused(es, r);
        HoldsPlain(es, Shown(es));
      }
    }
  }

  lemma PlainFollows(s: Status, r: Request)
    requires !(Accepted(r) && r.RelayConfigure? && Contains(r.host, RATE_NOTE))
    ensures Accepted(r) ==> Unmarked(r) && Follow(Tracked(s, None), r) == Tracked(Step(s, r), None)
    ensures !Accepted(r) ==> Follow(Tracked(s, None), r) == Tracked(s, None)
  {
    hide Accepted, Contains;
  }

  lemma Refused(es: seq<string>, r: Request)
    requires !Accepted(r)
    ensures After(es, r) == es
  {
  }

  lemma MarkedDropped(feature: Feature, l: string)
    requires Marked(l)
    ensures Picks(Kept(feature), l) <==> feature == Tls
  {
    RelayLineIsKept(l);
  }

  lemma RelayLineIsKept(l: string)
    requires RELAY_HOST <= l
    ensures !Dropped(Tls, l) && Dropped(Relay, l)
  {
    assert l[0] == 'r' && INBOUND[0] == 's' && OUTBOUND[0] == 's';
  }

  /** Relay and rate requests drop a marked relay line. */
  lemma {:induction false} MarkGoes(a: seq<string>, l: string, b: seq<string>, r: Request)
    requires Marked(l) && Accepted(r) && FeatureOf(r) != Tls
    ensures After(a + [l] + b, r) == After(a + b, r)
  {
    hide *;
    MarkedDropped(FeatureOf(r), l);
    SelectInsert(Kept(FeatureOf(r)), a, l, b);
    assert Select(Kept(FeatureOf(r)), a) + [] == Select(Kept(FeatureOf(r)), a);
    AfterIs(a + [l] + b, r);
    AfterIs(a + b, r);
  }

  lemma {:induction false} NoneKept(q: Query, ls: seq<string>)
    requires Select(q, ls) == []
    ensures Select(q, Select(Kept(Tls), ls)) == []
  {
    hide *;
    SelectCommutes(q, Kept(Tls), ls);
    SelectNone(Kept(Tls), []);
  }

  lemma {:induction false} TlsAdds(r: Request)
    requires Accepted(r) && r.TlsEnforce?
    ensures Select(Named(RELAY_HOST), Added(r)) == [] && Select(RateNoted, Added(r)) == []
  {
    StrangeNames();
    StrangeNotWritten(r, RELAY_HOST);
    AddedSeparate(r);
    NotesSeparate(r);
  }

  lemma {:induction false} TlsAfter(a: seq<string>, l: string, b: seq<string>, r: Request)
    requires Accepted(r) && r.TlsEnforce? && Marked(l)
    ensures var front, back := Select(Kept(Tls), a), Select(Kept(Tls), b) + Added(r);
            After(a + [l] + b, r) == front + [l] + back && After(a + b, r) == front + back
  {
    assert FeatureOf(r) == Tls;
    hide *;
    MarkedDropped(Tls, l);
    SelectInsert(Kept(Tls), a, l, b);
    AfterIs(a + [l] + b, r);
    AfterIs(a + b, r);
    Regroup(Select(Kept(Tls), a), Select(Kept(Tls), b), Added(r));
    Regroup(Select(Kept(Tls), a) + [l], Select(Kept(Tls), b), Added(r));
  }

  lemma Regroup(a: seq<string>, b: seq<string>, c: seq<string>)
    ensures a + b + c == a + (b + c)
  {
  }

  lemma {:induction false} TlsKeeps(a: seq<string>, b: seq<string>, r: Request)
    requires Accepted(r) && r.TlsEnforce? && Select(Named(RELAY_HOST), a + b) == [] && Select(RateNoted, b) == []
    ensures Select(Named(RELAY_HOST), After(a + b, r)) == [] && Select(RateNoted, Select(Kept(Tls), b) + Added(r)) == []
  {
    assert FeatureOf(r) == Tls;
    hide *;
    TlsAdds(r);
    AfterIs(a + b, r);
    NoneKept(Named(RELAY_HOST), a + b);
    NoneKept(RateNoted, b);
    SelectAppend(Named(RELAY_HOST), Select(Kept(Tls), a + b), Added(r));
    SelectAppend(RateNoted, Select(Kept(Tls), b), Added(r));
  }

  /** A TLS request keeps a marked relay line. */
  lemma {:induction false} MarkStays(a: seq<string>, l: string, b: seq<string>, r: Request)
    requires Holds(a + [l] + b, Tracked(Shown(a + b), Some(l)), a, b) && Accepted(r) && r.TlsEnforce?
    ensures Holds(After(a + [l] + b, r), Tracked(Step(Shown(a + b), r), Some(l)),
                  Select(Kept(Tls), a), Select(Kept(Tls), b) + Added(r))
  {
    assert Marked(l) && AllSeparate(a + b) && Select(Named(RELAY_HOST), a + b) == [] && Select(RateNoted, b) == [];
    assert Unmarked(r);
    hide *;
    TlsAfter(a, l, b, r);
    TlsKeeps(a, b, r);
    StatusStep(a + b, r);
    AfterSeparate(a + b, r);
    HoldsMarked(Select(Kept(Tls), a), l, Select(Kept(Tls), b) + Added(r), Step(Shown(a + b), r));
  }

  lemma {:induction false} HoldsMarked(a: seq<string>, l: string, b: seq<string>, s: Status)
    requires AllSeparate(a + b) && Shown(a + b) == s && Marked(l)
    requires Select(Named(RELAY_HOST), a + b) == [] && Select(RateNoted, b) == []
    ensures Holds(a + [l] + b, Tracked(s, Some(l)), a, b)
  {
  }

  lemma {:induction false} FollowHolds(es: seq<string>, t: Tracked, a: seq<string>, b: seq<string>, r: Request)
    returns (front: seq<string>, back: seq<string>)
    requires Holds(es, t, a, b)
    ensures Holds(After(es, r), Follow(t, r), front, back)
  {
    assert AllSeparate(a + b) && Shown(a + b) == t.rest && t == Tracked(Shown(a + b), t.marked);
    if t.marked.None? {
      assert es == a + b;
      hide *;
      front, back := FollowPlain(es, r);
    } else if !Accepted(r) {
      front, back := a, b;
      Refused(es, r);
    } else if r.TlsEnforce? {
      front, back := Select(Kept(Tls), a), Select(Kept(Tls), b) + Added(r);
      assert es == a + [t.marked.value] + b;
      assert Follow(t, r) == Tracked(Step(Shown(a + b), r), t.marked);
      hide *;
      MarkStays(a, t.marked.value, b, r);
    } else {
      assert es == a + [t.marked.value] + b && Marked(t.marked.value);
      SameFollow(t, r);
      hide *;
      MarkGoes(a, t.marked.value, b, r);
      front, back := FollowPlain(a + b, r);
    }
  }

  lemma SameFollow(t: Tracked, r: Request)
    requires Accepted(r) && !r.TlsEnforce?
    ensures Follow(t, r) == Follow(Tracked(t.rest, None), r) && FeatureOf(r) != Tls
  {
    hide Accepted, Contains, Step;
  }

  // ---- Runs --------------------------------------------------------------------------------------------------

  lemma {:induction false} HandledHolds(text: string, t: Tracked, a: seq<string>, b: seq<string>, r: Request)
    returns (front: seq<string>, back: seq<string>)
    requires '\r' !in text && Holds(Entries(text), t, a, b)
    ensures '\r' !in Handle(text, r) && Holds(Entries(Handle(text, r)), Follow(t, r), front, back)
  {
    hide *;
    HandledEntries(text, r);
    front, back := FollowHolds(Entries(text), t, a, b, r);
  }

  lemma {:induction false} RunShown(text: string, t: Tracked, a: seq<string>, b: seq<string>, rs: seq<Request>)
    requires '\r' !in text && Holds(Entries(text), t, a, b)
    ensures Shown(Lines(HandleAll(text, rs))) == View(FollowAll(t, rs))
    decreases |rs|
  {
    hide Holds, Shown, Lines, View, Handle, Follow, Entries;
    if rs == [] {
      ShownEntries(text);
      HoldsView(Entries(text), t, a, b);
    } else {
      var front, back := HandledHolds(text, t, a, b, rs[0]);
      RunShown(Handle(text, rs[0]), Follow(t, rs[0]), front, back, rs[1..]);
    }
  }

  /** After any run of requests, whatever the relay hosts, the status pages report what is tracked. */
  lemma {:induction false} StatusTracked(text: string, rs: seq<Request>)
    requires '\r' !in text && AllSeparate(Entries(text))
    ensures Shown(Lines(HandleAll(text, rs))) == View(FollowAll(Tracked(Shown(Lines(text)), None), rs))
  {
    hide *;
    ShownEntries(text);
    HoldsPlain(Entries(text), Shown(Entries(text)));
    RunShown(text, Tracked(Shown(Lines(text)), None), Entries(text), [], rs);
  }

  // ---- When the status pages are right -----------------------------------------------------------------------

  /** From the start of a run and after each of its requests the status pages report what the requests add up to. */
  predicate RightThroughout(text: string, s: Status, rs: seq<Request>)
    decreases |rs|
  {
    Shown(Lines(text)) == s && (rs != [] ==> RightThroughout(Handle(text, rs[0]), Step(s, rs[0]), rs[1..]))
  }

  /**
   No rate request finds a relay host with the rate limit's mark configured, and no host that could be taken for the
   note itself, mark and colon, is configured while no rate is set.
   */
  predicate Careful(rated: bool, marked: bool, rs: seq<Request>)
    decreases |rs|
  {
    rs == [] ||
    if !Accepted(rs[0]) then Careful(rated, marked, rs[1..])
    else
      match rs[0]
      case RelayConfigure(host, _, _, _) =>
        (Contains(host, RATE_NOTE + ":") ==> rated) && Careful(rated, Contains(host, RATE_NOTE), rs[1..])
      case RelayRemove => Careful(rated, false, rs[1..])
      case RateLimitSet(_) => !marked && Careful(true, false, rs[1..])
      case RateLimitRemove => !marked && Careful(false, false, rs[1..])
      case TlsEnforce(_, _) => Careful(rated, marked, rs[1..])
  }

  predicate Agrees(s: Status, t: Tracked) {
    && s.rate == t.rest.rate && s.inbound == t.rest.inbound && s.outbound == t.rest.outbound
    && match t.marked
       case None => s.relay == t.rest.relay
       case Some(l) =>
         && s.relay == SecondField(l, '=') && s.relay != "" && t.rest.relay == ""
         && (Picks(RateNoted, l) ==> s.rate.Some?)
  }

  lemma AgreesView(s: Status, t: Tracked)
    requires Agrees(s, t)
    ensures View(t) == s
  {
    hide SecondField, Picks;
  }

  /** What one request may not do. */
  predicate CarefulStep(t: Tracked, r: Request) {
    Accepted(r) ==>
      && (FeatureOf(r) == Rate ==> t.marked.None?)
      && (r.RelayConfigure? && Contains(r.host, RATE_NOTE + ":") ==> t.rest.rate.Some?)
  }

  lemma RelayShown(host: string, port: nat)
    ensures SecondField(RelayLine(host, port), '=') == Cut(RelayValue(host, port)) != ""
  {
    assert '=' !in RELAY_HOST;
    var value := RelayValue(host, port);
    assert value[0] == '[' && !IsSpace('[');
    hide Split, IsSpace;
    DirectiveShown(RELAY_HOST, value);
    CutStarts(value);
  }

  lemma CutStarts(value: string)
    requires value != "" && value[0] == '['
    ensures Cut(value) != ""
  {
    var v := BeforeEquals(value);
    assert v[0] == '[' && !IsSpace('[');
    assert TrimStart(v) == v;
    StartStays(v);
  }

  lemma {:induction false} StartStays(s: string)
    requires s != "" && !IsSpace(s[0])
    ensures TrimEnd(s) != ""
  {
    if IsSpace(s[|s| - 1]) {
      StartStays(s[..|s| - 1]);
    }
  }

  lemma AgreesMarked(s: Status, t: Tracked, r: Request)
    requires Agrees(s, t) && Accepted(r) && r.RelayConfigure? && Contains(r.host, RATE_NOTE)
    ensures if CarefulStep(t, r) then Agrees(Step(s, r), Follow(t, r)) else View(Follow(t, r)) != Step(s, r)
  {
    RelayShown(r.host, r.port);
    RelayLineStarts(r.host, r.port);
    hide SecondField, Cut, RelayValue, RelayLine, Contains, Accepted, Picks;
  }

  lemma AgreesStep(s: Status, t: Tracked, r: Request)
    requires Agrees(s, t)
    ensures if CarefulStep(t, r) then Agrees(Step(s, r), Follow(t, r)) else View(Follow(t, r)) != Step(s, r)
  {
    if Accepted(r) && r.RelayConfigure? && Contains(r.host, RATE_NOTE) {
      AgreesMarked(s, t, r);
    } else {
      AgreesOtherwise(s, t, r);
    }
  }

  lemma AgreesOtherwise(s: Status, t: Tracked, r: Request)
    requires Agrees(s, t) && !(Accepted(r) && r.RelayConfigure? && Contains(r.host, RATE_NOTE))
    ensures if CarefulStep(t, r) then Agrees(Step(s, r), Follow(t, r)) else View(Follow(t, r)) != Step(s, r)
  {
    if r.RelayConfigure? {
      NotedMarks(r.host);
    }
    hide SecondField, Cut, RelayValue, RelayLine, Contains, Accepted, Picks;
  }

  lemma {:induction false} CarefulCons(t: Tracked, rs: seq<Request>)
    requires rs != []
    ensures var next := Follow(t, rs[0]);
            Careful(t.rest.rate.Some?, t.marked.Some?, rs) <==>
              CarefulStep(t, rs[0]) && Careful(next.rest.rate.Some?, next.marked.Some?, rs[1..])
  {
    hide SecondField, Cut, RelayValue, RelayLine, Contains, Accepted, Picks;
  }

  lemma {:induction false} RightExactly(text: string, s: Status, t: Tracked, a: seq<string>, b: seq<string>,
                                        rs: seq<Request>)
    requires '\r' !in text && Holds(Entries(text), t, a, b) && Agrees(s, t)
    ensures RightThroughout(text, s, rs) <==> Careful(t.rest.rate.Some?, t.marked.Some?, rs)
    decreases |rs|
  {
    hide Holds, Shown, Lines, View, Handle, Follow, Entries, Agrees, CarefulStep, Careful, Step;
    ShownEntries(text);
    HoldsView(Entries(text), t, a, b);
    AgreesView(s, t);
    if rs == [] {
      CarefulNone(t.rest.rate.Some?, t.marked.Some?);
    } else {
      var r, next := rs[0], Handle(text, rs[0]);
      var front, back := HandledHolds(text, t, a, b, r);
      AgreesStep(s, t, r);
      CarefulCons(t, rs);
      if CarefulStep(t, r) {
        RightExactly(next, Step(s, r), Follow(t, r), front, back, rs[1..]);
      } else {
        ShownEntries(next);
        HoldsView(Entries(next), Follow(t, r), front, back);
      }
    }
  }

  lemma CarefulNone(rated: bool, marked: bool)
    ensures Careful(rated, marked, [])
  {
  }

  /**
   Over every run of requests, whatever the relay hosts: the status pages report after each request what the requests
   so far add up to if and only if no accepted rate request finds a relay host with the rate limit's mark, and no host
   with mark and colon is configured while no rate is set.
   */
  lemma {:induction false} StatusExactly(text: string, rs: seq<Request>)
    requires '\r' !in text && AllSeparate(Entries(text))
    ensures RightThroughout(text, Shown(Lines(text)), rs) <==> Careful(Shown(Lines(text)).rate.Some?, false, rs)
  {
    var s := Shown(Lines(text));
    assert Agrees(s, Tracked(s, None));
    hide *;
    ShownEntries(text);
    HoldsPlain(Entries(text), s);
    RightExactly(text, s, Tracked(s, None), Entries(text), [], rs);
  }

  /** The same from an empty file, on which nothing is configured. */
  lemma {:induction false} StatusFromNothingExactly(rs: seq<Request>)
    ensures RightThroughout("", Status("", None, "", ""), rs) <==> Careful(false, false, rs)
  {
    assert Shown(Lines("")) == Status("", None, "", "") && AllSeparate(Entries(""));
    hide *;
    StatusExactly("", rs);
  }

  const MARKED_HOST := "mx " + RATE_NOTE

  lemma MarkedHost()
    ensures Accepted(RelayConfigure(MARKED_HOST, 25, "u", "p")) && Contains(MARKED_HOST, RATE_NOTE)
  {
    assert Clean(MARKED_HOST) && '\0' !in MARKED_HOST;
    ContainsAround("mx ", RATE_NOTE, "");
    assert MARKED_HOST == "mx " + RATE_NOTE + "";
    hide Contains, Clean;
  }

  lemma {:induction false} CarelessPair(host: string, rate: string)
    requires Accepted(RelayConfigure(host, 25, "u", "p")) && Contains(host, RATE_NOTE) && Accepted(RateLimitSet(rate))
    ensures !Careful(false, false, [RelayConfigure(host, 25, "u", "p"), RateLimitSet(rate)])
  {
    hide Accepted, Contains;
    assert [RelayConfigure(host, 25, "u", "p"), RateLimitSet(rate)][1..] == [RateLimitSet(rate)];
    assert !Careful(false, true, [RateLimitSet(rate)]);
  }

  /** A relay whose host holds the mark, then a rate: the status pages are wrong. */
  lemma {:induction false} LostRelayExample(rate: string)
    requires Accepted(RateLimitSet(rate))
    ensures Accepted(RelayConfigure(MARKED_HOST, 25, "u", "p"))
    ensures !RightThroughout("", Status("", None, "", ""),
                             [RelayConfigure(MARKED_HOST, 25, "u", "p"), RateLimitSet(rate)])
  {
    hide *;
    MarkedHost();
    CarelessPair(MARKED_HOST, rate);
    StatusFromNothingExactly([RelayConfigure(MARKED_HOST, 25, "u", "p"), RateLimitSet(rate)]);
  }

  /** The same host, and that the relay's line itself is gone. */
  lemma {:induction false} RelayLostExample(es: seq<string>, rate: string)
    requires Accepted(RateLimitSet(rate))
    ensures var r := RelayConfigure(MARKED_HOST, 25, "u", "p");
            Select(Named(RELAY_HOST), After(After(es, r), RateLimitSet(rate))) == []
  {
    assert FeatureOf(RateLimitSet(rate)) == Rate;
    hide *;
    MarkedHost();
    RelayLostExactly(es, RelayConfigure(MARKED_HOST, 25, "u", "p"), RateLimitSet(rate));
  }
}
