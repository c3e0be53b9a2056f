/**
 The blocks that the requests append to `main.cf`: which names they write, and that every line
 of a block is one that its own feature drops again.
 */
module PostfixSettings {
  import opened Text
  import opened Postfix

  predicate RateChar(c: char) {
    '0' <= c <= '9' || c == '+' || c == '/' || 'a' <= c <= 'z'
  }

  predicate RateText(s: string) {
    forall i | 0 <= i < |s| :: RateChar(s[i])
  }

  lemma {:induction false} SplitParts(s: string, sep: string)
    requires sep != ""
    ensures Join(Split(s, sep), sep) == s
    decreases |s|
  {
    hide *;
    match Find(s, sep)
    case None => SplitNotFound(s, sep);
    case Some(i) =>
      OccursSplits(s, sep, i);
      SplitFound(s, sep, i);
      var rest := s[i + |sep|..];
      SplitParts(rest, sep);
      JoinFirst(s[..i], Split(rest, sep), sep);
  }

  lemma SplitNotFound(s: string, sep: string)
    requires sep != "" && Find(s, sep) == None
    ensures Join(Split(s, sep), sep) == s
  {
    hide Find;
  }

  lemma {:induction false} SplitFound(s: string, sep: string, i: nat)
    requires sep != "" && Find(s, sep) == Some(i) && i + |sep| <= |s|
    ensures Split(s, sep) == [s[..i]] + Split(s[i + |sep|..], sep)
  {
    hide Find;
  }

  lemma OccursSplits(s: string, sep: string, i: nat)
    requires OccursAt(s, sep, i)
    ensures i + |sep| <= |s| && s == s[..i] + sep + s[i + |sep|..]
  {
    assert s == s[..i] + s[i..];
  }

  lemma CountIsPlain(s: string)
    requires ParseU32(s).Some?
    ensures s != "" && RateText(s)
  {
    if "+" <= s {
      assert forall i | 1 <= i < |s| :: s[i] == s[1..][i - 1];
    }
  }

  lemma PeriodIsPlain(p: string)
    requires Period(p).Some?
    ensures RateText(p)
  {
  }

  /** An accepted rate consists of digits, a slash and a word. */
  lemma RateIsPlain(rate: string)
    requires ParseRate(rate).Some?
    ensures rate != "" && RateText(rate)
  {
    var parts := Split(rate, "/");
    assert |parts| == 2 && ParseU32(parts[0]).Some? && Period(parts[1]).Some?;
    SplitParts(rate, "/");
    hide Split, ParseU32, Period, ParseRate;
    assert Join(parts[1..], "/") == parts[1];
    assert rate == parts[0] + "/" + parts[1];
    CountIsPlain(parts[0]);
    PeriodIsPlain(parts[1]);
  }

  // ---- Which lines belong to whom ---------------------------------------------------------------

  predicate ApartAt(a: string, b: string, k: nat) {
    k < |a| && k < |b| && a[k] != b[k]
  }

  /** No line starts with both of two names that differ somewhere. */
  lemma StartsApart(l: string, a: string, b: string, k: nat)
    requires a <= l && ApartAt(a, b, k)
    ensures !(b <= l)
  {
    assert l[k] == a[k];
  }

  lemma ShortNames()
    ensures Clean(RELAY_HOST) && Clean(SASL) && Clean(TLS)
    ensures '#' !in RELAY_HOST && '#' !in SASL && '#' !in TLS
  {
  }

  lemma LevelNames()
    ensures Clean(OUTBOUND) && Clean(INBOUND) && '#' !in OUTBOUND && '#' !in INBOUND
  {
    var s := "security_level";
    assert Clean(s) && '#' !in s;
    assert Clean("smtp_tls_") && '#' !in "smtp_tls_";
    assert Clean("smtpd_tls_") && '#' !in "smtpd_tls_";
    CleanConcat(TLS, s);
    CleanConcat("smtpd_tls_", s);
  }

  lemma DelayName()
    ensures Clean(RATE_DELAY) && '#' !in RATE_DELAY
  {
    assert Clean("smtp_destination") && '#' !in "smtp_destination";
    assert Clean("_rate_delay") && '#' !in "_rate_delay";
    CleanConcat("smtp_destination", "_rate_delay");
  }

  lemma RecipientsName()
    ensures Clean(RECIPIENTS) && '#' !in RECIPIENTS
  {
    assert Clean("smtp_extra_") && '#' !in "smtp_extra_";
    assert Clean("recipient_limit") && '#' !in "recipient_limit";
    CleanConcat("smtp_extra_", "recipient_limit");
  }

  /** Where the names first differ. */
  lemma NamesApart()
    ensures ApartAt(RELAY_HOST, SASL, 0) && ApartAt(RELAY_HOST, TLS, 0) && ApartAt(RELAY_HOST, INBOUND, 0)
    ensures ApartAt(RELAY_HOST, RATE_DELAY, 0) && ApartAt(RELAY_HOST, RECIPIENTS, 0)
    ensures ApartAt(SASL, TLS, 5) && ApartAt(SASL, INBOUND, 4) && ApartAt(SASL, OUTBOUND, 5)
    ensures ApartAt(TLS, INBOUND, 4) && ApartAt(TLS, RATE_DELAY, 5) && ApartAt(TLS, RECIPIENTS, 5)
    ensures ApartAt(INBOUND, RATE_DELAY, 4) && ApartAt(INBOUND, RECIPIENTS, 4)
    ensures ApartAt(RATE_DELAY, RECIPIENTS, 5) && TLS <= OUTBOUND
  {
  }

  // ---- The blocks that are appended ----------------------------------------------------------------

  predicate Plain(s: string) {
    Clean(s) && '#' !in s
  }

  lemma PlainConcat(a: string, b: string)
    requires Plain(a) && Plain(b)
    ensures Plain(a + b)
  {
  }

  lemma {:induction false} DigitsPlain(s: string)
    requires AllDigits(s)
    ensures Plain(s)
  {
    forall i | 0 <= i < |s|
      ensures s[i] != '\n' && s[i] != '\r' && s[i] != '#'
    {
    }
  }

  lemma RateTextPlain(s: string)
    requires RateText(s)
    ensures Plain(s)
  {
    forall i | 0 <= i < |s|
      ensures s[i] != '\n' && s[i] != '\r' && s[i] != '#'
    {
    }
  }

  /** A relay host that cannot be taken for one of the panel's comments. */
  predicate Ordinary(r: Request) {
    r.RelayConfigure? ==> '#' !in r.host
  }

  predicate PlainSetting(s: Setting) {
    Plain(s.name) && Plain(s.value)
  }

  predicate PlainSettings(ss: seq<Setting>) {
    forall i | 0 <= i < |ss| :: PlainSetting(ss[i])
  }

  lemma PlainAuthName()
    ensures Plain(SASL + "auth_enable")
  {
    assert Plain(SASL) && Plain("auth_enable");
    PlainConcat(SASL, "auth_enable");
  }

  lemma PlainMapsName()
    ensures Plain(SASL + "password_maps")
  {
    assert Plain(SASL) && Plain("password_maps");
    PlainConcat(SASL, "password_maps");
  }

  lemma PlainOptionsName()
    ensures Plain(SASL + "security_options")
  {
    assert Plain(SASL) && Plain("security_options");
    PlainConcat(SASL, "security_options");
  }

  lemma PlainSaslValues()
    ensures Plain("yes") && Plain("hash:/etc" + "/postfix/sasl_passwd") && Plain("noanonymous")
  {
    assert Plain("hash:/etc") && Plain("/postfix/sasl_passwd");
    PlainConcat("hash:/etc", "/postfix/sasl_passwd");
  }

  lemma SaslSettings(host: string, port: nat)
    ensures var ss := RelaySettings(host, port);
            PlainSetting(ss[1]) && PlainSetting(ss[2]) && PlainSetting(ss[3])
  {
    hide Plain, RelayValue;
    PlainAuthName();
    PlainMapsName();
    PlainOptionsName();
    PlainSaslValues();
  }

  lemma PlainCaName()
    ensures Plain(TLS + "CAfile")
  {
    assert Plain(TLS) && Plain("CAfile");
    PlainConcat(TLS, "CAfile");
  }

  lemma PlainCaFile()
    ensures Plain("/etc/ssl/certs" + "/ca-certificates.crt")
  {
    assert Plain("/etc/ssl/certs") && Plain("/ca-certificates.crt");
    PlainConcat("/etc/ssl/certs", "/ca-certificates.crt");
  }

  lemma CaSettings(host: string, port: nat)
    ensures var ss := RelaySettings(host, port); PlainSetting(ss[4]) && PlainSetting(ss[5])
  {
    LevelNames();
    assert Plain("encrypt");
    PlainCaName();
    PlainCaFile();
    hide Plain, RelayValue, Clean;
  }

  lemma RelayValuePlain(host: string, port: nat)
    requires Clean(host)
    ensures Clean(RelayValue(host, port))
    ensures '#' !in host ==> Plain(RelayValue(host, port))
  {
    DigitsPlain(Dec(port));
  }

  lemma RelayPlain(host: string, port: nat)
    requires Plain(host)
    ensures PlainSettings(RelaySettings(host, port))
  {
    SaslSettings(host, port);
    CaSettings(host, port);
    RelayValuePlain(host, port);
    assert PlainSetting(RelaySettings(host, port)[0]) by { ShortNames(); }
    hide RelayValue, Plain, PlainSetting;
  }

  lemma RatePlain(count: nat, delay: nat)
    ensures PlainSettings(RateSettings(count, delay))
  {
    DelayName();
    RecipientsName();
    DigitsPlain(Dec(delay));
    DigitsPlain(Dec(if count < 50 then count else 50));
    PlainConcat(Dec(delay), "s");
  }

  lemma LevelsPlain(inbound: string, outbound: string)
    requires ValidLevel(inbound) && ValidLevel(outbound)
    ensures PlainSettings([Setting(INBOUND, inbound), Setting(OUTBOUND, outbound)])
  {
    LevelNames();
    assert Plain("may") && Plain("encrypt") && Plain("none");
  }

  lemma SettingsPlain(r: Request)
    requires Accepted(r) && Ordinary(r)
    ensures PlainSettings(Settings(r))
  {
    match r
    case RelayConfigure(host, port, _, _) => RelayPlain(host, port);
    case RateLimitSet(rate) => RatePlain(ParseRate(rate).value.0, ParseRate(rate).value.1);
    case TlsEnforce(inbound, outbound) => LevelsPlain(inbound, outbound);
    case _ =>
  }

  predicate ApartNames(a: string, b: string) {
    exists k | 0 <= k < |a| :: ApartAt(a, b, k)
  }

  predicate AllApart(ss: seq<Setting>) {
    forall i, j | 0 <= i < j < |ss| :: ApartNames(ss[i].name, ss[j].name)
  }

  lemma RelayNamesApart(host: string, port: nat)
    ensures AllApart(RelaySettings(host, port))
  {
    var ss := RelaySettings(host, port);
    hide RelayValue;
    forall j | 1 <= j < 6 ensures ApartAt(ss[0].name, ss[j].name, 0) {}
    forall i | 1 <= i < 4 ensures ApartAt(ss[i].name, ss[4].name, 5) && ApartAt(ss[i].name, ss[5].name, 5) {}
    assert ApartAt(ss[1].name, ss[2].name, 10) && ApartAt(ss[1].name, ss[3].name, 10);
    assert ApartAt(ss[2].name, ss[3].name, 10);
    assert ApartAt(ss[4].name, ss[5].name, 9);
  }

  lemma SettingsApart(r: Request)
    requires Accepted(r)
    ensures AllApart(Settings(r))
  {
    match r
    case RelayConfigure(host, port, _, _) => RelayNamesApart(host, port);
    case RateLimitSet(_) => NamesApart();
    case TlsEnforce(_, _) => LevelsApart();
    case _ =>
  }

  lemma LevelsApart()
    ensures ApartAt(INBOUND, OUTBOUND, 4)
  {
  }

  lemma StartsWithNeither(l: string, name: string, prefix: string)
    requires ApartNames(prefix, name)
    ensures !(prefix <= l && name <= l)
  {
    var k :| 0 <= k < |prefix| && ApartAt(prefix, name, k);
    if prefix <= l {
      StartsApart(l, prefix, name, k);
    }
  }

  lemma ApartSymmetric(a: string, b: string)
    requires ApartNames(a, b)
    ensures ApartNames(b, a)
  {
    var k :| 0 <= k < |a| && ApartAt(a, b, k);
    assert ApartAt(b, a, k);
  }

  lemma OtherLine(ss: seq<Setting>, i: nat, j: nat)
    requires AllApart(ss) && i < |ss| && j < |ss| && i != j
    ensures !Picks(Named(ss[i].name), Line(ss[j]))
  {
    if i < j {
      ApartSymmetric(ss[i].name, ss[j].name);
    }
    StartsWithNeither(Line(ss[j]), ss[i].name, ss[j].name);
  }

  /** One line of a block carries a given setting. */
  lemma OneLine(ss: seq<Setting>, i: nat)
    requires AllApart(ss) && i < |ss|
    ensures Select(Named(ss[i].name), Map(Line, ss)) == [Line(ss[i])]
  {
    var q := Named(ss[i].name);
    var ls := Map(Line, ss);
    forall j | 0 <= j < |ls| && j != i
      ensures !Picks(q, ls[j])
    {
      OtherLine(ss, i, j);
    }
    assert ls[i] == Line(ss[i]);
    SelectOnly(q, ls, i);
  }

  predicate CleanSetting(s: Setting) {
    Clean(s.name) && Clean(s.value)
  }

  lemma RelayClean(host: string, port: nat)
    requires Clean(host)
    ensures forall i | 0 <= i < 6 :: CleanSetting(RelaySettings(host, port)[i])
  {
    SaslSettings(host, port);
    CaSettings(host, port);
    RelayValuePlain(host, port);
    assert CleanSetting(RelaySettings(host, port)[0]) by { ShortNames(); }
    hide RelayValue, Clean;
  }

  lemma SettingsClean(r: Request)
    requires Accepted(r)
    ensures forall i | 0 <= i < |Settings(r)| :: CleanSetting(Settings(r)[i])
  {
    match r
    case RelayConfigure(host, port, _, _) => RelayClean(host, port);
    case RateLimitSet(_) => SettingsPlain(r); PlainIsClean(Settings(r));
    case TlsEnforce(_, _) => SettingsPlain(r); PlainIsClean(Settings(r));
    case _ =>
  }

  lemma PlainIsClean(ss: seq<Setting>)
    requires PlainSettings(ss)
    ensures forall i | 0 <= i < |ss| :: CleanSetting(ss[i])
  {
    assert forall i | 0 <= i < |ss| :: PlainSetting(ss[i]);
  }

  /** The prefixes by which an edit recognizes its own settings. */
  predicate Owns(feature: Feature, name: string) {
    match feature
    case Relay => RELAY_HOST <= name || SASL <= name || TLS <= name
    case Rate => RATE_DELAY <= name || RECIPIENTS <= name
    case Tls => INBOUND <= name || OUTBOUND <= name
  }

  lemma SettingsOwned(r: Request)
    requires Accepted(r)
    ensures forall i | 0 <= i < |Settings(r)| :: Owns(FeatureOf(r), Settings(r)[i].name) && Settings(r)[i].name != ""
  {
    match r
    case RelayConfigure(host, port, _, _) =>
      var ss := RelaySettings(host, port);
      assert TLS <= OUTBOUND by { NamesApart(); }
      assert SASL <= ss[1].name && SASL <= ss[2].name && SASL <= ss[3].name && TLS <= ss[5].name;
    case _ =>
  }

  lemma OwnedIsDropped(feature: Feature, l: string, name: string)
    requires name <= l && Owns(feature, name)
    ensures Dropped(feature, l)
  {
    hide Contains;
  }

  lemma LineClean(s: Setting)
    requires CleanSetting(s)
    ensures Clean(Line(s)) && Line(s) != "" && s.name <= Line(s)
  {
  }

  lemma RelayNoteProper()
    ensures ProperBlock(Relay, [RELAY_NOTE + " configuration"])
  {
    assert Clean(RELAY_NOTE) && Clean(" configuration");
    hide Contains, Clean;
    CleanConcat(RELAY_NOTE, " configuration");
    ContainsAround("", RELAY_NOTE, " configuration");
    assert "" + RELAY_NOTE + " configuration" == RELAY_NOTE + " configuration";
  }

  lemma NotesProper(r: Request)
    requires Accepted(r)
    ensures ProperBlock(FeatureOf(r), Notes(r))
  {
    hide ProperBlock;
    match r
    case RelayConfigure(_, _, _, _) => RelayNoteProper();
    case RateLimitSet(rate) => RateNoteProper(rate);
    case _ => EmptyProper(FeatureOf(r));
  }

  lemma EmptyProper(feature: Feature)
    ensures ProperBlock(feature, [])
  {
  }

  lemma RateNoteClean(rate: string)
    requires Clean(rate)
    ensures Clean(RATE_NOTE + ":" + (" " + rate))
  {
    assert Clean(RATE_NOTE) && Clean(":") && Clean(" ");
    hide *;
    CleanConcat(" ", rate);
    CleanConcat(RATE_NOTE, ":");
    CleanConcat(RATE_NOTE + ":", " " + rate);
  }

  lemma RateNoteMarked(rate: string)
    ensures Contains(RATE_NOTE + ":" + (" " + rate), RATE_NOTE)
  {
    hide *;
    ContainsAround("", RATE_NOTE, ":" + (" " + rate));
    assert "" + RATE_NOTE + (":" + (" " + rate)) == RATE_NOTE + ":" + (" " + rate);
  }

  lemma RateNoteProper(rate: string)
    requires ParseRate(rate).Some?
    ensures ProperBlock(Rate, [RATE_NOTE + ":" + (" " + rate)])
  {
    assert Clean(rate) by {
      RateIsPlain(rate);
      RateTextPlain(rate);
    }
    RateNoteClean(rate);
    RateNoteMarked(rate);
    hide Contains, Clean, ParseRate;
  }

  lemma {:induction false} AddedProper(r: Request)
    requires Accepted(r)
    ensures ProperBlock(FeatureOf(r), Added(r))
  {
    NotesProper(r);
    SettingsClean(r);
    SettingsOwned(r);
    var ss := Settings(r);
    hide Settings, Notes, Dropped, Owns, Clean, Accepted, FeatureOf;
    forall i | 0 <= i < |ss|
      ensures Clean(Map(Line, ss)[i]) && Map(Line, ss)[i] != "" && Dropped(FeatureOf(r), Map(Line, ss)[i])
    {
      assert CleanSetting(ss[i]);
      LineClean(ss[i]);
      OwnedIsDropped(FeatureOf(r), Line(ss[i]), ss[i].name);
    }
  }

  // ---- Rates -----------------------------------------------------------------------------------

  /** `delay` is the longest whole number of seconds between messages that lets `count` through in a period. */
  predicate Longest(delay: nat, count: nat, seconds: nat) {
    count > 0 && count * delay <= seconds < count * (delay + 1)
  }

  /** The delay written for a rate is the longest for its count and for the period that it names. */
  lemma DelayIsExact(rate: string)
    requires ParseRate(rate).Some?
    ensures var (count, delay) := ParseRate(rate).value;
            var parts := Split(rate, "/");
            && |parts| == 2 && ParseU32(parts[0]) == Some(count)
            && Period(parts[1]).Some? && Longest(delay, count, Period(parts[1]).value)
  {
    var parts := Split(rate, "/");
    var count, seconds := ParseU32(parts[0]).value, Period(parts[1]).value;
    assert ParseRate(rate) == Some((count, seconds / count));
    hide *;
    DivisionFloors(seconds, count);
  }

  lemma DivisionFloors(a: nat, b: nat)
    requires b > 0
    ensures Longest(a / b, b, a)
  {
  }

  /** Every count that fits 32 bits, printed before one of the three periods, is read as it was meant. */
  lemma RateParses(count: nat, period: string)
    requires 0 < count < U32_LIMIT && Period(period).Some?
    ensures ParseRate(Dec(count) + "/" + period) == Some((count, Period(period).value / count))
  {
    var digits := Dec(count);
    DecReadsBack(count);
    assert digits[0] != '+' && '/' !in digits;
    assert '/' !in period;
    assert ParseU32(digits) == Some(count);
    SplitAtChar(digits, '/', period);
    NotContainsChar(period, "/", 0);
    SplitNone(period, "/");
    hide Split, Dec, Decimal, Period, ParseU32;
    assert ['/'] == "/";
  }

  // ---- The edits, written out ------------------------------------------------------------------------

  lemma RelayNames()
    ensures RELAY_HOST + " = " == "relayhost = " && RELAY_NOTE + " configuration" == "# AxiaPanel relay configuration"
    ensures Directive(SASL + "auth_enable", "yes") == "smtp_sasl_auth_enable = yes"
    ensures Directive(OUTBOUND, "encrypt") == "smtp_tls_security_level = encrypt"
  {
  }

  lemma RelayMaps()
    ensures Directive(SASL + "password_maps", "hash:/etc" + "/postfix/sasl_passwd")
         == "smtp_sasl_password_maps = " + "hash:/etc/postfix/sasl_passwd"
  {
  }

  lemma RelayOptions()
    ensures Directive(SASL + "security_options", "noanonymous") == "smtp_sasl_security_options = noanonymous"
  {
  }

  lemma RelayCa()
    ensures Directive(TLS + "CAfile", "/etc/ssl/certs" + "/ca-certificates.crt")
         == "smtp_tls_CAfile = " + "/etc/ssl/certs/ca-certificates.crt"
  {
  }

  lemma MapSix(ss: seq<Setting>)
    requires |ss| == 6
    ensures Map(Line, ss) == [Line(ss[0]), Line(ss[1]), Line(ss[2]), Line(ss[3]), Line(ss[4]), Line(ss[5])]
  {
    hide Line;
  }

  /** The lines that configuring a relay appends. */
  lemma RelayWritten(host: string, port: nat, username: string, password: string)
    requires Accepted(RelayConfigure(host, port, username, password))
    ensures Added(RelayConfigure(host, port, username, password)) ==
              ["# AxiaPanel relay configuration",
               "relayhost = [" + host + "]:" + Dec(port),
               "smtp_sasl_auth_enable = yes",
               "smtp_sasl_password_maps = " + "hash:/etc/postfix/sasl_passwd",
               "smtp_sasl_security_options = noanonymous",
               "smtp_tls_security_level = encrypt",
               "smtp_tls_CAfile = " + "/etc/ssl/certs/ca-certificates.crt"]
  {
    var r := RelayConfigure(host, port, username, password);
    var ss := RelaySettings(host, port);
    RelayNames();
    RelayMaps();
    RelayOptions();
    RelayCa();
    assert Line(ss[0]) == RELAY_HOST + (" = " + RelayValue(host, port));
    assert RELAY_HOST + (" = " + RelayValue(host, port)) == RELAY_HOST + " = " + ("[" + host + "]:" + Dec(port));
    assert "relayhost = " + ("[" + host + "]:" + Dec(port)) == "relayhost = [" + host + "]:" + Dec(port);
    assert Line(ss[1]) == Directive(SASL + "auth_enable", "yes") && Line(ss[4]) == Directive(OUTBOUND, "encrypt");
    assert Line(ss[2]) == Directive(SASL + "password_maps", "hash:/etc" + "/postfix/sasl_passwd");
    assert Line(ss[3]) == Directive(SASL + "security_options", "noanonymous");
    assert Line(ss[5]) == Directive(TLS + "CAfile", "/etc/ssl/certs" + "/ca-certificates.crt");
    assert Added(r) == [RELAY_NOTE + " configuration"] + Map(Line, ss);
    hide *;
    MapSix(ss);
  }

  lemma RateNames()
    ensures RATE_NOTE + ":" == "# AxiaPanel rate limit:"
    ensures RATE_DELAY + " = " == "smtp_destination_rate_delay = "
    ensures RECIPIENTS + " = " == "smtp_extra_recipient_limit = "
  {
  }

  lemma PeriodsWritten()
    ensures Period("minute") == Some(60) && Period("hour") == Some(3600) && Period("day") == Some(86400)
  {
  }

  lemma MapTwo(a: Setting, b: Setting)
    ensures Map(Line, [a, b]) == [Line(a), Line(b)]
  {
    hide Line;
  }

  lemma RateSettingLines(count: nat, delay: nat)
    ensures var ss := RateSettings(count, delay);
            && |ss| == 2
            && Line(ss[0]) == RATE_DELAY + (" = " + (Dec(delay) + "s"))
            && Line(ss[1]) == RECIPIENTS + (" = " + Dec(if count <= 50 then count else 50))
  {
    hide Dec;
  }

  lemma RateAdds(rate: string)
    requires ParseRate(rate).Some?
    ensures var (count, delay) := ParseRate(rate).value;
            Accepted(RateLimitSet(rate))
            && Added(RateLimitSet(rate)) == [RATE_NOTE + ":" + (" " + rate)] + Map(Line, RateSettings(count, delay))
  {
    hide ParseRate, RateSettings, Line;
  }

  /** The lines that a rate appends: its note, the delay, and a limit of recipients of at most 50. */
  lemma RateLines(rate: string)
    requires ParseRate(rate).Some?
    ensures var (count, delay) := ParseRate(rate).value;
            Accepted(RateLimitSet(rate))
            && Added(RateLimitSet(rate)) ==
                 ["# AxiaPanel rate limit: " + rate,
                  "smtp_destination_rate_delay = " + Dec(delay) + "s",
                  "smtp_extra_recipient_limit = " + Dec(if count <= 50 then count else 50)]
  {
    var (count, delay) := ParseRate(rate).value;
    var ss := RateSettings(count, delay);
    RateAdds(rate);
    RateNames();
    assert "# AxiaPanel rate limit:" + " " == "# AxiaPanel rate limit: ";
    hide *;
    RateSettingLines(count, delay);
    assert ss == [ss[0], ss[1]];
    MapTwo(ss[0], ss[1]);
    Spaced("# AxiaPanel rate limit:", " ", rate);
    Spaced(RATE_DELAY, " = ", Dec(delay) + "s");
    Spaced("smtp_destination_rate_delay = ", Dec(delay), "s");
    Spaced(RECIPIENTS, " = ", Dec(if count <= 50 then count else 50));
  }

  /** Every count of 32 bits, per minute, hour or day, is read as it was meant. */
  lemma RateWritten(count: nat)
    requires 0 < count < 0x1_0000_0000
    ensures ParseRate(Dec(count) + "/minute") == Some((count, 60 / count))
    ensures ParseRate(Dec(count) + "/hour") == Some((count, 3600 / count))
    ensures ParseRate(Dec(count) + "/day") == Some((count, 86400 / count))
  {
    PeriodsWritten();
    assert U32_LIMIT == 0x1_0000_0000;
    hide *;
    SlashBefore(Dec(count), "minute", "/minute");
    SlashBefore(Dec(count), "hour", "/hour");
    SlashBefore(Dec(count), "day", "/day");
    RateParses(count, "minute");
    RateParses(count, "hour");
    RateParses(count, "day");
  }

  lemma SlashBefore(digits: string, period: string, text: string)
    requires text == "/" + period
    ensures digits + "/" + period == digits + text
  {
  }

  lemma Spaced(a: string, b: string, c: string)
    ensures a + (b + c) == a + b + c
  {
  }

  /** The lines that enforcing TLS appends, for the three levels and no others; the two removals append none. */
  lemma TlsWritten(inbound: string, outbound: string)
    ensures Accepted(TlsEnforce(inbound, outbound)) <==>
              (inbound == "may" || inbound == "encrypt" || inbound == "none")
              && (outbound == "may" || outbound == "encrypt" || outbound == "none")
    ensures Accepted(TlsEnforce(inbound, outbound)) ==>
              Added(TlsEnforce(inbound, outbound)) ==
                ["smtpd_tls_security_level = " + inbound, "smtp_tls_security_level = " + outbound]
    ensures Added(RelayRemove) == [] && Added(RateLimitRemove) == []
  {
    TlsNames();
    if Accepted(TlsEnforce(inbound, outbound)) {
      assert Settings(TlsEnforce(inbound, outbound)) == [Setting(INBOUND, inbound), Setting(OUTBOUND, outbound)];
      MapTwo(Setting(INBOUND, inbound), Setting(OUTBOUND, outbound));
      Spaced(INBOUND, " = ", inbound);
      Spaced(OUTBOUND, " = ", outbound);
    }
  }

  lemma TlsNames()
    ensures INBOUND + " = " == "smtpd_tls_security_level = "
    ensures OUTBOUND + " = " == "smtp_tls_security_level = "
  {
  }

  /** The lines that each feature drops before it appends its own. */
  lemma DroppedWritten(l: string)
    ensures Dropped(Relay, l) <==>
              "relayhost" <= l || "smtp_sasl_" <= l || "smtp_tls_" <= l || Contains(l, "# AxiaPanel relay")
    ensures Dropped(Rate, l) <==>
              || "smtp_destination_rate_delay" <= l || "smtp_extra_recipient_limit" <= l
              || Contains(l, "# AxiaPanel rate limit")
    ensures Dropped(Tls, l) <==> "smtpd_tls_security_level" <= l || "smtp_tls_security_level" <= l
  {
    DropNames();
    hide Contains;
  }

  lemma DropNames()
    ensures RELAY_HOST == "relayhost" && SASL == "smtp_sasl_" && TLS == "smtp_tls_" && RELAY_NOTE == "# AxiaPanel relay"
    ensures RATE_DELAY == "smtp_destination_rate_delay" && RECIPIENTS == "smtp_extra_recipient_limit"
    ensures RATE_NOTE == "# AxiaPanel rate limit"
    ensures INBOUND == "smtpd_tls_security_level" && OUTBOUND == "smtp_tls_security_level"
  {
  }

  // ---- What is accepted, by codes --------------------------------------------------------------

  /** A relay is accepted if and only if nothing in it could start a new line or end a string. */
  lemma RelayAcceptedExactly(host: string, port: nat, username: string, password: string)
    ensures Accepted(RelayConfigure(host, port, username, password)) <==>
              && 1 <= |host| && port <= 65535
              && (forall i | 0 <= i < |host| :: host[i] as int !in {0, 10, 13})
              && (forall i | 0 <= i < |username| :: username[i] as int !in {0, 10})
              && (forall i | 0 <= i < |password| :: password[i] as int !in {0, 10})
  {
    FreeOf(host, 0);
    FreeOf(host, 10);
    FreeOf(host, 13);
    FreeOf(username, 0);
    FreeOf(username, 10);
    FreeOf(password, 0);
    FreeOf(password, 10);
  }

  lemma FreeOf(s: string, code: nat)
    requires code < 0xD800
    ensures code as char !in s <==> forall i | 0 <= i < |s| :: s[i] as int != code
  {
  }

  /** A count is read as its number if it has 32 bits, with a plus sign in front or without, and refused else. */
  lemma CountExactly(n: nat)
    ensures ParseU32(Dec(n)) == ParseU32([43 as char] + Dec(n)) == if n < 0x1_0000_0000 then Some(n) else None
  {
    DecReadsBack(n);
    var digits := Dec(n);
    assert digits[0] != '+' && ("+" + digits)[1..] == digits;
    hide Dec, Decimal;
  }

  /** Zeros in front of a number change nothing. */
  lemma CountPadded(digits: string)
    requires digits != "" && forall i | 0 <= i < |digits| :: 48 <= digits[i] as int <= 57
    ensures ParseU32([48 as char] + digits) == ParseU32(digits)
  {
    var padded := ['0'] + digits;
    assert digits[0] != '+' && padded[1..] == digits;
    assert Decimal(padded) == Decimal(digits);
  }

  /** Anything else is refused: a text without digits, and one with a character that is none. */
  lemma CountRefused(s: string)
    requires || s == "" || s == [43 as char]
             || exists i | 0 <= i < |s| :: !(48 <= s[i] as int <= 57) && !(i == 0 && s[i] as int == 43)
    ensures ParseU32(s) == None
  {
    if s != "" && s != "+" {
      var i :| 0 <= i < |s| && !(48 <= s[i] as int <= 57) && !(i == 0 && s[i] as int == 43);
      if "+" <= s {
        assert s[1..][i - 1] == s[i];
      }
    }
  }

  /** A rate is accepted if and only if it is a positive count, one slash and one of three periods. */
  lemma RateAcceptedExactly(count: string, period: string)
    requires '/' !in count && '/' !in period
    ensures ParseRate(count + "/" + period).Some? <==>
              ParseU32(count).Some? && ParseU32(count).value >= 1 && period in {"minute", "hour", "day"}
    ensures ParseRate(count) == None
  {
    assert ['/'] == "/";
    NotContainsChar(period, "/", 0);
    NotContainsChar(count, "/", 0);
    hide Split, ParseU32;
    SplitAtChar(count, '/', period);
    SplitNone(period, "/");
    SplitNone(count, "/");
  }

  /** One with a second slash is not. */
  lemma SecondSlash(count: string, period: string, rest: string)
    requires '/' !in count && '/' !in period
    ensures ParseRate(count + "/" + period + "/" + rest) == None
  {
    assert ['/'] == "/";
    assert count + "/" + period + "/" + rest == count + "/" + (period + "/" + rest);
    hide Split, ParseU32, Period;
    SplitAtChar(count, '/', period + "/" + rest);
    SplitAtChar(period, '/', rest);
  }
}
