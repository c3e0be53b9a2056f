/**
 Postfix's `main.cf`, edited by three features of the mail page: the SMTP relay, the rate
 limit and TLS enforcement. Each edit drops the feature's lines and appends new ones.
 */
module Postfix {
  import opened Text

  datatype Feature = Relay | Rate | Tls

  // The names of the directives, and the comments that mark the panel's lines.
  const RELAY_HOST := "relayhost"
  const SASL := "smtp_sasl_"
  const TLS := "smtp_tls_"
  const OUTBOUND := TLS + "security_level"
  const INBOUND := "smtpd_tls_" + "security_level"
  const RATE_DELAY := "smtp_destination" + "_rate_delay"
  const RECIPIENTS := "smtp_extra_" + "recipient_limit"
  const RELAY_NOTE := "# AxiaPanel relay"
  const RATE_NOTE := "# AxiaPanel rate limit"

  function Directive(name: string, value: string): string {
    name + (" = " + value)
  }

  /** The lines that an edit of a feature drops. The relay's prefix `smtp_tls_` covers the outbound TLS level. */
  predicate Dropped(feature: Feature, l: string) {
    match feature
    case Relay => RELAY_HOST <= l || SASL <= l || TLS <= l || Contains(l, RELAY_NOTE)
    case Rate => RATE_DELAY <= l || RECIPIENTS <= l || Contains(l, RATE_NOTE)
    case Tls => INBOUND <= l || OUTBOUND <= l
  }

  // ---- Selections of lines ----------------------------------------------------------------

  datatype Query =
    | Nonblank
    | Kept(feature: Feature)
    | Foreign
    | Named(name: string)
    | RateNoted

  predicate Picks(q: Query, l: string) {
    match q
    case Nonblank => l != ""
    case Kept(feature) => !Dropped(feature, l)
    case Foreign => forall feature :: !Dropped(feature, l)
    case Named(name) => name <= l
    case RateNoted => Contains(l, RATE_NOTE + ":")
  }

  function Picker(q: Query): string -> bool {
    l => Picks(q, l)
  }

  function Select(q: Query, ls: seq<string>): seq<string> {
    Filter(Picker(q), ls)
  }

  lemma SelectAppend(q: Query, a: seq<string>, b: seq<string>)
    ensures Select(q, a + b) == Select(q, a) + Select(q, b)
  {
    FilterAppend(Picker(q), a, b);
  }

  lemma SelectAll(q: Query, ls: seq<string>)
    requires forall i | 0 <= i < |ls| :: Picks(q, ls[i])
    ensures Select(q, ls) == ls
  {
    FilterAll(Picker(q), ls);
  }

  lemma SelectNone(q: Query, ls: seq<string>)
    requires forall i | 0 <= i < |ls| :: !Picks(q, ls[i])
    ensures Select(q, ls) == []
  {
    FilterNone(Picker(q), ls);
  }

  lemma SelectImplied(p: Query, q: Query, ls: seq<string>)
    requires forall i | 0 <= i < |ls| :: Picks(p, ls[i]) ==> Picks(q, ls[i])
    ensures Select(p, Select(q, ls)) == Select(p, ls)
  {
    FilterImplied(Picker(p), Picker(q), ls);
  }

  lemma SelectOnly(q: Query, ls: seq<string>, i: nat)
    requires i < |ls| && Picks(q, ls[i]) && forall j | 0 <= j < |ls| && j != i :: !Picks(q, ls[j])
    ensures Select(q, ls) == [ls[i]]
  {
    hide *;
    var a, b := ls[..i], ls[i + 1..];
    SelectNone(q, a);
    SelectNone(q, b);
    SelectAll(q, [ls[i]]);
    SelectAppend(q, [ls[i]], b);
    SelectAppend(q, a, [ls[i]] + b);
    assert ls == a + ([ls[i]] + b);
  }

  lemma SelectDisjoint(p: Query, q: Query, ls: seq<string>)
    requires forall i | 0 <= i < |ls| :: Picks(p, ls[i]) ==> !Picks(q, ls[i])
    ensures Select(p, Select(q, ls)) == []
  {
    var kept := Select(q, ls);
    forall i | 0 <= i < |kept|
      ensures !Picks(p, kept[i])
    {
      assert kept[i] in kept;
    }
    SelectNone(p, kept);
  }

  lemma SelectCommutes(p: Query, q: Query, ls: seq<string>)
    ensures Select(p, Select(q, ls)) == Select(q, Select(p, ls))
  {
    FilterCommutes(Picker(p), Picker(q), ls);
  }

  lemma SelectIsPart(q: Query, ls: seq<string>, i: nat)
    requires i < |Select(q, ls)|
    ensures Picks(q, Select(q, ls)[i]) && Select(q, ls)[i] in ls
  {
    assert Select(q, ls)[i] in Select(q, ls);
  }

  // ---- The edits ------------------------------------------------------------------------------

  /** The common shape of the five editors: `added` is empty for the two that only remove. */
  function Edit(text: string, feature: Feature, added: seq<string>): string {
    var cleaned := Join(Select(Kept(feature), Lines(text)), "\n");
    if added == [] then cleaned else cleaned + "\n" + Unlines(added)
  }

  // ---- The requests -----------------------------------------------------------------

  datatype Request =
    | RelayConfigure(host: string, port: nat, username: string, password: string)
    | RelayRemove
    | RateLimitSet(rate: string)
    | RateLimitRemove
    | TlsEnforce(inbound: string, outbound: string)

  const U32_LIMIT := 0x1_0000_0000

  /** `parse::<u32>`: an optional plus sign and at least one digit, without overflow. */
  function ParseU32(s: string): Option<nat> {
    var digits := if "+" <= s then s[1..] else s;
    if digits != "" && AllDigits(digits) && Decimal(digits) < U32_LIMIT then Some(Decimal(digits)) else None
  }

  function Period(name: string): Option<nat> {
    if name == "hour" then Some(3600)
    else if name == "day" then Some(86400)
    else if name == "minute" then Some(60)
    else None
  }

  /** A rate `N/period` as a count and the seconds between messages. */
  function ParseRate(rate: string): Option<(nat, nat)> {
    var parts := Split(rate, "/");
    if |parts| != 2 then None
    else
      match (ParseU32(parts[0]), Period(parts[1]))
      case (Some(count), Some(seconds)) => if count == 0 then None else Some((count, seconds / count))
      case _ => None
  }

  predicate ValidLevel(level: string) {
    level in {"may", "encrypt", "none"}
  }

  predicate Accepted(r: Request) {
    match r
    case RelayConfigure(host, port, username, password) =>
      host != "" && Clean(host) && '\0' !in host && port < 65536
      && '\n' !in username && '\0' !in username && '\n' !in password && '\0' !in password
    case RateLimitSet(rate) => ParseRate(rate).Some?
    case TlsEnforce(inbound, outbound) => ValidLevel(inbound) && ValidLevel(outbound)
    case _ => true
  }

  function FeatureOf(r: Request): Feature {
    match r
    case RelayConfigure(_, _, _, _) => Relay
    case RelayRemove => Relay
    case RateLimitSet(_) => Rate
    case RateLimitRemove => Rate
    case TlsEnforce(_, _) => Tls
  }

  /** The value that the relay is given: the host in brackets, and the port. */
  function RelayValue(host: string, port: nat): string {
    "[" + host + "]:" + Dec(port)
  }

  datatype Setting = Setting(name: string, value: string)

  function Line(s: Setting): string {
    Directive(s.name, s.value)
  }

  function RelaySettings(host: string, port: nat): seq<Setting> {
    [Setting(RELAY_HOST, RelayValue(host, port)),
     Setting(SASL + "auth_enable", "yes"),
     Setting(SASL + "password_maps", "hash:/etc" + "/postfix/sasl_passwd"),
     Setting(SASL + "security_options", "noanonymous"),
     Setting(OUTBOUND, "encrypt"),
     Setting(TLS + "CAfile", "/etc/ssl/certs" + "/ca-certificates.crt")]
  }

  function RateSettings(count: nat, delay: nat): seq<Setting> {
    [Setting(RATE_DELAY, Dec(delay) + "s"),
     Setting(RECIPIENTS, Dec(if count < 50 then count else 50))]
  }

  function Settings(r: Request): seq<Setting>
    requires Accepted(r)
  {
    match r
    case RelayConfigure(host, port, _, _) => RelaySettings(host, port)
    case RateLimitSet(rate) => RateSettings(ParseRate(rate).value.0, ParseRate(rate).value.1)
    case TlsEnforce(inbound, outbound) => [Setting(INBOUND, inbound), Setting(OUTBOUND, outbound)]
    case _ => []
  }

  function Notes(r: Request): seq<string> {
    match r
    case RelayConfigure(_, _, _, _) => [RELAY_NOTE + " configuration"]
    case RateLimitSet(rate) => [RATE_NOTE + ":" + (" " + rate)]
    case _ => []
  }

  /** The lines that a request appends. */
  function Added(r: Request): seq<string>
    requires Accepted(r)
  {
    Notes(r) + Map(Line, Settings(r))
  }

  /** A refused request changes nothing. */
  function Handle(text: string, r: Request): string {
    if Accepted(r) then Edit(text, FeatureOf(r), Added(r)) else text
  }

  function HandleAll(text: string, rs: seq<Request>): string
    decreases |rs|
  {
    if rs == [] then text else HandleAll(Handle(text, rs[0]), rs[1..])
  }

  // ---- An edit, line by line -------------------------------------------------------------------

  /** The lines of a file that are not blank. */
  function Entries(text: string): seq<string> {
    Select(Nonblank, Lines(text))
  }

  predicate ProperBlock(feature: Feature, added: seq<string>) {
    forall i | 0 <= i < |added| :: Clean(added[i]) && added[i] != "" && Dropped(feature, added[i])
  }

  lemma {:induction false} UnlinesClean(ls: seq<string>)
    requires AllClean(ls)
    ensures '\r' !in Unlines(ls) && '\r' !in Join(ls, "\n")
  {
    if ls == [] {
    } else {
      assert Clean(ls[0]);
      UnlinesClean(ls[1..]);
    }
  }

  lemma KeptClean(text: string, feature: Feature)
    requires '\r' !in text
    ensures AllClean(Select(Kept(feature), Lines(text)))
  {
    LinesClean(text);
  }

  lemma JoinNothing()
    ensures Join([], "\n") == "" == Join([""], "\n")
  {
  }

  /** The lines of an edited file. */
  lemma EditedLines(text: string, feature: Feature, added: seq<string>)
    requires '\r' !in text && AllClean(added)
    ensures var kept := Select(Kept(feature), Lines(text));
            && '\r' !in Edit(text, feature, added)
            && Lines(Edit(text, feature, added)) ==
                 if added != [] then (if kept == [] then [""] else kept) + added
                 else DropLastBlank(kept)
  {
    var kept := Select(Kept(feature), Lines(text));
    KeptClean(text, feature);
    UnlinesClean(kept);
    UnlinesClean(added);
    hide Select, Lines, Unlines, Join;
    if added == [] {
      LinesOfJoin(kept);
    } else {
      var front := if kept == [] then [""] else kept;
      JoinThenNewline(front);
      assert Join(kept, "\n") + "\n" == Unlines(front) by { JoinNothing(); }
      UnlinesAppend(front, added);
      assert AllClean(front);
      assert AllClean(front + added);
      LinesOfUnlines(front + added);
    }
  }

  lemma BlankAside(ls: seq<string>)
    ensures ls == [] ==> Select(Nonblank, [""]) == Select(Nonblank, ls)
    ensures ls != [] && ls[|ls| - 1] == "" ==> Select(Nonblank, ls[..|ls| - 1]) == Select(Nonblank, ls)
  {
    SelectNone(Nonblank, [""]);
    if ls != [] && ls[|ls| - 1] == "" {
      SelectAppend(Nonblank, ls[..|ls| - 1], [""]);
      assert ls == ls[..|ls| - 1] + [""];
    }
  }

  lemma ProperIsNonblank(feature: Feature, added: seq<string>)
    requires ProperBlock(feature, added)
    ensures AllClean(added) && Select(Nonblank, added) == added
  {
    hide Dropped, Clean;
    assert forall i | 0 <= i < |added| :: Picks(Nonblank, added[i]);
    SelectAll(Nonblank, added);
  }

  /** Blank lines aside, an edit drops the feature's lines and appends the new ones. */
  lemma EditedEntries(text: string, feature: Feature, added: seq<string>)
    requires '\r' !in text && ProperBlock(feature, added)
    ensures '\r' !in Edit(text, feature, added)
    ensures Entries(Edit(text, feature, added)) == Select(Kept(feature), Entries(text)) + added
  {
    hide Select, Edit, Lines, Picks, ProperBlock, AllClean;
    var kept := Select(Kept(feature), Lines(text));
    ProperIsNonblank(feature, added);
    EditedLines(text, feature, added);
    SelectAppend(Nonblank, if kept == [] then [""] else kept, added);
    BlankAside(kept);
    SelectCommutes(Nonblank, Kept(feature), Lines(text));
  }
}
