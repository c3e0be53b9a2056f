/**
 The installers' chains of edits: what every key of the finished file is read as.
 */
module EnvChains {
  import opened EnvFiles
  import opened Text

  datatype Setting = Setting(key: string, value: string)

  function SetAll(style: Style, content: string, settings: seq<Setting>): string
    decreases |settings|
  {
    if settings == [] then content
    else SetAll(style, SetKey(style, content, settings[0].key, settings[0].value), settings[1..])
  }

  predicate NoReturns(settings: seq<Setting>) {
    forall i | 0 <= i < |settings| :: '\r' !in settings[i].value
  }

  /** Distinct keys as they are written by hand, and values of any kind but for carriage returns. */
  predicate ValidSettings(settings: seq<Setting>) {
    && NoReturns(settings)
    && (forall i | 0 <= i < |settings| :: ValidKey(settings[i].key))
    && (forall i, j | 0 <= i < j < |settings| :: settings[i].key != settings[j].key)
  }

  /** The lines that one setting of a chain is written on. */
  function Added(style: Style, setting: Setting): seq<string> {
    Pieces(style, setting.key, setting.value)
  }

  /** An edit that does not end the file with a blank line says the same as one that does. */
  lemma EditSays(style: Style, content: string, setting: Setting, key: string, v: string)
    requires '\r' !in content && ValidKey(setting.key) && '\r' !in setting.value
    ensures var next, edited := SetKey(style, content, setting.key, setting.value),
                                SetPieces(style, setting.key, setting.value, Lines(content));
            && '\r' !in next && ValuesOf(Lines(next), key) == ValuesOf(edited, key)
            && (Reads(Lines(next), key, v) <==> Reads(edited, key, v))
            && (StraysRead(style, key, Lines(next), v) <==> StraysRead(style, key, edited, v))
  {
    var next, edited := SetKey(style, content, setting.key, setting.value),
                        SetPieces(style, setting.key, setting.value, Lines(content));
    hide *;
    EditedLines(style, content, setting.key, setting.value);
    WithoutBlank(style, key, edited, v);
    ReadsIs(edited, key, v);
    ReadsIs(Lines(next), key, v);
  }

  lemma {:induction false} SetAllStep(style: Style, content: string, settings: seq<Setting>)
    requires settings != [] && ValidSettings(settings)
    ensures ValidSettings(settings[1..]) && ValidKey(settings[0].key) && '\r' !in settings[0].value
    ensures SetAll(style, content, settings)
         == SetAll(style, SetKey(style, content, settings[0].key, settings[0].value), settings[1..])
    ensures forall j | 0 <= j < |settings[1..]| :: settings[1..][j].key != settings[0].key
  {
    ValidRest(settings);
    hide ValidSettings, ValidKey, SetKey;
  }

  lemma {:induction false} ValidRest(settings: seq<Setting>)
    requires settings != [] && ValidSettings(settings)
    ensures ValidSettings(settings[1..]) && ValidKey(settings[0].key) && '\r' !in settings[0].value
    ensures forall j | 0 <= j < |settings[1..]| :: settings[1..][j].key != settings[0].key
  {
    hide ValidKey;
  }

  /** No later setting gives a key another value. */
  predicate LaterRead(style: Style, settings: seq<Setting>, key: string, v: string) {
    forall j | 0 <= j < |settings| :: Reads(Added(style, settings[j]), key, v)
  }

  lemma {:induction false} LaterCons(style: Style, settings: seq<Setting>, key: string, v: string)
    requires settings != []
    ensures LaterRead(style, settings, key, v) <==>
              Reads(Added(style, settings[0]), key, v) && LaterRead(style, settings[1..], key, v)
  {
    hide Reads, Added;
    assert forall j | 1 <= j < |settings| :: settings[j] == settings[1..][j - 1];
  }

  /** A key that a chain does not set is read as before if and only if no setting gives it another value. */
  lemma {:induction false} ChainForOthers(style: Style, content: string, settings: seq<Setting>, key: string, v: string)
    requires '\r' !in content && ValidSettings(settings) && forall j | 0 <= j < |settings| :: settings[j].key != key
    ensures Reads(Lines(SetAll(style, content, settings)), key, v) <==>
              Reads(Lines(content), key, v) && LaterRead(style, settings, key, v)
    decreases |settings|
  {
    if settings == [] {
    } else {
      var first := settings[0];
      assert first.key != key && forall j | 0 <= j < |settings[1..]| :: settings[1..][j].key != key;
      hide *;
      SetAllStep(style, content, settings);
      EditSays(style, content, first, key, v);
      ChainForOthers(style, SetKey(style, content, first.key, first.value), settings[1..], key, v);
      SetForOthers(style, first.key, first.value, Lines(content), key, v);
      AddedIs(style, first);
      LaterCons(style, settings, key, v);
    }
  }

  lemma AddedIs(style: Style, setting: Setting)
    ensures Added(style, setting) == Pieces(style, setting.key, setting.value)
  {
  }

  lemma {:induction false} ChainKeepsValue(style: Style, content: string, settings: seq<Setting>, key: string,
                                           x: string)
    requires '\r' !in content && ValidSettings(settings) && forall j | 0 <= j < |settings| :: settings[j].key != key
    requires x in ValuesOf(Lines(content), key)
    ensures x in ValuesOf(Lines(SetAll(style, content, settings)), key)
    decreases |settings|
  {
    if settings == [] {
    } else {
      var first := settings[0];
      assert first.key != key && forall j | 0 <= j < |settings[1..]| :: settings[1..][j].key != key;
      hide *;
      SetAllStep(style, content, settings);
      EditSays(style, content, first, key, x);
      OthersStay(style, first.key, first.value, Lines(content), key, x);
      ChainKeepsValue(style, SetKey(style, content, first.key, first.value), settings[1..], key, x);
    }
  }

  /** The lines of the other settings of a chain that are read for the i-th key, other than to be replaced, read `v`. */
  predicate Undisturbed(style: Style, settings: seq<Setting>, i: nat, v: string)
    requires i < |settings|
  {
    && (forall j | 0 <= j < i :: StraysRead(style, settings[i].key, Added(style, settings[j]), v))
    && LaterRead(style, settings[i + 1..], settings[i].key, v)
  }

  lemma {:induction false} UndisturbedCons(style: Style, settings: seq<Setting>, i: nat, v: string)
    requires 0 < i < |settings|
    ensures Undisturbed(style, settings, i, v) <==>
              && StraysRead(style, settings[i].key, Added(style, settings[0]), v)
              && Undisturbed(style, settings[1..], i - 1, v)
  {
    hide StraysRead, LaterRead, Added;
    var rest := settings[1..];
    assert rest[i - 1] == settings[i] && rest[i..] == settings[i + 1..];
    assert forall j | 1 <= j < i :: settings[j] == rest[j - 1];
  }

  lemma {:induction false} UndisturbedFirst(style: Style, settings: seq<Setting>, v: string)
    requires settings != []
    ensures Undisturbed(style, settings, 0, v) <==> LaterRead(style, settings[1..], settings[0].key, v)
  {
    hide LaterRead, Added;
  }

  lemma {:induction false} FirstReadsBack(style: Style, content: string, settings: seq<Setting>, v: string)
    requires '\r' !in content && ValidSettings(settings) && settings != []
    ensures var key, values := settings[0].key, ValuesOf(Lines(SetAll(style, content, settings)), settings[0].key);
            && Value(Head(Written(style, settings[0].value))) in values
            && (AllEqual(values, v) <==>
                && StraysRead(style, key, Lines(content), v)
                && Reads(Added(style, settings[0]), key, v)
                && Undisturbed(style, settings, 0, v))
  {
    var first := settings[0];
    var key := first.key;
    hide *;
    var next := SetKey(style, content, key, first.value);
    SetAllStep(style, content, settings);
    EditSays(style, content, first, key, v);
    ReadsIs(Lines(SetAll(style, content, settings)), key, v);
    AddedIs(style, first);
    OwnKeyReads(style, key, first.value, Lines(content), v);
    ReadsIs(Lines(next), key, v);
    ChainForOthers(style, next, settings[1..], key, v);
    ChainKeepsValue(style, next, settings[1..], key, Value(Head(Written(style, first.value))));
    UndisturbedFirst(style, settings, v);
  }

  /**
   Every value read for the i-th key of a finished file is `v` if and only if the stray lines of the template read so,
   the lines written for the key itself do, and those of the other settings do not disturb.
   */
  lemma {:induction false} ChainReadsBack(style: Style, content: string, settings: seq<Setting>, i: nat, v: string)
    requires '\r' !in content && ValidSettings(settings) && i < |settings|
    ensures var key, values := settings[i].key, ValuesOf(Lines(SetAll(style, content, settings)), settings[i].key);
            && Value(Head(Written(style, settings[i].value))) in values
            && (AllEqual(values, v) <==>
                && StraysRead(style, key, Lines(content), v)
                && Reads(Added(style, settings[i]), key, v)
                && Undisturbed(style, settings, i, v))
    decreases |settings|
  {
    var first, key := settings[0], settings[i].key;
    assert i > 0 ==> settings[1..][i - 1] == settings[i] && settings[1..][i - 1].key != first.key;
    hide *;
    if i == 0 {
      FirstReadsBack(style, content, settings, v);
    } else {
      var next := SetKey(style, content, first.key, first.value);
      SetAllStep(style, content, settings);
      EditSays(style, content, first, key, v);
      AddedIs(style, first);
      ChainReadsBack(style, next, settings[1..], i - 1, v);
      SetForOthers(style, first.key, first.value, Lines(content), key, v);
      UndisturbedCons(style, settings, i, v);
    }
  }

  lemma {:induction false} OneLineQuiet(style: Style, setting: Setting, key: string, v: string)
    requires ValidKey(setting.key) && Clean(setting.value) && key != setting.key
    ensures Reads(Added(style, setting), key, v) && StraysRead(style, key, Added(style, setting), v)
  {
    hide *;
    AddedIs(style, setting);
    OnePiece(style, setting.key, setting.value);
    NewLineMatches(style, setting.key, setting.value);
    SaysNothing(style, setting.key, NewLine(style, setting.key, setting.value), key, v);
  }

  /** Settings on one line each do not disturb. */
  lemma {:induction false} OneLineUndisturbed(style: Style, settings: seq<Setting>, i: nat, v: string)
    requires ValidSettings(settings) && i < |settings|
    requires forall j | 0 <= j < |settings| && j != i :: '\n' !in settings[j].value
    ensures Undisturbed(style, settings, i, v)
  {
    forall j | 0 <= j < |settings| && j != i
      ensures Reads(Added(style, settings[j]), settings[i].key, v)
      ensures StraysRead(style, settings[i].key, Added(style, settings[j]), v)
    {
      assert Clean(settings[j].value) && ValidKey(settings[j].key) && settings[j].key != settings[i].key;
      hide *;
      OneLineQuiet(style, settings[j], settings[i].key, v);
    }
    hide Reads, StraysRead, Added, ValidSettings;
    var later := settings[i + 1..];
    assert forall j | 0 <= j < |later| :: later[j] == settings[i + 1 + j];
  }

  /** The settings of a fresh Laravel site. */
  function LaravelSettings(title: string, url: string, host: string, port: string,
                           database: string, user: string, password: string): seq<Setting>
  {
    [Setting("APP_NAME", title), Setting("APP_URL", url), Setting("DB_HOST", host), Setting("DB_PORT", port),
     Setting("DB_DATABASE", database), Setting("DB_USERNAME", user), Setting("DB_PASSWORD", password)]
  }

  /** The settings of a fresh CodeIgniter site. */
  function CodeIgniterSettings(host: string, database: string, user: string, password: string, port: string,
                               url: string): seq<Setting>
  {
    [Setting("CI_ENVIRONMENT", "production"), Setting(DATABASE + "hostname", host),
     Setting(DATABASE + "database", database), Setting(DATABASE + "username", user),
     Setting(DATABASE + "password", password), Setting(DATABASE + "DBDriver", "MySQLi"),
     Setting(DATABASE + "port", port), Setting("app.baseURL", "'" + url + "'")]
  }

  /** The prefix that most CodeIgniter keys share. */
  const DATABASE := "database.default."

  predicate PlainKey(key: string) {
    && key != ""
    && forall i | 0 <= i < |key| :: 'A' <= key[i] <= 'Z' || 'a' <= key[i] <= 'z' || key[i] == '_' || key[i] == '.'
  }

  lemma PlainIsValid(key: string)
    requires PlainKey(key)
    ensures ValidKey(key)
  {
  }

  lemma LaravelKeysValid()
    ensures PlainKey("APP_NAME") && PlainKey("APP_URL") && PlainKey("DB_HOST") && PlainKey("DB_PORT")
    ensures PlainKey("DB_DATABASE") && PlainKey("DB_USERNAME") && PlainKey("DB_PASSWORD")
  {
  }

  lemma LaravelKeysDiffer(ks: seq<string>)
    requires ks == ["APP_NAME", "APP_URL", "DB_HOST", "DB_PORT", "DB_DATABASE", "DB_USERNAME", "DB_PASSWORD"]
    ensures forall i, j | 0 <= i < j < 7 :: ks[i] != ks[j]
  {
    assert ks[0][0] == 'A' && ks[1][0] == 'A' && forall i | 2 <= i < 7 :: ks[i][0] == 'D';
    assert |ks[0]| == 8 && |ks[1]| == 7 && |ks[2]| == 7 && |ks[3]| == 7 && |ks[4]| == 11 && |ks[5]| == 11 &&
           |ks[6]| == 11;
    assert ks[2][3] == 'H' && ks[3][3] == 'P' && ks[4][3] == 'D' && ks[5][3] == 'U' && ks[6][3] == 'P';
  }

  /** Both installers' chains are of that kind: valid keys, no two alike although many share prefixes. */
  lemma LaravelValid(settings: seq<Setting>)
    requires |settings| == 7 && NoReturns(settings)
    requires settings == LaravelSettings(settings[0].value, settings[1].value, settings[2].value, settings[3].value,
                                         settings[4].value, settings[5].value, settings[6].value)
    ensures ValidSettings(settings)
  {
    var ks := ["APP_NAME", "APP_URL", "DB_HOST", "DB_PORT", "DB_DATABASE", "DB_USERNAME", "DB_PASSWORD"];
    assert forall i | 0 <= i < 7 :: settings[i].key == ks[i];
    LaravelKeysValid();
    assert forall i | 0 <= i < 7 :: PlainKey(ks[i]) by { hide PlainKey; }
    LaravelKeysDiffer(ks);
    hide ValidKey, PlainKey, NoReturns, LaravelSettings;
    forall i | 0 <= i < 7
      ensures ValidKey(settings[i].key)
    {
      PlainIsValid(ks[i]);
    }
  }

  lemma DatabaseKey(suffix: string)
    requires PlainKey(suffix)
    ensures ValidKey(DATABASE + suffix)
    ensures 17 <= |DATABASE + suffix| && (DATABASE + suffix)[0] == 'd' && (DATABASE + suffix)[17..] == suffix
  {
    assert PlainKey(DATABASE);
    PlainIsValid(DATABASE + suffix);
  }

  lemma SuffixesDiffer(suffixes: seq<string>)
    requires suffixes == ["hostname", "database", "username", "password", "DBDriver", "port"]
    ensures forall i | 0 <= i < 6 :: PlainKey(suffixes[i])
    ensures forall i, j | 0 <= i < j < 6 :: suffixes[i] != suffixes[j]
  {
    var first := ['h', 'd', 'u', 'p', 'D', 'p'];
    assert forall i | 0 <= i < 6 :: suffixes[i][0] == first[i];
    assert |suffixes[3]| == 8 && |suffixes[5]| == 4;
  }

  lemma CodeIgniterValid(settings: seq<Setting>, url: string)
    requires |settings| == 8 && NoReturns(settings)
    requires settings == CodeIgniterSettings(settings[1].value, settings[2].value, settings[3].value, settings[4].value,
                                             settings[6].value, url)
    ensures ValidSettings(settings)
  {
    var suffixes := ["hostname", "database", "username", "password", "DBDriver", "port"];
    hide *;
    CodeIgniterKeys(settings, url, suffixes);
    SuffixesDiffer(suffixes);
    DatabaseSettings(settings, suffixes);
  }

  lemma DatabaseSettings(settings: seq<Setting>, suffixes: seq<string>)
    requires |settings| == 8 && |suffixes| == 6 && NoReturns(settings)
    requires forall i | 1 <= i <= 6 :: settings[i].key == DATABASE + suffixes[i - 1]
    requires ValidKey(settings[0].key) && settings[0].key != "" && settings[0].key[0] == 'C'
    requires ValidKey(settings[7].key) && settings[7].key != "" && settings[7].key[0] == 'a'
    requires forall i | 0 <= i < 6 :: PlainKey(suffixes[i])
    requires forall i, j | 0 <= i < j < 6 :: suffixes[i] != suffixes[j]
    ensures ValidSettings(settings)
  {
    hide *;
    forall i | 1 <= i <= 6
      ensures ValidKey(settings[i].key) && 17 <= |settings[i].key|
      ensures settings[i].key[0] == 'd' && settings[i].key[17..] == suffixes[i - 1]
    {
      DatabaseKey(suffixes[i - 1]);
    }
    SettingsFromKeys(settings, suffixes);
  }

  lemma CodeIgniterKeys(settings: seq<Setting>, url: string, suffixes: seq<string>)
    requires |settings| == 8
    requires settings == CodeIgniterSettings(settings[1].value, settings[2].value, settings[3].value, settings[4].value,
                                             settings[6].value, url)
    requires suffixes == ["hostname", "database", "username", "password", "DBDriver", "port"]
    ensures forall i | 1 <= i <= 6 :: settings[i].key == DATABASE + suffixes[i - 1]
    ensures ValidKey(settings[0].key) && settings[0].key != "" && settings[0].key[0] == 'C'
    ensures ValidKey(settings[7].key) && settings[7].key != "" && settings[7].key[0] == 'a'
  {
    PlainIsValid("CI_ENVIRONMENT");
    PlainIsValid("app.baseURL");
  }

  lemma SettingsFromKeys(settings: seq<Setting>, suffixes: seq<string>)
    requires |settings| == 8 && |suffixes| == 6 && NoReturns(settings)
    requires forall i | 0 <= i < 8 :: ValidKey(settings[i].key) && settings[i].key != ""
    requires settings[0].key[0] == 'C' && settings[7].key[0] == 'a'
    requires forall i | 1 <= i <= 6 :: settings[i].key[0] == 'd'
    requires forall i | 1 <= i <= 6 :: 17 <= |settings[i].key| && settings[i].key[17..] == suffixes[i - 1]
    requires forall i, j | 0 <= i < j < 6 :: suffixes[i] != suffixes[j]
    ensures ValidSettings(settings)
  {
    hide ValidKey, NoReturns;
    forall i, j | 0 <= i < j < 8
      ensures settings[i].key != settings[j].key
    {
      assert 1 <= i && j <= 6 ==> settings[i].key[17..] != settings[j].key[17..];
    }
  }

  // ---- Which values survive -------------------------------------------------------------------------

  /** No quote of either kind at either end. */
  predicate NoOuterQuotes(v: string) {
    v != "" ==> v[0] !in {'"', '\''} && v[|v| - 1] !in {'"', '\''}
  }

  lemma {:induction false} TrimEndMatchesShrinks(s: string, c: char)
    ensures if s != "" && s[|s| - 1] == c then |TrimEndMatches(s, c)| < |s| else TrimEndMatches(s, c) == s
  {
    if s != "" && s[|s| - 1] == c {
      TrimEndMatchesShrinks(s[..|s| - 1], c);
    }
  }

  lemma {:induction false} TrimMatchesShrinks(s: string, c: char)
    ensures if s != "" && (s[0] == c || s[|s| - 1] == c) then |TrimMatches(s, c)| < |s| else TrimMatches(s, c) == s
  {
    TrimEndMatchesShrinks(s, c);
    if s != "" && s[0] == c {
      TrimMatchesShrinks(s[1..], c);
    }
  }

  lemma TrimShrinks(s: string)
    ensures if Trimmed(s) then Trim(s) == s else |Trim(s)| < |s|
  {
    if Trimmed(s) {
      TrimOfTrimmed(s);
    } else if !IsSpace(s[0]) {
      assert TrimStart(s) == s;
    }
  }

  /** Without quotes around it a value survives if and only if it has neither outer quotes nor outer whitespace. */
  lemma {:induction false} BareValueExactly(v: string)
    ensures Value(v) == v <==> NoOuterQuotes(v) && Trimmed(v)
  {
    TrimShrinks(v);
    TrimMatchesShrinks(Trim(v), '"');
    TrimMatchesShrinks(TrimMatches(Trim(v), '"'), '\'');
  }

  lemma {:induction false} TrimMatchesEnd(s: string, c: char)
    ensures TrimMatches(s + [c], c) == TrimMatches(s, c)
  {
    if s == "" {
      assert [c][1..] == "" && s + [c] == [c];
    } else if s[0] == c {
      assert (s + [c])[1..] == s[1..] + [c];
      TrimMatchesEnd(s[1..], c);
    } else {
      assert (s + [c])[..|s|] == s;
    }
  }

  /** Between double quotes a value survives if and only if it has no outer quotes itself. */
  lemma {:induction false} QuotedValueExactly(v: string)
    ensures Value("\"" + v + "\"") == v <==> NoOuterQuotes(v)
  {
    var raw := "\"" + v + "\"";
    assert !IsSpace('"');
    assert raw[0] == '"' && raw[|raw| - 1] == '"';
    TrimOfTrimmed(raw);
    assert raw[1..] == v + ['"'];
    TrimMatchesEnd(v, '"');
    TrimMatchesShrinks(v, '"');
    TrimMatchesShrinks(TrimMatches(v, '"'), '\'');
  }

  /** An installer's value is read back as itself if and only if this holds. */
  lemma WrittenValueExactly(style: Style, v: string)
    ensures Value(Written(style, v)) == v <==> NoOuterQuotes(v) && (Trimmed(v) || (style.Laravel? && ' ' in v))
  {
    BareValueExactly(v);
    QuotedValueExactly(v);
  }

  // ---- The two installers -------------------------------------------------------------------------------

  /** The values that are read back as they were given. */
  predicate Survives(style: Style, v: string) {
    '\n' !in v && NoOuterQuotes(v) && (Trimmed(v) || (style.Laravel? && ' ' in v))
  }

  /** The lines written for a key give it the value that was set, and no other, if and only if that survives. */
  lemma {:induction false} OwnLinesExactly(style: Style, setting: Setting)
    requires ValidKey(setting.key) && '\r' !in setting.value
    ensures Reads(Added(style, setting), setting.key, setting.value) <==> Survives(style, setting.value)
  {
    WrittenValueExactly(style, setting.value);
    AddedIs(style, setting);
    hide ValidKey, Reads, Added, Pieces, Value, Written, Trimmed, NoOuterQuotes, ValuesOf, Head;
    OwnPieces(style, setting.key, setting.value);
  }

  /**
   A key of a chain is read back with its own value and no other if and only if that value survives, the stray lines
   of the template read so, and the other settings do not disturb; they do not if they are on one line each.
   */
  lemma {:induction false} ChainValuesExactly(style: Style, content: string, settings: seq<Setting>, i: nat)
    requires '\r' !in content && ValidSettings(settings) && i < |settings|
    ensures var key, v := settings[i].key, settings[i].value;
            var values := ValuesOf(Lines(SetAll(style, content, settings)), key);
            && values != []
            && (AllEqual(values, v) <==>
                Survives(style, v) && StraysRead(style, key, Lines(content), v) && Undisturbed(style, settings, i, v))
            && ((forall j | 0 <= j < |settings| && j != i :: '\n' !in settings[j].value)
                ==> Undisturbed(style, settings, i, v))
  {
    var v := settings[i].value;
    assert ValidKey(settings[i].key) && '\r' !in v;
    hide *;
    ChainReadsBack(style, content, settings, i, v);
    OwnLinesExactly(style, settings[i]);
    if forall j | 0 <= j < |settings| && j != i :: '\n' !in settings[j].value {
      OneLineUndisturbed(style, settings, i, v);
    }
  }

  /** A template all of whose lines for `key`, comments apart, are written `KEY=`. */
  predicate WellWritten(content: string, key: string) {
    forall l <- Lines(content) :: Assigns(l, key) ==> key + "=" <= l
  }

  lemma WellWrittenHasNoStrays(content: string, key: string, v: string)
    requires ValidKey(key) && WellWritten(content, key)
    ensures StraysRead(Laravel, key, Lines(content), v)
  {
    forall l | l in Lines(content)
      ensures !Stray(Laravel, key, l)
    {
      StrayForm(Laravel, key, l);
    }
  }

  lemma {:induction false} CodeIgniterHasNoStrays(key: string, ls: seq<string>, v: string)
    requires ValidKey(key)
    ensures StraysRead(CodeIgniter, key, ls, v)
  {
    forall l | l in ls
      ensures !Stray(CodeIgniter, key, l)
    {
      StrayForm(CodeIgniter, key, l);
    }
  }

  /**
   After the installation of a Laravel site each of its seven keys is read back with its own value and no other, if
   and only if the value survives, the template's stray lines for the key read so, and the other values do not disturb.
   A template written `KEY=` throughout has no stray lines, and values on one line do not disturb.
   */
  lemma {:induction false} LaravelReadsBack(content: string, title: string, url: string, host: string, port: string,
                                            database: string, user: string, password: string, i: nat)
    requires '\r' !in content && i < 7
    requires NoReturns(LaravelSettings(title, url, host, port, database, user, password))
    ensures var settings := LaravelSettings(title, url, host, port, database, user, password);
            var key, v := settings[i].key, settings[i].value;
            var values := ValuesOf(Lines(SetAll(Laravel, content, settings)), key);
            && values != []
            && (AllEqual(values, v) <==>
                && Survives(Laravel, v)
                && StraysRead(Laravel, key, Lines(content), v)
                && Undisturbed(Laravel, settings, i, v))
            && (WellWritten(content, key) ==> StraysRead(Laravel, key, Lines(content), v))
            && ((forall j | 0 <= j < 7 && j != i :: '\n' !in settings[j].value) ==>
               Undisturbed(Laravel, settings, i, v))
  {
    var settings := LaravelSettings(title, url, host, port, database, user, password);
    LaravelValid(settings);
    assert ValidKey(settings[i].key);
    hide *;
    ChainValuesExactly(Laravel, content, settings, i);
    if WellWritten(content, settings[i].key) {
      WellWrittenHasNoStrays(content, settings[i].key, settings[i].value);
    }
  }

  /** A site title of two lines, the second of which is indented and reads as a port. */
  const TITLE := "News\n DB_PORT=1"

  lemma TitleText()
    ensures NewLine(Laravel, "APP_NAME", TITLE) + "\n" == "APP_NAME=\"News" + "\n" + (" DB_PORT=1\"" + "\n")
  {
    assert TITLE[5] == ' ';
    assert ' ' in TITLE;
  }

  lemma TitleLines()
    ensures Pieces(Laravel, "APP_NAME", TITLE) == ["APP_NAME=\"News", " DB_PORT=1\""]
  {
    var a, b := "APP_NAME=\"News", " DB_PORT=1\"";
    assert Clean(b) && '\n' !in a && StripCr(a) == a;
    hide *;
    TitleText();
    PiecesAre(Laravel, "APP_NAME", TITLE);
    LinesCons(a, b + "\n");
    OneLineWith(b);
  }

  lemma QuoteTaken()
    ensures Value("1\"") == "1"
  {
    assert !IsSpace('1') && !IsSpace('"');
    TrimOfTrimmed("1\"");
    TrimMatchesEnd("1", '"');
    assert "1" + ['"'] == "1\"";
    TrimMatchesShrinks("1", '"');
    TrimMatchesShrinks("1", '\'');
  }

  lemma TitleStrays(line: string)
    requires line == " DB_PORT=1\""
    ensures Stray(Laravel, "DB_PORT", line) && ReadFor(line, "DB_PORT") == Some("1")
  {
    assert AllSpaces(" ") && AllSpaces("");
    LaravelKeysValid();
    PlainIsValid("DB_PORT");
    assert line == " " + "DB_PORT" + "" + "=" + "1\"";
    assert line[0] == ' ' && ("DB_PORT" + "=")[0] == 'D' && ("# " + "DB_PORT" + "=")[0] == '#';
    assert !Matches(Laravel, "DB_PORT", line);
    hide ValidKey, PlainKey, Matches, Value;
    ReadAssignment(" ", "DB_PORT", "", "1\"");
    QuoteTaken();
    hide ReadLine;
  }

  lemma {:induction false} StrayAmong(ls: seq<string>, k: nat, key: string, v: string)
    requires k < |ls| && Stray(Laravel, key, ls[k]) && ReadFor(ls[k], key) != Some(v)
    ensures !StraysRead(Laravel, key, ls, v)
  {
    hide Stray, ReadFor;
    assert ls[k] in ls;
  }

  /**
   With that title the port of a new Laravel site is not read as it was set, unless that is 1, whatever the
   template.
   */
  lemma {:induction false} TitleExample(content: string, url: string, host: string, port: string, database: string,
                                        user: string, password: string)
    requires '\r' !in content && port != "1"
    requires NoReturns(LaravelSettings(TITLE, url, host, port, database, user, password))
    ensures var settings := LaravelSettings(TITLE, url, host, port, database, user, password);
            !AllEqual(ValuesOf(Lines(SetAll(Laravel, content, settings)), "DB_PORT"), port)
  {
    var settings := LaravelSettings(TITLE, url, host, port, database, user, password);
    assert settings[0] == Setting("APP_NAME", TITLE) && settings[3] == Setting("DB_PORT", port);
    var strays := Added(Laravel, settings[0]);
    assert strays == Pieces(Laravel, "APP_NAME", TITLE);
    assert Undisturbed(Laravel, settings, 3, port) ==> StraysRead(Laravel, "DB_PORT", strays, port);
    hide *;
    TitleLines();
    TitleStrays(strays[1]);
    StrayAmong(strays, 1, "DB_PORT", port);
    LaravelReadsBack(content, TITLE, url, host, port, database, user, password, 3);
  }

  lemma {:induction false} CodeIgniterUndisturbed(settings: seq<Setting>, i: nat, v: string)
    requires ValidSettings(settings) && i < |settings|
    ensures Undisturbed(CodeIgniter, settings, i, v) <==> LaterRead(CodeIgniter, settings[i + 1..], settings[i].key, v)
  {
    forall j | 0 <= j < i
      ensures StraysRead(CodeIgniter, settings[i].key, Added(CodeIgniter, settings[j]), v)
    {
      CodeIgniterHasNoStrays(settings[i].key, Added(CodeIgniter, settings[j]), v);
    }
    hide StraysRead, LaterRead, Added;
  }

  /**
   After the installation of a CodeIgniter site, whatever the template, each of its eight keys is read back with its own
   value and no other, if and only if the value survives and the values set after it give the key no other.
   */
  lemma {:induction false} CodeIgniterReadsBack(content: string, host: string, database: string, user: string,
                                                password: string, port: string, url: string, i: nat)
    requires '\r' !in content && i < 8
    requires NoReturns(CodeIgniterSettings(host, database, user, password, port, url))
    ensures var settings := CodeIgniterSettings(host, database, user, password, port, url);
            var key, v := settings[i].key, settings[i].value;
            var values := ValuesOf(Lines(SetAll(CodeIgniter, content, settings)), key);
            && values != []
            && (AllEqual(values, v) <==> Survives(CodeIgniter, v) && LaterRead(CodeIgniter, settings[i + 1..], key, v))
            && ((forall j | 0 <= j < 8 && j != i :: '\n' !in settings[j].value)
                ==> LaterRead(CodeIgniter, settings[i + 1..], key, v))
  {
    var settings := CodeIgniterSettings(host, database, user, password, port, url);
    CodeIgniterValid(settings, url);
    assert |settings| == 8 && ValidKey(settings[i].key);
    hide *;
    ChainValuesExactly(CodeIgniter, content, settings, i);
    CodeIgniterHasNoStrays(settings[i].key, Lines(content), settings[i].value);
    CodeIgniterUndisturbed(settings, i, settings[i].value);
  }

  // ---- Key by key -----------------------------------------------------------------------------------

  /**
   The i-th setting of a chain is `key`, and every value that the finished file gives `key` is `v` if and only if `v`
   survives, the stray lines of the template read so, and the other settings do not disturb.
   */
  predicate SetsKey(style: Style, content: string, settings: seq<Setting>, i: nat, key: string, v: string)
    requires i < |settings|
  {
    var values := ValuesOf(Lines(SetAll(style, content, settings)), key);
    && settings[i].key == key
    && values != []
    && (AllEqual(values, v) <==>
        Survives(style, v) && StraysRead(style, key, Lines(content), v) && Undisturbed(style, settings, i, v))
    && ((forall j | 0 <= j < |settings| && j != i :: '\n' !in settings[j].value) ==> Undisturbed(style, settings, i, v))
  }

  lemma {:induction false} SetsItsKey(style: Style, content: string, settings: seq<Setting>, i: nat)
    requires '\r' !in content && ValidSettings(settings) && i < |settings|
    ensures SetsKey(style, content, settings, i, settings[i].key, settings[i].value)
  {
    hide ValidSettings, Lines, SetAll, ValuesOf, AllEqual, Survives, StraysRead, Undisturbed;
    ChainValuesExactly(style, content, settings, i);
  }

  /** Which argument a Laravel site reads under which key. */
  lemma {:induction false} LaravelKeyByKey(content: string, title: string, url: string, host: string, port: string,
                                           database: string, user: string, password: string)
    requires '\r' !in content && NoReturns(LaravelSettings(title, url, host, port, database, user, password))
    ensures var settings := LaravelSettings(title, url, host, port, database, user, password);
            && |settings| == 7
            && SetsKey(Laravel, content, settings, 0, "APP_NAME", title)
            && SetsKey(Laravel, content, settings, 1, "APP_URL", url)
            && SetsKey(Laravel, content, settings, 2, "DB_HOST", host)
            && SetsKey(Laravel, content, settings, 3, "DB_PORT", port)
            && SetsKey(Laravel, content, settings, 4, "DB_DATABASE", database)
            && SetsKey(Laravel, content, settings, 5, "DB_USERNAME", user)
            && SetsKey(Laravel, content, settings, 6, "DB_PASSWORD", password)
  {
    var settings := LaravelSettings(title, url, host, port, database, user, password);
    LaravelValid(settings);
    assert settings[0] == Setting("APP_NAME", title) && settings[1] == Setting("APP_URL", url);
    assert settings[2] == Setting("DB_HOST", host) && settings[3] == Setting("DB_PORT", port);
    assert settings[4] == Setting("DB_DATABASE", database) && settings[5] == Setting("DB_USERNAME", user);
    assert settings[6] == Setting("DB_PASSWORD", password) && |settings| == 7;
    hide *;
    forall i: nat | i < 7
      ensures SetsKey(Laravel, content, settings, i, settings[i].key, settings[i].value)
    {
      SetsItsKey(Laravel, content, settings, i);
    }
  }

  /** Which argument a CodeIgniter site reads under which key. */
  lemma {:induction false} CodeIgniterKeyByKey(content: string, host: string, database: string, user: string,
                                               password: string, port: string, url: string)
    requires '\r' !in content && NoReturns(CodeIgniterSettings(host, database, user, password, port, url))
    ensures var settings := CodeIgniterSettings(host, database, user, password, port, url);
            && |settings| == 8
            && SetsKey(CodeIgniter, content, settings, 0, "CI_ENVIRONMENT", "production")
            && SetsKey(CodeIgniter, content, settings, 1, "database." + "default.hostname", host)
            && SetsKey(CodeIgniter, content, settings, 2, "database." + "default.database", database)
            && SetsKey(CodeIgniter, content, settings, 3, "database." + "default.username", user)
            && SetsKey(CodeIgniter, content, settings, 4, "database." + "default.password", password)
            && SetsKey(CodeIgniter, content, settings, 5, "database." + "default.DBDriver", "MySQLi")
            && SetsKey(CodeIgniter, content, settings, 6, "database." + "default.port", port)
            && SetsKey(CodeIgniter, content, settings, 7, "app.baseURL", "'" + url + "'")
  {
    var settings := CodeIgniterSettings(host, database, user, password, port, url);
    CodeIgniterValid(settings, url);
    DatabaseKeysWritten();
    assert settings[0] == Setting("CI_ENVIRONMENT", "production") &&
           settings[1] == Setting(DATABASE + "hostname", host);
    assert settings[2] == Setting(DATABASE + "database", database) &&
           settings[3] == Setting(DATABASE + "username", user);
    assert settings[4] == Setting(DATABASE + "password", password);
    assert settings[5] == Setting(DATABASE + "DBDriver", "MySQLi");
    assert settings[6] == Setting(DATABASE + "port", port) && settings[7] == Setting("app.baseURL", "'" + url + "'");
    assert |settings| == 8;
    hide *;
    forall i: nat | i < 8
      ensures SetsKey(CodeIgniter, content, settings, i, settings[i].key, settings[i].value)
    {
      SetsItsKey(CodeIgniter, content, settings, i);
    }
  }

  lemma DatabaseKeysWritten()
    ensures DATABASE + "hostname" == "database." + "default.hostname"
    ensures DATABASE + "database" == "database." + "default.database"
    ensures DATABASE + "username" == "database." + "default.username"
    ensures DATABASE + "password" == "database." + "default.password"
    ensures DATABASE + "DBDriver" == "database." + "default.DBDriver"
    ensures DATABASE + "port" == "database." + "default.port"
  {
    assert DATABASE == "database." + "default.";
    assert "default." + "hostname" == "default.hostname" && "default." + "database" == "default.database";
    assert "default." + "username" == "default.username" && "default." + "password" == "default.password";
    assert "default." + "DBDriver" == "default.DBDriver" && "default." + "port" == "default.port";
    hide *;
    AfterDefault("hostname");
    AfterDefault("database");
    AfterDefault("username");
    AfterDefault("password");
    AfterDefault("DBDriver");
    AfterDefault("port");
  }

  lemma AfterDefault(name: string)
    ensures "database." + "default." + name == "database." + ("default." + name)
  {
  }

  /** Between single quotes a value survives if and only if it has no single quote at either end. */
  lemma {:induction false} SingleQuotedExactly(v: string)
    ensures Value("'" + v + "'") == v <==> (v != "" ==> v[0] != '\'' && v[|v| - 1] != '\'')
  {
    var raw := "'" + v + "'";
    assert !IsSpace('\'');
    assert raw[0] == '\'' && raw[|raw| - 1] == '\'';
    TrimOfTrimmed(raw);
    TrimMatchesShrinks(raw, '"');
    assert raw[1..] == v + ['\''];
    TrimMatchesEnd(v, '\'');
    TrimMatchesShrinks(v, '\'');
  }

  lemma WrittenPlainly(value: string)
    ensures Written(CodeIgniter, value) == value
  {
  }

  lemma QuotedUrl(url: string)
    ensures !Survives(CodeIgniter, "'" + url + "'") && ('\n' !in url ==> '\n' !in "'" + url + "'")
    ensures '\r' !in "'" + url + "'" <==> '\r' !in url
  {
    hide Trimmed;
  }

  lemma {:induction false} BaseUrlIsLast(settings: seq<Setting>, v: string)
    requires |settings| == 8
    ensures LaterRead(CodeIgniter, settings[8..], settings[7].key, v)
  {
  }

  /**
   The base URL, which the CodeIgniter installer puts in single quotes, is never read as it was set. On one line and
   without single quotes of its own at the ends it is read without them, whatever the other values.
   */
  lemma {:induction false} BaseUrlReads(content: string, host: string, database: string, user: string,
                                        password: string, port: string, url: string)
    requires '\r' !in content && NoReturns(CodeIgniterSettings(host, database, user, password, port, url))
    ensures var settings := CodeIgniterSettings(host, database, user, password, port, url);
            var values := ValuesOf(Lines(SetAll(CodeIgniter, content, settings)), "app.baseURL");
            && values != [] && !AllEqual(values, "'" + url + "'")
            && ('\n' !in url && (url != "" ==> url[0] != '\'' && url[|url| - 1] != '\'') ==> AllEqual(values, url))
  {
    var settings := CodeIgniterSettings(host, database, user, password, port, url);
    CodeIgniterValid(settings, url);
    var last := settings[7];
    assert last == Setting("app.baseURL", "'" + url + "'") && |settings| == 8 && ValidKey(last.key);
    assert '\r' !in last.value;
    QuotedUrl(url);
    WrittenPlainly(last.value);
    SingleQuotedExactly(url);
    hide *;
    CodeIgniterReadsBack(content, host, database, user, password, port, url, 7);
    ChainReadsBack(CodeIgniter, content, settings, 7, url);
    CodeIgniterHasNoStrays(last.key, Lines(content), url);
    CodeIgniterUndisturbed(settings, 7, url);
    BaseUrlIsLast(settings, url);
    AddedIs(CodeIgniter, last);
    OwnPieces(CodeIgniter, last.key, last.value);
  }
}
