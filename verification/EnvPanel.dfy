/**
 The panel's own editor of `.env` files: `set_env`, read back by `get_env`.
 */
module EnvPanel {
  import opened EnvChains
  import opened EnvFiles
  import opened Text

  function PanelText(value: string): string {
    if ' ' in value || '"' in value then "\"" + value + "\"" else value
  }

  function PanelLine(e: Entry): string {
    e.key + "=" + PanelText(e.value)
  }

  function PanelLines(vars: seq<Entry>): seq<string> {
    if vars == [] then []
    else (if vars[0].key == "" then [] else [PanelLine(vars[0])]) + PanelLines(vars[1..])
  }

  function SetEnv(vars: seq<Entry>): string {
    Join(PanelLines(vars), "\n") + "\n"
  }

  // ---- Each variable on its own -------------------------------------------------------------------

  predicate NoReturnVars(vars: seq<Entry>) {
    forall i | 0 <= i < |vars| :: '\r' !in vars[i].key && '\r' !in vars[i].value
  }

  /** What a variable's own text is read as. */
  function ReadVar(e: Entry): seq<Entry> {
    if e.key == "" then [] else GetEnv(PanelLine(e) + "\n")
  }

  function ReadVars(vars: seq<Entry>): seq<Entry> {
    if vars == [] then [] else ReadVar(vars[0]) + ReadVars(vars[1..])
  }

  lemma {:induction false} ReadLinesAppend(a: seq<string>, b: seq<string>)
    ensures ReadLines(a + b) == ReadLines(a) + ReadLines(b)
  {
    hide ReadLine;
    if a == [] {
      assert a + b == b;
    } else {
      assert (a + b)[1..] == a[1..] + b;
      ReadLinesAppend(a[1..], b);
    }
  }

  lemma {:induction false} PanelLinesStep(vars: seq<Entry>)
    requires vars != []
    ensures PanelLines(vars) == (if vars[0].key == "" then [] else [PanelLine(vars[0])]) + PanelLines(vars[1..])
    ensures ReadVars(vars) == ReadVar(vars[0]) + ReadVars(vars[1..])
    ensures vars == [vars[0]] + vars[1..]
  {
    hide PanelLine, ReadVar;
  }

  lemma {:induction false} ReadVarIs(e: Entry)
    ensures ReadVar(e) == if e.key == "" then [] else ReadLines(Lines(PanelLine(e) + "\n"))
  {
  }

  lemma {:induction false} NoVars()
    ensures PanelLines([]) == [] && ReadVars([]) == [] && ReadLines([]) == [] && Lines("") == [] && Unlines([]) == ""
  {
  }

  lemma {:induction false} ReadUnlines(vars: seq<Entry>)
    ensures ReadLines(Lines(Unlines(PanelLines(vars)))) == ReadVars(vars)
  {
    hide *;
    NoVars();
    if vars == [] {
    } else {
      var line, rest := PanelLine(vars[0]), PanelLines(vars[1..]);
      ReadUnlines(vars[1..]);
      PanelLinesStep(vars);
      ReadVarIs(vars[0]);
      if vars[0].key == "" {
        NoFurther(rest);
        NoFurther(ReadVars(vars[1..]));
      } else {
        UnlinesCons(line, rest);
        LineEnds(line);
        LinesAppend(line + "\n", Unlines(rest));
        ReadLinesAppend(Lines(line + "\n"), Lines(Unlines(rest)));
      }
    }
  }

  lemma BlankIsNothing()
    ensures ReadLines([""]) == []
  {
    assert ReadLine("") == None;
    assert [""][1..] == [];
  }

  lemma {:induction false} SetEnvIs(vars: seq<Entry>)
    ensures SetEnv(vars) == Join(PanelLines(vars), "\n") + "\n" &&
            GetEnv(SetEnv(vars)) == ReadLines(Lines(SetEnv(vars)))
    ensures PanelLines(vars) == [] ==> SetEnv(vars) == "\n"
  {
  }

  /** A key as it is written by hand, and a value on one line. */
  predicate ValidVar(e: Entry) {
    ValidKey(e.key) && Clean(e.value)
  }

  predicate ValidVars(vars: seq<Entry>) {
    forall i | 0 <= i < |vars| :: ValidVar(vars[i])
  }

  function Stored(vars: seq<Entry>): (r: seq<Entry>)
    ensures |r| == |vars|
    ensures forall i | 0 <= i < |vars| :: r[i] == Entry(vars[i].key, Value(PanelText(vars[i].value)))
  {
    if vars == [] then [] else [Entry(vars[0].key, Value(PanelText(vars[0].value)))] + Stored(vars[1..])
  }

  /**
   Whatever the variables saved, they are listed in order, each as its own text is read. Valid ones are listed with
   their keys, and with what their quoted values read as.
   */
  lemma {:induction false} SetThenGet(vars: seq<Entry>)
    ensures GetEnv(SetEnv(vars)) == ReadVars(vars)
    ensures ValidVars(vars) ==> ReadVars(vars) == Stored(vars)
  {
    hide *;
    SetEnvIs(vars);
    ReadUnlines(vars);
    NoVars();
    if PanelLines(vars) == [] {
      JustBlank();
      BlankIsNothing();
    } else {
      JoinThenNewline(PanelLines(vars));
    }
    if ValidVars(vars) {
      ReadValid(vars);
    }
  }

  // ---- One variable --------------------------------------------------------------------------------------

  /** The values that survive the panel's quoting. */
  predicate PanelSurvives(v: string) {
    NoOuterQuotes(v) && (Trimmed(v) || ' ' in v || '"' in v)
  }

  lemma {:induction false} PanelValueExactly(v: string)
    ensures Value(PanelText(v)) == v <==> PanelSurvives(v)
  {
    BareValueExactly(v);
    QuotedValueExactly(v);
  }

  lemma PanelTextClean(value: string)
    ensures '\n' !in value <==> '\n' !in PanelText(value)
    ensures '\r' !in value ==> '\r' !in PanelText(value)
  {
  }

  lemma {:induction false} PanelLineClean(e: Entry)
    requires '\r' !in e.key && '\r' !in e.value && '\n' !in e.key && '\n' !in e.value
    ensures Clean(PanelLine(e))
  {
    PanelTextClean(e.value);
    hide PanelText;
  }

  lemma {:induction false} ReadOneLine(e: Entry)
    requires '\r' !in e.key && '\r' !in e.value && '\n' !in e.key && '\n' !in e.value && e.key != ""
    ensures ReadVar(e) == match ReadLine(PanelLine(e)) { case None => [] case Some(x) => [x] }
  {
    hide *;
    PanelLineClean(e);
    OneLineWith(PanelLine(e));
    ReadVarIs(e);
    ReadLinesOne(PanelLine(e));
  }

  lemma ReadLinesOne(line: string)
    ensures ReadLines([line]) == match ReadLine(line) { case None => [] case Some(x) => [x] }
  {
    hide ReadLine;
    assert [line][1..] == [] && ReadLines([]) == [];
  }

  lemma {:induction false} ReadValidLine(e: Entry)
    requires ValidKey(e.key)
    ensures ReadLine(PanelLine(e)) == Some(Entry(e.key, Value(PanelText(e.value))))
  {
    assert PanelLine(e) == "" + e.key + "" + "=" + PanelText(e.value);
    ReadAssignment("", e.key, "", PanelText(e.value));
  }

  lemma {:induction false} ReadValid(vars: seq<Entry>)
    requires ValidVars(vars)
    ensures ReadVars(vars) == Stored(vars)
  {
    if vars == [] {
    } else {
      assert ValidVar(vars[0]) && ValidKey(vars[0].key) && Clean(vars[0].key) && Clean(vars[0].value) &&
             vars[0].key != "";
      ReadValid(vars[1..]);
      hide ReadLine, PanelText, Value, ValidKey, Clean, ReadVar, PanelLine;
      ReadOneLine(vars[0]);
      ReadValidLine(vars[0]);
    }
  }

  /** A line whose key starts with a number sign, after whitespace, is a comment. */
  lemma HashKey(key: string, rest: string)
    requires key != "" && key[0] == '#'
    ensures ReadLine(key + "=" + rest) == None
  {
    assert "#" <= key + "=" + rest;
    HashLine(key + "=" + rest);
  }

  lemma EqualsInKey(key: string, rest: string) returns (k: nat)
    requires '=' in key
    ensures k < |key| && Find(key + "=" + rest, "=") == Some(k)
  {
    var i :| 0 <= i < |key| && key[i] == '=';
    assert (key + "=" + rest)[i..][0] == '=';
    assert OccursAt(key + "=" + rest, "=", i);
    k := Find(key + "=" + rest, "=").value;
  }

  lemma {:induction false} TrimNoLonger(s: string)
    ensures |Trim(s)| <= |s|
  {
  }

  lemma FirstEquals(key: string, rest: string) returns (k: nat)
    ensures k <= |key| && Find(key + "=" + rest, "=") == Some(k) && (k == |key| <==> '=' !in key)
  {
    hide Find;
    if '=' in key {
      k := EqualsInKey(key, rest);
    } else {
      k := |key|;
      FindEquals(key, rest);
    }
  }

  lemma ReadLineKey(line: string, k: nat)
    requires Find(line, "=") == Some(k) && k < |line| && ReadLine(line).Some?
    ensures ReadLine(line).value.key == Trim(line[..k])
  {
    hide Find, Trim, Value;
  }

  /** A line is read for the key that it was written for only if that is written as by hand. */
  lemma KeyReadExactly(key: string, rest: string)
    requires key != "" && ReadLine(key + "=" + rest).Some? && ReadLine(key + "=" + rest).value.key == key
    ensures Trimmed(key) && '=' !in key && key[0] != '#'
  {
    if key[0] == '#' {
      HashKey(key, rest);
    }
    var line := key + "=" + rest;
    TrimShrinks(key);
    hide Trimmed, Trim, ReadLine, Find;
    var k := FirstEquals(key, rest);
    assert line[..k] == key[..k];
    ReadLineKey(line, k);
    TrimNoLonger(key[..k]);
    assert key[..|key|] == key;
  }

  /** A variable that survives: a key as it is written by hand, and a value on one line that survives its quoting. */
  predicate Survives(e: Entry) {
    && e.key != "" && Trimmed(e.key) && e.key[0] != '#' && '=' !in e.key
    && '\n' !in e.key && '\n' !in e.value && PanelSurvives(e.value)
  }

  lemma {:induction false} KeyValid(e: Entry)
    requires '\r' !in e.key && '\n' !in e.key && e.key != ""
    ensures ValidKey(e.key) <==> Trimmed(e.key) && e.key[0] != '#' && '=' !in e.key
  {
  }

  lemma {:induction false} OneVarExactly(e: Entry)
    requires '\r' !in e.key && '\r' !in e.value && '\n' !in e.key && '\n' !in e.value && e.key != ""
    ensures ReadLine(PanelLine(e)) == Some(e) <==> Survives(e)
  {
    assert PanelLine(e) == e.key + "=" + PanelText(e.value);
    assert Survives(e) <==> Trimmed(e.key) && e.key[0] != '#' && '=' !in e.key && PanelSurvives(e.value);
    hide *;
    KeyValid(e);
    PanelValueExactly(e.value);
    if ReadLine(PanelLine(e)) == Some(e) {
      KeyReadExactly(e.key, PanelText(e.value));
    }
    if ValidKey(e.key) {
      ReadValidLine(e);
    }
  }

  // ---- All of them -----------------------------------------------------------------------------------------

  predicate Breaks(e: Entry) {
    '\n' in e.key || '\n' in e.value
  }

  lemma ReadLineNoBreak(line: string)
    requires '\n' !in line && ReadLine(line).Some?
    ensures !Breaks(ReadLine(line).value)
  {
    var k := Find(line, "=").value;
    assert k < |line| by { OccursAtChar(line, "=", k, 0); }
    hide Find, Trim, Value;
    TrimWithin(line[..k], '\n');
    ValueWithin(line[k + 1..], '\n');
  }

  lemma {:induction false} ReadersNoBreak(ls: seq<string>)
    requires forall i | 0 <= i < |ls| :: '\n' !in ls[i]
    ensures forall i | 0 <= i < |ReadLines(ls)| :: !Breaks(ReadLines(ls)[i])
  {
    if ls == [] {
    } else {
      if ReadLine(ls[0]).Some? {
        ReadLineNoBreak(ls[0]);
      }
      hide ReadLine, Breaks;
      ReadersNoBreak(ls[1..]);
    }
  }

  lemma {:induction false} PanelReturns(vars: seq<Entry>)
    requires NoReturnVars(vars)
    ensures forall i | 0 <= i < |PanelLines(vars)| :: '\r' !in PanelLines(vars)[i]
  {
    if vars == [] {
    } else {
      assert '\r' !in vars[0].key && '\r' !in vars[0].value;
      PanelTextClean(vars[0].value);
      hide PanelText;
      PanelReturns(vars[1..]);
    }
  }

  lemma {:induction false} ListedNoBreak(vars: seq<Entry>)
    requires NoReturnVars(vars)
    ensures var listed := GetEnv(SetEnv(vars)); forall i | 0 <= i < |listed| :: !Breaks(listed[i])
  {
    hide *;
    SetEnvIs(vars);
    PanelReturns(vars);
    JoinReturns(PanelLines(vars));
    LineEnded(Join(PanelLines(vars), "\n"));
    LinesClean(SetEnv(vars));
    CleanLines(Lines(SetEnv(vars)));
    ReadersNoBreak(Lines(SetEnv(vars)));
  }

  lemma CleanLines(ls: seq<string>)
    requires AllClean(ls)
    ensures forall i | 0 <= i < |ls| :: '\n' !in ls[i]
  {
    forall i | 0 <= i < |ls|
      ensures '\n' !in ls[i]
    {
      assert Clean(ls[i]);
    }
  }

  predicate AllSurvive(vars: seq<Entry>) {
    forall i | 0 <= i < |vars| :: Survives(vars[i])
  }

  predicate NoBreaks(vars: seq<Entry>) {
    forall i | 0 <= i < |vars| :: !Breaks(vars[i])
  }

  lemma {:induction false} AllStep(vars: seq<Entry>)
    requires vars != []
    ensures AllSurvive(vars) <==> Survives(vars[0]) && AllSurvive(vars[1..])
    ensures NoBreaks(vars) ==> !Breaks(vars[0]) && NoBreaks(vars[1..])
    ensures NoReturnVars(vars) ==> NoReturnVars(vars[1..]) && '\r' !in vars[0].key && '\r' !in vars[0].value
  {
    hide Survives, Breaks;
    assert forall i | 1 <= i < |vars| :: vars[i] == vars[1..][i - 1];
  }

  /** What the one line of a variable is read as. */
  function ReadAs(e: Entry): Option<Entry> {
    if e.key == "" then None else ReadLine(PanelLine(e))
  }

  lemma {:induction false} FirstVar(e: Entry)
    requires '\r' !in e.key && '\r' !in e.value && !Breaks(e)
    ensures ReadVar(e) == match ReadAs(e) { case None => [] case Some(x) => [x] }
    ensures ReadAs(e) == Some(e) <==> Survives(e)
  {
    hide ReadLine, PanelLine, PanelSurvives, Trimmed, GetEnv;
    if e.key != "" {
      ReadOneLine(e);
      OneVarExactly(e);
    }
  }

  /** Variables on one line each give at most one entry each, so the list is the same only if each entry is. */
  lemma {:induction false} OneLineVars(vars: seq<Entry>)
    requires NoReturnVars(vars) && NoBreaks(vars)
    ensures |ReadVars(vars)| <= |vars| && (ReadVars(vars) == vars <==> AllSurvive(vars))
  {
    hide *;
    if vars == [] {
      NoVars();
      NoneSurvive();
    } else {
      AllStep(vars);
      PanelLinesStep(vars);
      OneLineVars(vars[1..]);
      FirstVar(vars[0]);
      OneMore(ReadAs(vars[0]), ReadVars(vars[1..]), vars[0], vars[1..]);
    }
  }

  lemma {:induction false} NoneSurvive()
    ensures AllSurvive([])
  {
  }

  lemma {:induction false} BreakDies(vars: seq<Entry>)
    requires !NoBreaks(vars)
    ensures !AllSurvive(vars) && exists i | 0 <= i < |vars| :: Breaks(vars[i])
  {
  }

  /**
   Whatever variables without carriage returns are saved, they are listed again as they are, in order, if and only if
   each has a key as it is written by hand and a value on one line that survives its quoting.
   */
  lemma {:induction false} SetThenGetExactly(vars: seq<Entry>)
    requires NoReturnVars(vars)
    ensures GetEnv(SetEnv(vars)) == vars <==> AllSurvive(vars)
  {
    hide *;
    SetThenGet(vars);
    if NoBreaks(vars) {
      OneLineVars(vars);
    } else {
      ListedNoBreak(vars);
      BreakDies(vars);
    }
  }

  /** The line of a variable, and that a variable without a key has none. */
  lemma {:induction false} VariableWritten(e: Entry)
    ensures SetEnv([e]) ==
              if e.key == "" then "\n"
              else if exists i | 0 <= i < |e.value| :: e.value[i] as int in {32, 34}
              then e.key + "=\"" + e.value + "\"\n"
              else e.key + "=" + e.value + "\n"
  {
    assert [e][1..] == [] && PanelLines([]) == [];
    var line := PanelLine(e);
    if e.key != "" {
      assert PanelLines([e]) == [line] + [] == [line];
      assert Join([line], "\n") == line;
      if ' ' in e.value || '"' in e.value {
        assert e.key + "=" + ("\"" + e.value + "\"") + "\n" == e.key + "=\"" + e.value + "\"\n";
      }
    }
  }
}
