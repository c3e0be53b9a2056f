/**
 `.env` files as databases: the installers' line editors, and the panel's own reader and writer.
 */
module EnvFiles {
  import opened Text

  // ---- Reading: get_env ---------------------------------------------------------------

  /** `trim_matches` with one character. */
  function TrimMatches(s: string, c: char): string {
    if s != [] && s[0] == c then TrimMatches(s[1..], c) else TrimEndMatches(s, c)
  }

  /** The value that the text after the equals sign stands for. */
  function Value(raw: string): string {
    TrimMatches(TrimMatches(Trim(raw), '"'), '\'')
  }

  datatype Entry = Entry(key: string, value: string)

  /** What one line says. */
  function ReadLine(line: string): Option<Entry> {
    if Trim(line) == "" || Trim(line)[0] == '#' then None
    else
      match Find(line, "=")
      case None => None
      case Some(eq) => Some(Entry(Trim(line[..eq]), Value(line[eq + 1..])))
  }

  function ReadLines(ls: seq<string>): seq<Entry> {
    if ls == [] then []
    else (match ReadLine(ls[0]) { case None => [] case Some(e) => [e] }) + ReadLines(ls[1..])
  }

  function GetEnv(content: string): seq<Entry> {
    ReadLines(Lines(content))
  }

  /** The value that a line gives to a key. */
  function ReadFor(line: string, key: string): Option<string> {
    match ReadLine(line)
    case None => None
    case Some(e) => if e.key == key then Some(e.value) else None
  }

  predicate Assigns(line: string, key: string) {
    ReadFor(line, key).Some?
  }

  /** The values given to one key, in order. */
  function ValuesOf(ls: seq<string>, key: string): seq<string> {
    if ls == [] then []
    else (match ReadFor(ls[0], key) { case None => [] case Some(v) => [v] }) + ValuesOf(ls[1..], key)
  }

  /** Keys as they are written by hand. */
  predicate ValidKey(key: string) {
    key != "" && Trimmed(key) && key[0] != '#' && '=' !in key && Clean(key)
  }

  predicate AllSpaces(s: string) {
    forall c <- s :: IsSpace(c)
  }

  lemma {:induction false} TrimEndOf(s: string) returns (pad: string)
    ensures s == TrimEnd(s) + pad && AllSpaces(pad)
  {
    pad := "";
    if s != "" && IsSpace(s[|s| - 1]) {
      var p := TrimEndOf(s[..|s| - 1]);
      pad := p + [s[|s| - 1]];
      assert s == s[..|s| - 1] + [s[|s| - 1]];
    }
  }

  lemma {:induction false} TrimStartOf(s: string) returns (pad: string)
    ensures s == pad + TrimStart(s) && AllSpaces(pad)
  {
    pad := "";
    if s != "" && IsSpace(s[0]) {
      var p := TrimStartOf(s[1..]);
      pad := [s[0]] + p;
    }
  }

  lemma {:induction false} TrimEndPadded(s: string, pad: string)
    requires AllSpaces(pad) && s != "" && !IsSpace(s[|s| - 1])
    ensures TrimEnd(s + pad) == s
  {
    if pad == "" {
      assert s + pad == s;
    } else {
      var p := pad[..|pad| - 1];
      assert pad[|pad| - 1] in pad && forall c <- p :: c in pad;
      assert (s + pad)[..|s + pad| - 1] == s + p;
      TrimEndPadded(s, p);
    }
  }

  lemma TrimPadded(a: string, s: string, b: string)
    requires AllSpaces(a) && AllSpaces(b) && s != "" && Trimmed(s)
    ensures Trim(a + s + b) == s
  {
    assert a + s + b == a + (s + b);
    TrimStartSpaces(a, s + b);
    assert TrimStart(s + b) == s + b;
    TrimEndPadded(s, b);
  }

  lemma FindEquals(before: string, rest: string)
    requires '=' !in before
    ensures Find(before + "=" + rest, "=") == Some(|before|)
  {
    var s := before + "=" + rest;
    assert s[|before|..] == "=" + rest;
    forall j | 0 <= j < |before|
      ensures !OccursAt(s, "=", j)
    {
      assert s[j..][0] == before[j];
      assert before[j] in before;
    }
    FindIs(s, "=", |before|);
  }

  /** Trimming stops at a character that is not whitespace. */
  lemma {:induction false} TrimEndKeeps(s: string, k: nat)
    requires k < |s| && !IsSpace(s[k])
    ensures k < |TrimEnd(s)|
  {
    if IsSpace(s[|s| - 1]) {
      TrimEndKeeps(s[..|s| - 1], k);
    }
  }

  lemma {:induction false} TrimFirst(a: string, s: string)
    requires AllSpaces(a) && s != "" && !IsSpace(s[0])
    ensures Trim(a + s) == TrimEnd(s) && TrimEnd(s) != "" && TrimEnd(s)[0] == s[0]
  {
    TrimStartSpaces(a, s);
    TrimEndKeeps(s, 0);
  }

  /** What a line says, from its position of the equals sign. */
  lemma ReadLineIs(line: string, eq: nat)
    requires Trim(line) != "" && Trim(line)[0] != '#' && Find(line, "=") == Some(eq) && eq < |line|
    ensures ReadLine(line) == Some(Entry(Trim(line[..eq]), Value(line[eq + 1..])))
  {
    hide Trim, Find, Value;
  }

  lemma KeyStarts(key: string, more: string)
    requires ValidKey(key)
    ensures key + more != "" && !IsSpace((key + more)[0]) && (key + more)[0] != '#'
  {
  }

  lemma NoEquals(a: string, key: string, b: string)
    requires AllSpaces(a) && AllSpaces(b) && ValidKey(key)
    ensures '=' !in a + key + b && key != "" && Trimmed(key)
  {
    assert !IsSpace('=');
  }

  /** A line that assigns `key`, however it is spaced, is read as an entry for it. */
  lemma ReadAssignment(a: string, key: string, b: string, rest: string)
    requires AllSpaces(a) && AllSpaces(b) && ValidKey(key)
    ensures ReadLine(a + key + b + "=" + rest) == Some(Entry(key, Value(rest)))
  {
    hide *;
    var before, more := a + key + b, b + "=" + rest;
    var line := before + "=" + rest;
    assert line == a + (key + more);
    KeyStarts(key, more);
    TrimFirst(a, key + more);
    NoEquals(a, key, b);
    FindEquals(before, rest);
    TrimPadded(a, key, b);
    assert line[..|before|] == before && line[|before| + 1..] == rest;
    ReadLineIs(line, |before|);
  }

  lemma TrimForm(s: string) returns (a: string, b: string)
    ensures AllSpaces(a) && AllSpaces(b) && s == a + (Trim(s) + b)
  {
    a := TrimStartOf(s);
    b := TrimEndOf(TrimStart(s));
  }

  lemma AssignmentParts(line: string, key: string) returns (before: string, rest: string)
    requires Assigns(line, key)
    ensures line == before + "=" + rest && Trim(before) == key
  {
    var eq := Find(line, "=").value;
    OccursAtChar(line, "=", eq, 0);
    before, rest := line[..eq], line[eq + 1..];
    assert Trim(before) == key;
    hide *;
    assert line == line[..eq] + [line[eq]] + line[eq + 1..];
  }

  /** And every entry comes from such a line. */
  lemma AssignmentForm(line: string, key: string) returns (a: string, b: string, rest: string)
    requires ValidKey(key) && Assigns(line, key)
    ensures AllSpaces(a) && AllSpaces(b) && line == a + key + b + "=" + rest
  {
    hide *;
    var before;
    before, rest := AssignmentParts(line, key);
    a, b := TrimForm(before);
    assert before == a + key + b;
  }

  // ---- The installers' line editors -------------------------------------------------------

  /** `replace_env_line` and `set_ci_env` differ in the lines they take for the key's and in what they write. */
  datatype Style = Laravel | CodeIgniter

  function TrimStartMatches(s: string, c: char): string {
    if s != [] && s[0] == c then TrimStartMatches(s[1..], c) else s
  }

  predicate Matches(style: Style, key: string, line: string) {
    match style
    case Laravel => key + "=" <= line || "# " + key + "=" <= line
    case CodeIgniter =>
      var trimmed := Trim(line);
      && ("# " + key <= trimmed || "#" + key <= trimmed || key <= trimmed)
      && var afterKey := if "#" <= trimmed then Trim(TrimStartMatches(trimmed, '#')) else trimmed;
         key <= afterKey && "=" <= TrimStart(afterKey[|key|..])
  }

  /** The text written for a value: Laravel's is quoted if it contains a space. */
  function Written(style: Style, value: string): string {
    if style.Laravel? && ' ' in value then "\"" + value + "\"" else value
  }

  function NewLine(style: Style, key: string, value: string): string {
    if style.Laravel? then key + "=" + Written(style, value) else key + " = " + value
  }

  /** Every matching line replaced. */
  function SetEach(style: Style, key: string, value: string, ls: seq<string>): (r: seq<string>)
    ensures |r| == |ls|
    ensures forall i | 0 <= i < |ls| :: r[i] == if Matches(style, key, ls[i]) then NewLine(style, key, value) else ls[i]
  {
    if ls == [] then []
    else
      [if Matches(style, key, ls[0]) then NewLine(style, key, value) else ls[0]]
      + SetEach(style, key, value, ls[1..])
  }

  predicate HasMatch(style: Style, key: string, ls: seq<string>) {
    exists l <- ls :: Matches(style, key, l)
  }

  function SetLines(style: Style, key: string, value: string, ls: seq<string>): seq<string> {
    if HasMatch(style, key, ls) then SetEach(style, key, value, ls)
    else SetEach(style, key, value, ls) + [NewLine(style, key, value)]
  }

  function SetKey(style: Style, content: string, key: string, value: string): string {
    var text := Join(SetLines(style, key, value, Lines(content)), "\n");
    if content != "" && content[|content| - 1] == '\n' then text + "\n" else text
  }

  method ReplaceEnvLine(style: Style, content: string, key: string, value: string) returns (result: string)
    ensures result == SetKey(style, content, key, value)
  {
    var input := Lines(content);
    var found := false;
    var lines := [];
    hide Matches, NewLine, Lines, Join, SetEach;
    for i := 0 to |input|
      invariant lines == SetEach(style, key, value, input)[..i]
      invariant found <==> HasMatch(style, key, input[..i])
    {
      HasMatchStep(style, key, input, i);
      if Matches(style, key, input[i]) {
        found := true;
        lines := lines + [NewLine(style, key, value)];
      } else {
        lines := lines + [input[i]];
      }
    }
    assert input[..|input|] == input;
    assert SetEach(style, key, value, input)[..|input|] == SetEach(style, key, value, input);
    if !found {
      lines := lines + [NewLine(style, key, value)];
    }
    result := Join(lines, "\n");
    if content != "" && content[|content| - 1] == '\n' {
      result := result + "\n";
    }
  }

  lemma HasMatchStep(style: Style, key: string, ls: seq<string>, i: nat)
    requires i < |ls|
    ensures HasMatch(style, key, ls[..i + 1]) <==> HasMatch(style, key, ls[..i]) || Matches(style, key, ls[i])
  {
    hide Matches;
    assert ls[..i + 1] == ls[..i] + [ls[i]];
  }

  // ---- What an edit does to the lines --------------------------------------------------------

  lemma {:induction false} LastLineNotBlank(t: string)
    requires '\r' !in t && t != "" && t[|t| - 1] != '\n'
    ensures Lines(t) != [] && Lines(t)[|Lines(t)| - 1] != ""
    decreases |t|
  {
    if '\n' in t {
      var l, rest := FirstLine(t);
      assert forall c <- rest :: c in t;
      assert rest != "" by {
        assert t[|l|] == '\n';
      }
      assert rest[|rest| - 1] == t[|t| - 1];
      LinesCons(l, rest);
      LastLineNotBlank(rest);
    } else {
      LinesLast(t);
    }
  }

  lemma EditedOneLine(style: Style, content: string, key: string, value: string)
    requires '\r' !in content && ValidKey(key) && Clean(value)
    ensures var result := SetKey(style, content, key, value);
            && Lines(result) == SetLines(style, key, value, Lines(content))
            && '\r' !in result && result != ""
            && (result[|result| - 1] == '\n' <==> content != "" && content[|content| - 1] == '\n')
  {
    var ls, line := Lines(content), NewLine(style, key, value);
    var out := SetLines(style, key, value, ls);
    hide *;
    LinesClean(content);
    NewLineClean(style, key, value);
    OutputClean(style, key, value, ls);
    JoinClean(out);
    SetKeyIs(style, content, key, value);
    if content != "" && content[|content| - 1] == '\n' {
      JoinThenNewline(out);
      LinesOfUnlines(out);
    } else {
      NoLines();
      if content != "" {
        LastLineNotBlank(content);
      }
      LastEdited(style, key, value, ls);
      LinesOfJoin(out);
      DropLastBlankNone(out);
      JoinEnds(out);
    }
  }

  lemma SetKeyIs(style: Style, content: string, key: string, value: string)
    ensures var text := Join(SetLines(style, key, value, Lines(content)), "\n");
            SetKey(style, content, key, value) ==
              if content != "" && content[|content| - 1] == '\n' then text + "\n" else text
  {
  }

  /** The last line stays non-blank, and has no line feed at its end. */
  lemma LastEdited(style: Style, key: string, value: string, ls: seq<string>)
    requires Clean(NewLine(style, key, value)) && NewLine(style, key, value) != "" && AllClean(ls)
    requires ls != [] ==> ls[|ls| - 1] != ""
    ensures var out := SetLines(style, key, value, ls);
            out != [] && out[|out| - 1] != "" && out[|out| - 1][|out[|out| - 1]| - 1] != '\n'
  {
    hide NewLine, Matches;
    OutputClean(style, key, value, ls);
    var out := SetLines(style, key, value, ls);
    assert Clean(out[|out| - 1]);
  }

  lemma NewLineClean(style: Style, key: string, value: string)
    requires ValidKey(key) && Clean(value)
    ensures Clean(NewLine(style, key, value)) && NewLine(style, key, value) != ""
  {
  }

  lemma NoLines()
    ensures Lines("") == []
  {
  }

  lemma OutputClean(style: Style, key: string, value: string, ls: seq<string>)
    requires AllClean(ls) && Clean(NewLine(style, key, value))
    ensures var out := SetLines(style, key, value, ls); out != [] && AllClean(out)
  {
    hide Matches, NewLine;
    var each := SetEach(style, key, value, ls);
    forall i | 0 <= i < |each|
      ensures Clean(each[i])
    {
      assert Clean(ls[i]);
    }
    if ls == [] {
      assert !HasMatch(style, key, ls);
    }
  }

  lemma {:induction false} JoinClean(ls: seq<string>)
    requires AllClean(ls)
    ensures '\r' !in Join(ls, "\n")
  {
    if ls == [] {
    } else {
      assert Clean(ls[0]);
      JoinClean(ls[1..]);
    }
  }

  lemma {:induction false} JoinEnds(ls: seq<string>)
    requires ls != [] && ls[|ls| - 1] != ""
    ensures var t, last := Join(ls, "\n"), ls[|ls| - 1]; t != "" && t[|t| - 1] == last[|last| - 1]
  {
    if |ls| > 1 {
      JoinEnds(ls[1..]);
    }
  }

  lemma LaravelLineMatches(key: string, value: string)
    ensures Matches(Laravel, key, NewLine(Laravel, key, value))
  {
    hide Written;
    assert key + "=" <= key + "=" + Written(Laravel, value);
  }

  lemma CodeIgniterLine(key: string, value: string)
    ensures NewLine(CodeIgniter, key, value) == "" + key + " " + "=" + (" " + value)
  {
  }

  lemma NewLineMatches(style: Style, key: string, value: string)
    requires ValidKey(key)
    ensures Matches(style, key, NewLine(style, key, value))
  {
    match style
    case Laravel => LaravelLineMatches(key, value);
    case CodeIgniter =>
      CodeIgniterLine(key, value);
      assert AllSpaces("") && AllSpaces(" ");
      hide *;
      MatchesAssignment("", key, " ", " " + value);
  }

  lemma SetTwice(style: Style, content: string, key: string, value: string)
    requires '\r' !in content && ValidKey(key) && Clean(value)
    ensures var once := SetKey(style, content, key, value); SetKey(style, once, key, value) == once
  {
    var once, before := SetKey(style, content, key, value), Lines(content);
    EditedOneLine(style, content, key, value);
    NewLineMatches(style, key, value);
    SetLinesTwice(style, key, value, before);
  }

  lemma HasNewLine(style: Style, key: string, value: string, ls: seq<string>)
    requires Matches(style, key, NewLine(style, key, value))
    ensures HasMatch(style, key, SetLines(style, key, value, ls))
  {
    hide Matches, NewLine;
    var once, line := SetLines(style, key, value, ls), NewLine(style, key, value);
    if HasMatch(style, key, ls) {
      var i :| 0 <= i < |ls| && Matches(style, key, ls[i]);
      assert once[i] == line;
    } else {
      assert once[|ls|] == line;
    }
  }

  lemma SetEachTwice(style: Style, key: string, value: string, ls: seq<string>)
    ensures var once := SetLines(style, key, value, ls); SetEach(style, key, value, once) == once
  {
    hide Matches, NewLine, HasMatch;
    var once := SetLines(style, key, value, ls);
    var twice := SetEach(style, key, value, once);
    forall i | 0 <= i < |once|
      ensures twice[i] == once[i]
    {
    }
  }

  lemma SetLinesTwice(style: Style, key: string, value: string, ls: seq<string>)
    requires Matches(style, key, NewLine(style, key, value))
    ensures var once := SetLines(style, key, value, ls); SetLines(style, key, value, once) == once
  {
    HasNewLine(style, key, value, ls);
    SetEachTwice(style, key, value, ls);
    var once := SetLines(style, key, value, ls);
    assert SetLines(style, key, value, once) ==
           SetEach(style, key, value, once) by { hide Matches, NewLine, SetEach, HasMatch; }
  }

  // ---- The lines of an edited file ------------------------------------------------------------

  predicate EndsLine(t: string) {
    t != "" && t[|t| - 1] == '\n'
  }

  /** The lines that a new assignment is written on: one, unless the value holds line feeds. */
  function Pieces(style: Style, key: string, value: string): seq<string> {
    Lines(NewLine(style, key, value) + "\n")
  }

  /** The lines with those of the new assignment in place of every matching one. */
  function Spliced(style: Style, key: string, value: string, ls: seq<string>): seq<string> {
    if ls == [] then []
    else
      (if Matches(style, key, ls[0]) then Pieces(style, key, value) else [ls[0]])
      + Spliced(style, key, value, ls[1..])
  }

  function SetPieces(style: Style, key: string, value: string, ls: seq<string>): seq<string> {
    Spliced(style, key, value, ls) + if HasMatch(style, key, ls) then [] else Pieces(style, key, value)
  }

  lemma OneLineWith(l: string)
    requires Clean(l)
    ensures Lines(l + "\n") == [l]
  {
    LinesCons(l, "");
    assert l + "\n" + "" == l + "\n" && StripCr(l) == l;
  }

  lemma SplicedStep(style: Style, key: string, value: string, ls: seq<string>)
    requires ls != []
    ensures Spliced(style, key, value, ls)
         == (if Matches(style, key, ls[0]) then Pieces(style, key, value) else [ls[0]]) +
           Spliced(style, key, value, ls[1..])
    ensures SetEach(style, key, value, ls)
         == [if Matches(style, key, ls[0]) then NewLine(style, key, value) else ls[0]] +
           SetEach(style, key, value, ls[1..])
    ensures HasMatch(style, key, ls) <==> Matches(style, key, ls[0]) || HasMatch(style, key, ls[1..])
  {
    hide Matches, NewLine, Pieces;
    assert ls == [ls[0]] + ls[1..];
  }

  lemma UnlinesCons(l: string, ls: seq<string>)
    ensures Unlines([l] + ls) == (l + "\n") + Unlines(ls)
  {
    assert ([l] + ls)[1..] == ls;
  }

  lemma PiecesAre(style: Style, key: string, value: string)
    ensures Pieces(style, key, value) == Lines(NewLine(style, key, value) + "\n")
  {
  }

  lemma {:induction false} LinesOfEach(style: Style, key: string, value: string, ls: seq<string>)
    requires AllClean(ls)
    ensures Lines(Unlines(SetEach(style, key, value, ls))) == Spliced(style, key, value, ls)
  {
    if ls == [] {
    } else {
      assert Clean(ls[0]);
      assert AllClean(ls[1..]) by { hide Clean; }
      hide *;
      var first := if Matches(style, key, ls[0]) then NewLine(style, key, value) else ls[0];
      var rest := SetEach(style, key, value, ls[1..]);
      LinesOfEach(style, key, value, ls[1..]);
      SplicedStep(style, key, value, ls);
      UnlinesCons(first, rest);
      LineEnds(first);
      LinesAppend(first + "\n", Unlines(rest));
      PiecesAre(style, key, value);
      OneLineWith(ls[0]);
    }
  }

  lemma SetLinesIs(style: Style, key: string, value: string, ls: seq<string>)
    ensures SetLines(style, key, value, ls)
         == SetEach(style, key, value, ls) + if HasMatch(style, key, ls) then [] else [NewLine(style, key, value)]
  {
    hide Matches, NewLine;
    assert SetEach(style, key, value, ls) + [] == SetEach(style, key, value, ls);
  }

  lemma SetPiecesIs(style: Style, key: string, value: string, ls: seq<string>)
    ensures SetPieces(style, key, value, ls)
         == Spliced(style, key, value, ls) + if HasMatch(style, key, ls) then [] else Pieces(style, key, value)
  {
  }

  lemma UnlinesOne(l: string)
    ensures Unlines([l]) == l + "\n" && Unlines([]) == "" && Lines("") == []
  {
    UnlinesCons(l, []);
    assert [l] + [] == [l];
  }

  lemma UnlinesTerminated(ls: seq<string>)
    ensures Terminated(Unlines(ls))
  {
  }

  lemma LinesOfSetLines(style: Style, key: string, value: string, ls: seq<string>)
    requires AllClean(ls)
    ensures Lines(Unlines(SetLines(style, key, value, ls))) == SetPieces(style, key, value, ls)
  {
    hide *;
    var each, line := SetEach(style, key, value, ls), NewLine(style, key, value);
    LinesOfEach(style, key, value, ls);
    SetLinesIs(style, key, value, ls);
    SetPiecesIs(style, key, value, ls);
    UnlinesOne(line);
    PiecesAre(style, key, value);
    var more := if HasMatch(style, key, ls) then [] else [line];
    UnlinesAppend(each, more);
    UnlinesTerminated(each);
    LinesAppend(Unlines(each), Unlines(more));
  }

  lemma EndsStep(t: string, l: string, rest: string)
    requires t == l + "\n" + rest && t[|t| - 1] != '\n'
    ensures rest != "" && rest[|rest| - 1] != '\n'
  {
    assert t[|l|] == '\n';
    if rest != "" {
      assert rest[|rest| - 1] == t[|t| - 1];
    }
  }

  lemma {:induction false} LinesEnded(t: string)
    requires '\r' !in t && t != "" && t[|t| - 1] != '\n'
    ensures Lines(t + "\n") == Lines(t)
    decreases |t|
  {
    hide *;
    if '\n' in t {
      var l, rest := FirstLine(t);
      assert forall c <- rest :: c in t;
      EndsStep(t, l, rest);
      LinesEnded(rest);
      LinesCons(l, rest);
      LinesCons(l, rest + "\n");
      assert t + "\n" == l + "\n" + (rest + "\n");
    } else {
      LinesLast(t);
      CleanIs(t);
      OneLineWith(t);
    }
  }

  lemma CleanIs(t: string)
    ensures Clean(t) <==> '\n' !in t && '\r' !in t
  {
  }

  lemma DropBlank(ls: seq<string>)
    ensures DropLastBlank(ls + [""]) == ls
  {
  }

  lemma JustBlank()
    ensures Lines("\n") == [""]
  {
    OneLineWith("");
    assert "" + "\n" == "\n";
  }

  /** A text without its last line feed has the same lines, but for a last blank one. */
  lemma LinesUnended(t: string)
    requires '\r' !in t
    ensures Lines(t) == DropLastBlank(Lines(t + "\n"))
  {
    hide Lines, DropLastBlank;
    if Terminated(t) {
      LinesAppend(t, "\n");
      JustBlank();
      DropBlank(Lines(t));
    } else {
      LinesEnded(t);
      LastLineNotBlank(t);
      DropLastBlankNone(Lines(t));
    }
  }

  lemma NewLineReturns(style: Style, key: string, value: string)
    requires ValidKey(key) && '\r' !in value
    ensures '\r' !in NewLine(style, key, value) && NewLine(style, key, value) != ""
  {
  }

  lemma {:induction false} JoinReturns(ls: seq<string>)
    requires forall i | 0 <= i < |ls| :: '\r' !in ls[i]
    ensures '\r' !in Join(ls, "\n")
  {
    if ls == [] {
    } else {
      JoinReturns(ls[1..]);
    }
  }

  lemma OutputReturns(style: Style, key: string, value: string, ls: seq<string>)
    requires AllClean(ls) && '\r' !in NewLine(style, key, value)
    ensures var out := SetLines(style, key, value, ls);
            (forall i | 0 <= i < |out| :: '\r' !in out[i]) &&
              exists k | 0 <= k < |out| :: out[k] == NewLine(style, key, value)
  {
    hide Matches, NewLine;
    var out, each := SetLines(style, key, value, ls), SetEach(style, key, value, ls);
    forall i | 0 <= i < |each|
      ensures '\r' !in each[i]
    {
      assert Clean(ls[i]);
    }
    if HasMatch(style, key, ls) {
      var i :| 0 <= i < |ls| && Matches(style, key, ls[i]);
      assert out[i] == NewLine(style, key, value);
    } else {
      assert out[|ls|] == NewLine(style, key, value);
    }
  }

  lemma {:induction false} JoinHolds(ls: seq<string>, k: nat)
    requires k < |ls|
    ensures |Join(ls, "\n")| >= |ls[k]|
  {
    if |ls| == 1 {
    } else if k > 0 {
      JoinHolds(ls[1..], k - 1);
    }
  }

  /**
   After an edit the file has exactly the edited lines, but for a last blank one if it did not end with a line feed
   before. With a value on one line each matching line gives one line, and the file ends as it did.
   */
  lemma EditedLines(style: Style, content: string, key: string, value: string)
    requires '\r' !in content && ValidKey(key) && '\r' !in value
    ensures var result, edited := SetKey(style, content, key, value), SetPieces(style, key, value, Lines(content));
            && Lines(result) == (if EndsLine(content) then edited else DropLastBlank(edited))
            && '\r' !in result && result != ""
            && (EndsLine(content) ==> EndsLine(result))
            && ('\n' !in value ==> (EndsLine(result) <==> EndsLine(content)))
            && ('\n' !in value ==> Lines(result) == SetLines(style, key, value, Lines(content)))
  {
    var ls, line := Lines(content), NewLine(style, key, value);
    var out := SetLines(style, key, value, ls);
    var text := Join(out, "\n");
    assert '\n' !in value ==> Clean(value);
    assert EndsLine(content) <==> content != "" && content[|content| - 1] == '\n';
    LineEnded(text);
    hide *;
    LinesClean(content);
    NewLineReturns(style, key, value);
    OutputReturns(style, key, value, ls);
    JoinReturns(out);
    var k :| 0 <= k < |out| && out[k] == line;
    JoinHolds(out, k);
    SetKeyIs(style, content, key, value);
    JoinThenNewline(out);
    LinesOfSetLines(style, key, value, ls);
    LinesUnended(text);
    if '\n' !in value {
      EditedOneLine(style, content, key, value);
    }
  }

  lemma LineEnded(t: string)
    ensures EndsLine(t + "\n") && (EndsLine(t) <==> t != "" && t[|t| - 1] == '\n')
    ensures '\r' !in t ==> '\r' !in t + "\n"
  {
  }

  // ---- Twice the same edit -----------------------------------------------------------------------

  /** The number of line feeds. */
  function Feeds(s: string): nat {
    if s == "" then 0 else (if s[0] == '\n' then 1 else 0) + Feeds(s[1..])
  }

  lemma {:induction false} FeedsAppend(a: string, b: string)
    ensures Feeds(a + b) == Feeds(a) + Feeds(b)
  {
    if a == "" {
      assert a + b == b;
    } else {
      assert (a + b)[1..] == a[1..] + b;
      FeedsAppend(a[1..], b);
    }
  }

  lemma {:induction false} NoFeeds(s: string)
    ensures Feeds(s) == 0 <==> '\n' !in s
  {
    if s == "" {
    } else {
      assert s == [s[0]] + s[1..];
      NoFeeds(s[1..]);
    }
  }

  lemma FeedsLine(l: string, rest: string)
    requires '\n' !in l
    ensures Feeds(l + "\n" + rest) == 1 + Feeds(rest)
  {
    NoFeeds(l);
    FeedsAppend(l + "\n", rest);
    FeedsAppend(l, "\n");
    assert Feeds("\n") == 1 + Feeds("");
  }

  lemma LastOf(l: string, rest: string)
    ensures EndsLine(l + "\n" + rest) <==> rest == "" || EndsLine(rest)
  {
  }

  /** Every line but the last has its line feed, and the last has one if the text ends so. */
  lemma {:induction false} FeedsOfLines(t: string)
    requires t != ""
    ensures Feeds(t) + (if EndsLine(t) then 0 else 1) == |Lines(t)|
    decreases |t|
  {
    if '\n' in t {
      var l, rest := FirstLine(t);
      LastOf(l, rest);
      LinesCons(l, rest);
      FeedsLine(l, rest);
      if rest != "" {
        FeedsOfLines(rest);
      }
    } else {
      NoFeeds(t);
      LinesLast(t);
      assert t[|t| - 1] in t;
    }
  }

  lemma {:induction false} FeedsOfJoin(ls: seq<string>, k: nat)
    requires k < |ls|
    ensures Feeds(Join(ls, "\n")) >= |ls| - 1 + Feeds(ls[k])
  {
    if |ls| == 1 {
    } else {
      var rest := Join(ls[1..], "\n");
      FeedsOfJoin(ls[1..], if k > 0 then k - 1 else 0);
      FeedsAppend(ls[0] + "\n", rest);
      FeedsAppend(ls[0], "\n");
      assert Feeds("\n") == 1 + Feeds("");
    }
  }

  /** An edit with a value that holds a line feed makes any file longer by a line at least. */
  lemma BreakAdds(style: Style, content: string, key: string, value: string)
    requires content != "" && '\n' in value
    ensures Feeds(SetKey(style, content, key, value)) > Feeds(content)
  {
    var out := SetLines(style, key, value, Lines(content));
    BreakInNewLine(style, key, value);
    var k := WhereSet(style, key, value, Lines(content));
    LineEnded(content);
    hide *;
    FeedsOfLines(content);
    FeedsOfJoin(out, k);
    SetKeyIs(style, content, key, value);
    FeedsAppend(Join(out, "\n"), "\n");
    OneFeed();
    NoFeeds(NewLine(style, key, value));
  }

  lemma OneFeed()
    ensures Feeds("\n") == 1
  {
    assert Feeds("\n") == 1 + Feeds("");
  }

  lemma BreakInNewLine(style: Style, key: string, value: string)
    requires '\n' in value
    ensures '\n' in NewLine(style, key, value)
  {
  }

  lemma WhereSet(style: Style, key: string, value: string, ls: seq<string>) returns (k: nat)
    ensures var out := SetLines(style, key, value, ls);
            k < |out| && out[k] == NewLine(style, key, value) && |out| >= |ls|
  {
    hide Matches, NewLine;
    if HasMatch(style, key, ls) {
      k :| 0 <= k < |ls| && Matches(style, key, ls[k]);
    } else {
      k := |ls|;
    }
  }

  /** Setting a key twice to a value is setting it once if and only if the value is on one line. */
  lemma SetIdempotentExactly(style: Style, content: string, key: string, value: string)
    requires '\r' !in content && ValidKey(key) && '\r' !in value
    ensures var once := SetKey(style, content, key, value);
            (SetKey(style, once, key, value) == once) <==> '\n' !in value
  {
    assert '\n' !in value ==> Clean(value);
    hide *;
    if '\n' in value {
      EditedLines(style, content, key, value);
      BreakAdds(style, SetKey(style, content, key, value), key, value);
    } else {
      SetTwice(style, content, key, value);
    }
  }

  // ---- Reading back ------------------------------------------------------------------------------

  lemma TrimEndKeepsFront(front: string, rest: string) returns (tail: string)
    requires front != "" && !IsSpace(front[|front| - 1])
    ensures TrimEnd(front + rest) == front + tail
  {
    TrimEndKeeps(front + rest, |front| - 1);
    var t := TrimEnd(front + rest);
    assert front <= t;
    tail := t[|front|..];
  }

  lemma TrimAssignment(a: string, key: string, b: string, rest: string) returns (tail: string)
    requires AllSpaces(a) && AllSpaces(b) && ValidKey(key)
    ensures Trim(a + key + b + "=" + rest) == key + (b + ("=" + tail))
  {
    var front := key + b + "=";
    assert !IsSpace(front[|front| - 1]) && !IsSpace((front + rest)[0]);
    hide *;
    assert a + key + b + "=" + rest == a + (front + rest);
    TrimFirst(a, front + rest);
    tail := TrimEndKeepsFront(front, rest);
    assert front + tail == key + (b + ("=" + tail));
  }

  lemma AfterKey(key: string, b: string, tail: string)
    requires AllSpaces(b)
    ensures var t := key + (b + ("=" + tail));
            key <= t && TrimStart(t[|key|..]) == "=" + tail
  {
    var t := key + (b + ("=" + tail));
    assert t[|key|..] == b + ("=" + tail);
    TrimStartSpaces(b, "=" + tail);
    assert !IsSpace('=');
  }

  /** `set_ci_env` takes every assignment to the key for the key's, however it is spaced. */
  lemma MatchesAssignment(a: string, key: string, b: string, rest: string)
    requires AllSpaces(a) && AllSpaces(b) && ValidKey(key)
    ensures Matches(CodeIgniter, key, a + key + b + "=" + rest)
  {
    var line := a + key + b + "=" + rest;
    var tail := TrimAssignment(a, key, b, rest);
    AfterKey(key, b, tail);
    hide Trim, TrimStart, Trimmed;
    assert Trim(line)[0] == key[0];
  }

  /** A comment that holds an assignment to the key. */
  predicate CommentsOut(line: string, key: string) {
    "#" <= Trim(line) && Assigns(Trim(TrimStartMatches(Trim(line), '#')), key)
  }

  /** A matching line is an assignment to the key, or a comment that holds one and is read as nothing. */
  lemma MatchedLine(style: Style, key: string, line: string)
    requires ValidKey(key) && Matches(style, key, line)
    ensures Assigns(line, key) || (CommentsOut(line, key) && ReadLine(line) == None)
  {
    match style
    case Laravel =>
      if key + "=" <= line {
        var rest := line[|key| + 1..];
        assert line == "" + key + "" + "=" + rest;
        ReadAssignment("", key, "", rest);
      } else {
        HashLine(line);
        LaravelComment(key, line);
      }
    case CodeIgniter =>
      var trimmed := Trim(line);
      if "#" <= trimmed {
        CodeIgniterComment(key, line);
      } else {
        MatchedActiveLine(key, line);
      }
  }

  lemma {:induction false} TrimTwice(s: string)
    ensures Trim(Trim(s)) == Trim(s)
  {
    TrimmedTrim(s);
    TrimOfTrimmed(Trim(s));
  }

  lemma TrimmedTrim(s: string)
    ensures Trimmed(Trim(s))
  {
  }

  lemma ActiveText(key: string, text: string)
    requires ValidKey(key) && Trim(text) == text && key <= text && "=" <= TrimStart(text[|key|..])
    ensures Assigns(text, key)
  {
    hide *;
    MatchedActiveLine(key, text);
  }

  lemma CodeIgniterComment(key: string, line: string)
    requires ValidKey(key) && Matches(CodeIgniter, key, line) && "#" <= Trim(line)
    ensures CommentsOut(line, key)
  {
    var after := Trim(TrimStartMatches(Trim(line), '#'));
    assert key <= after && "=" <= TrimStart(after[|key|..]);
    TrimTwice(TrimStartMatches(Trim(line), '#'));
    ActiveText(key, after);
  }

  /** Trimming a Laravel comment for the key cuts only what follows the equals sign. */
  lemma TrimComment(key: string, line: string) returns (tail: string)
    requires "# " + key + "=" <= line
    ensures Trim(line) == "# " + key + "=" + tail
  {
    var front := "# " + key + "=";
    var rest := line[|front|..];
    assert front != "" && !IsSpace(front[|front| - 1]) && !IsSpace(line[0]) && AllSpaces("");
    hide *;
    assert line == front + rest && "" + line == line;
    TrimFirst("", line);
    tail := TrimEndKeepsFront(front, rest);
  }

  lemma LaravelComment(key: string, line: string)
    requires ValidKey(key) && "# " + key + "=" <= line
    ensures CommentsOut(line, key)
  {
    var tail := TrimComment(key, line);
    var more := " " + (key + "=" + tail);
    assert "# " + key + "=" + tail == "#" + more;
    hide Trim, ReadFor, ValidKey, TrimStartMatches;
    StripHash(more);
    LaravelActive(key, tail);
  }

  lemma StripHash(s: string)
    requires s != "" && s[0] != '#'
    ensures TrimStartMatches("#" + s, '#') == s
  {
    assert ("#" + s)[1..] == s;
  }

  lemma ReadAssigns(key: string, rest: string)
    requires ValidKey(key)
    ensures Assigns(key + "=" + rest, key)
  {
    assert key + "=" + rest == "" + key + "" + "=" + rest;
    ReadAssignment("", key, "", rest);
    hide ReadLine, ValidKey;
  }

  lemma TrimActive(key: string, tail: string) returns (rest: string)
    requires ValidKey(key)
    ensures Trim(" " + (key + "=" + tail)) == key + "=" + rest
  {
    var front := key + "=";
    assert AllSpaces(" ") && !IsSpace(front[|front| - 1]) && !IsSpace(front[0]);
    hide *;
    TrimFirst(" ", front + tail);
    rest := TrimEndKeepsFront(front, tail);
  }

  lemma LaravelActive(key: string, tail: string)
    requires ValidKey(key)
    ensures Assigns(Trim(" " + (key + "=" + tail)), key)
  {
    hide *;
    var rest := TrimActive(key, tail);
    ReadAssigns(key, rest);
  }

  lemma HashLine(line: string)
    requires "#" <= line
    ensures ReadLine(line) == None
  {
    assert !IsSpace('#');
    TrimFirst("", line);
    assert "" + line == line;
  }

  lemma ActiveForm(key: string, trimmed: string) returns (b: string, tail: string)
    requires key <= trimmed && "=" <= TrimStart(trimmed[|key|..])
    ensures AllSpaces(b) && trimmed == key + (b + ("=" + tail))
  {
    var x := trimmed[|key|..];
    b := TrimStartOf(x);
    tail := TrimStart(x)[1..];
    hide *;
    assert TrimStart(x) == "=" + tail;
    assert trimmed == key + x;
  }

  lemma MatchedActiveLine(key: string, line: string)
    requires ValidKey(key) && key <= Trim(line) && "=" <= TrimStart(Trim(line)[|key|..])
    ensures Assigns(line, key)
  {
    assert forall x :: ReadLine(line) == Some(Entry(key, x)) ==> Assigns(line, key);
    hide *;
    var a, c := TrimForm(line);
    var b, tail := ActiveForm(key, Trim(line));
    Regroup(a, key, b, tail, c);
    ReadAssignment(a, key, b, tail + c);
  }

  lemma Regroup(a: string, key: string, b: string, tail: string, c: string)
    ensures a + (key + (b + ("=" + tail)) + c) == a + key + b + "=" + (tail + c)
  {
  }

  lemma ReadNewLine(style: Style, key: string, value: string)
    requires ValidKey(key)
    ensures ReadLine(NewLine(style, key, value)) == Some(Entry(key, Value(Written(style, value))))
  {
    match style
    case Laravel =>
      assert NewLine(style, key, value) == "" + key + "" + "=" + Written(style, value);
      ReadAssignment("", key, "", Written(style, value));
    case CodeIgniter =>
      assert NewLine(style, key, value) == "" + key + " " + "=" + (" " + value);
      ReadAssignment("", key, " ", " " + value);
      TrimStartSpaces(" ", value);
  }

  lemma {:induction false} ValuesOfAppend(a: seq<string>, b: seq<string>, key: string)
    ensures ValuesOf(a + b, key) == ValuesOf(a, key) + ValuesOf(b, key)
  {
    hide ReadFor;
    if a == [] {
      assert a + b == b;
    } else {
      assert (a + b)[1..] == a[1..] + b;
      ValuesOfAppend(a[1..], b, key);
    }
  }

  /** An edited line says about other keys what it said before. */
  lemma {:induction false} EditedLineForOthers(style: Style, key: string, value: string, l: string, other: string)
    requires ValidKey(key) && other != key && Matches(style, key, l)
    ensures ReadFor(NewLine(style, key, value), other) == ReadFor(l, other) == None
  {
    ReadNewLine(style, key, value);
    MatchedLine(style, key, l);
    hide ReadLine, NewLine, Matches, ValidKey, Value, Written;
  }

  /** A line that is read for the key although the editor does not take it for the key's. */
  predicate Stray(style: Style, key: string, line: string) {
    Assigns(line, key) && !Matches(style, key, line)
  }

  /** Only Laravel's editor overlooks lines, those that are not written `KEY=` from their first column. */
  lemma StrayForm(style: Style, key: string, line: string)
    requires ValidKey(key)
    ensures Stray(style, key, line) <==> style.Laravel? && Assigns(line, key) && !(key + "=" <= line)
  {
    if Assigns(line, key) {
      var a, b, rest := AssignmentForm(line, key);
      MatchesAssignment(a, key, b, rest);
      if "#" <= line {
        HashLine(line);
      }
    }
  }

  /** Every line overlooked by the editor reads `v` anyway. */
  predicate StraysRead(style: Style, key: string, ls: seq<string>, v: string) {
    forall l <- ls :: Stray(style, key, l) ==> ReadFor(l, key) == Some(v)
  }

  predicate AllEqual(values: seq<string>, v: string) {
    forall i | 0 <= i < |values| :: values[i] == v
  }

  lemma AllEqualAppend(a: seq<string>, b: seq<string>, v: string)
    ensures AllEqual(a + b, v) <==> AllEqual(a, v) && AllEqual(b, v)
  {
    if AllEqual(a + b, v) {
      assert forall i | 0 <= i < |a| :: a[i] == (a + b)[i];
      assert forall i | 0 <= i < |b| :: b[i] == (a + b)[|a| + i];
    }
  }

  lemma AllEqualOne(read: Option<string>, v: string)
    ensures AllEqual(match read { case None => [] case Some(x) => [x] }, v) <==> (read.Some? ==> read.value == v)
  {
    if read.Some? {
      assert AllEqual([read.value], v) <==> [read.value][0] == v;
    }
  }

  lemma OneValue(line: string, key: string)
    ensures ValuesOf([line], key) == match ReadFor(line, key) { case None => [] case Some(v) => [v] }
  {
    assert [line][1..] == [];
  }

  /** Every value given to the key is `v`. */
  predicate Reads(ls: seq<string>, key: string, v: string) {
    AllEqual(ValuesOf(ls, key), v)
  }

  lemma {:induction false} ReadsAppend(a: seq<string>, b: seq<string>, key: string, v: string)
    ensures Reads(a + b, key, v) <==> Reads(a, key, v) && Reads(b, key, v)
  {
    hide ValuesOf, AllEqual;
    ValuesOfAppend(a, b, key);
    AllEqualAppend(ValuesOf(a, key), ValuesOf(b, key), v);
  }

  lemma {:induction false} ReadsOne(line: string, key: string, v: string)
    ensures Reads([line], key, v) <==> (ReadFor(line, key).Some? ==> ReadFor(line, key).value == v)
  {
    OneValue(line, key);
    AllEqualOne(ReadFor(line, key), v);
    hide ValuesOf, AllEqual, ReadFor;
  }

  lemma {:induction false} StraysAppend(style: Style, key: string, a: seq<string>, b: seq<string>, v: string)
    ensures StraysRead(style, key, a + b, v) <==> StraysRead(style, key, a, v) && StraysRead(style, key, b, v)
  {
    hide Stray, ReadFor;
    assert forall l :: l in a + b <==> l in a || l in b;
  }

  lemma {:induction false} StraysOne(style: Style, key: string, line: string, v: string)
    ensures StraysRead(style, key, [line], v) <==>
              (ReadFor(line, key).Some? && !Matches(style, key, line) ==> ReadFor(line, key).value == v)
  {
    hide ReadFor, Matches;
    assert forall l :: l in [line] <==> l == line;
  }

  lemma BlankSaysNothing(style: Style, key: string)
    ensures ReadFor("", key) == None && !Stray(style, key, "")
  {
    assert ReadLine("") == None;
  }

  lemma BlankLast(ls: seq<string>)
    ensures ls == DropLastBlank(ls) || ls == DropLastBlank(ls) + [""]
  {
  }

  /** A blank line at the end says nothing. */
  lemma {:induction false} WithoutBlank(style: Style, key: string, ls: seq<string>, v: string)
    ensures ValuesOf(DropLastBlank(ls), key) == ValuesOf(ls, key)
    ensures StraysRead(style, key, DropLastBlank(ls), v) <==> StraysRead(style, key, ls, v)
  {
    BlankSaysNothing(style, key);
    var short := DropLastBlank(ls);
    BlankLast(ls);
    hide DropLastBlank, ValuesOf, ReadFor, Stray, StraysRead, Matches;
    if ls != short {
      ValuesOfAppend(short, [""], key);
      OneValue("", key);
      assert ValuesOf(short, key) + [] == ValuesOf(short, key);
      StraysAppend(style, key, short, [""], v);
      StraysOne(style, key, "", v);
    }
  }

  // ---- What an edit says about the other keys --------------------------------------------------------

  lemma {:induction false} SaysNothing(style: Style, key: string, line: string, other: string, v: string)
    requires ValidKey(key) && other != key && Matches(style, key, line)
    ensures ValuesOf([line], other) == [] && Reads([line], other, v) && StraysRead(style, other, [line], v)
  {
    EditedLineForOthers(style, key, "", line, other);
    hide *;
    OneValue(line, other);
    ReadsOne(line, other, v);
    StraysOne(style, other, line, v);
  }

  lemma SplicedNone(style: Style, key: string, value: string)
    ensures Spliced(style, key, value, []) == [] && !HasMatch(style, key, [])
  {
  }

  /** What a spliced file says about another key: what the file and the new lines say. */
  lemma {:induction false} SplicedForOthers(style: Style, key: string, value: string, ls: seq<string>, other: string,
                                            v: string)
    requires ValidKey(key) && other != key
    ensures Reads(Spliced(style, key, value, ls), other, v) <==>
              Reads(ls, other, v) && (HasMatch(style, key, ls) ==> Reads(Pieces(style, key, value), other, v))
  {
    hide *;
    if ls == [] {
      SplicedNone(style, key, value);
      NothingSaid(style, other, v);
    } else {
      var rest, pieces := Spliced(style, key, value, ls[1..]), Pieces(style, key, value);
      SplicedForOthers(style, key, value, ls[1..], other, v);
      SplicedStep(style, key, value, ls);
      assert ls == [ls[0]] + ls[1..];
      ReadsAppend([ls[0]], ls[1..], other, v);
      if Matches(style, key, ls[0]) {
        SaysNothing(style, key, ls[0], other, v);
        ReadsAppend(pieces, rest, other, v);
      } else {
        ReadsAppend([ls[0]], rest, other, v);
      }
    }
  }

  lemma {:induction false} SplicedStrays(style: Style, key: string, value: string, ls: seq<string>, other: string,
                                         v: string)
    requires ValidKey(key) && other != key
    ensures StraysRead(style, other, Spliced(style, key, value, ls), v) <==>
              && StraysRead(style, other, ls, v)
              && (HasMatch(style, key, ls) ==> StraysRead(style, other, Pieces(style, key, value), v))
  {
    hide *;
    if ls == [] {
      SplicedNone(style, key, value);
      NothingSaid(style, other, v);
    } else {
      var rest, pieces := Spliced(style, key, value, ls[1..]), Pieces(style, key, value);
      SplicedStrays(style, key, value, ls[1..], other, v);
      SplicedStep(style, key, value, ls);
      assert ls == [ls[0]] + ls[1..];
      StraysAppend(style, other, [ls[0]], ls[1..], v);
      if Matches(style, key, ls[0]) {
        SaysNothing(style, key, ls[0], other, v);
        StraysAppend(style, other, pieces, rest, v);
      } else {
        StraysAppend(style, other, [ls[0]], rest, v);
      }
    }
  }

  lemma {:induction false} NothingSaid(style: Style, key: string, v: string)
    ensures Reads([], key, v) && StraysRead(style, key, [], v)
  {
  }

  lemma {:induction false} SetForOthers(style: Style, key: string, value: string, ls: seq<string>, other: string,
                                        v: string)
    requires ValidKey(key) && other != key
    ensures var out, pieces := SetPieces(style, key, value, ls), Pieces(style, key, value);
            && (Reads(out, other, v) <==> Reads(ls, other, v) && Reads(pieces, other, v))
            && (StraysRead(style, other, out, v)
                <==> StraysRead(style, other, ls, v) && StraysRead(style, other, pieces, v))
  {
    hide *;
    var out, pieces := Spliced(style, key, value, ls), Pieces(style, key, value);
    var more := if HasMatch(style, key, ls) then [] else pieces;
    SplicedForOthers(style, key, value, ls, other, v);
    SplicedStrays(style, key, value, ls, other, v);
    SetPiecesIs(style, key, value, ls);
    ReadsAppend(out, more, other, v);
    StraysAppend(style, other, out, more, v);
    NothingSaid(style, other, v);
  }

  lemma {:induction false} SplicedCounts(style: Style, key: string, value: string, ls: seq<string>, other: string)
    requires ValidKey(key) && other != key
    ensures var values, added := ValuesOf(Spliced(style, key, value, ls), other),
            ValuesOf(Pieces(style, key, value), other);
            && (added == [] ==> values == ValuesOf(ls, other))
            && |values| >= |ValuesOf(ls, other)| + if HasMatch(style, key, ls) then |added| else 0
  {
    hide *;
    if ls == [] {
      SplicedNone(style, key, value);
      NoValues(other);
    } else {
      var rest, pieces := Spliced(style, key, value, ls[1..]), Pieces(style, key, value);
      SplicedCounts(style, key, value, ls[1..], other);
      SplicedStep(style, key, value, ls);
      assert ls == [ls[0]] + ls[1..];
      ValuesOfAppend([ls[0]], ls[1..], other);
      if Matches(style, key, ls[0]) {
        SaysNothing(style, key, ls[0], other, "");
        ValuesOfAppend(pieces, rest, other);
      } else {
        ValuesOfAppend([ls[0]], rest, other);
      }
    }
  }

  /**
   Setting one key leaves the values of another as they were if and only if no line of the new assignment gives that
   one a value; no line does if the new value is on one line.
   */
  lemma {:induction false} OtherKeysKeptExactly(style: Style, key: string, value: string, ls: seq<string>,
                                                other: string)
    requires ValidKey(key) && other != key && '\r' !in value
    ensures (ValuesOf(SetPieces(style, key, value, ls), other) == ValuesOf(ls, other))
              <==> ValuesOf(Pieces(style, key, value), other) == []
    ensures '\n' !in value ==> ValuesOf(Pieces(style, key, value), other) == []
  {
    assert '\n' !in value ==> Clean(value);
    hide *;
    var out, pieces := Spliced(style, key, value, ls), Pieces(style, key, value);
    var more := if HasMatch(style, key, ls) then [] else pieces;
    SplicedCounts(style, key, value, ls, other);
    SetPiecesIs(style, key, value, ls);
    ValuesOfAppend(out, more, other);
    NoValues(other);
    if '\n' !in value {
      OnePiece(style, key, value);
      OneValue(NewLine(style, key, value), other);
      NewLineMatches(style, key, value);
      SaysNothing(style, key, NewLine(style, key, value), other, "");
    }
  }

  lemma NoValues(key: string)
    ensures ValuesOf([], key) == []
  {
  }

  lemma OnePiece(style: Style, key: string, value: string)
    requires ValidKey(key) && Clean(value)
    ensures Pieces(style, key, value) == [NewLine(style, key, value)]
  {
    hide *;
    NewLineClean(style, key, value);
    PiecesAre(style, key, value);
    OneLineWith(NewLine(style, key, value));
  }

  // ---- What an edit says about its own key ---------------------------------------------------------------

  lemma {:induction false} OwnLine(style: Style, key: string, line: string, v: string)
    ensures Matches(style, key, line) ==> StraysRead(style, key, [line], v)
    ensures !Matches(style, key, line) ==> (Reads([line], key, v) <==> StraysRead(style, key, [line], v))
  {
    hide *;
    ReadsOne(line, key, v);
    StraysOne(style, key, line, v);
  }

  lemma {:induction false} SplicedForItself(style: Style, key: string, value: string, ls: seq<string>, v: string)
    ensures Reads(Spliced(style, key, value, ls), key, v) <==>
              StraysRead(style, key, ls, v) && (HasMatch(style, key, ls) ==> Reads(Pieces(style, key, value), key, v))
  {
    hide *;
    if ls == [] {
      SplicedNone(style, key, value);
      NothingSaid(style, key, v);
    } else {
      var rest, pieces := Spliced(style, key, value, ls[1..]), Pieces(style, key, value);
      SplicedForItself(style, key, value, ls[1..], v);
      SplicedStep(style, key, value, ls);
      assert ls == [ls[0]] + ls[1..];
      StraysAppend(style, key, [ls[0]], ls[1..], v);
      OwnLine(style, key, ls[0], v);
      if Matches(style, key, ls[0]) {
        ReadsAppend(pieces, rest, key, v);
      } else {
        ReadsAppend([ls[0]], rest, key, v);
      }
    }
  }

  /** The text up to the first line feed. */
  function Head(s: string): (h: string)
    ensures h <= s && '\n' !in h && (h == s <==> '\n' !in s)
  {
    if s == "" || s[0] == '\n' then "" else [s[0]] + Head(s[1..])
  }

  lemma {:induction false} HeadAppend(a: string, s: string)
    requires '\n' !in a
    ensures Head(a + s) == a + Head(s)
  {
    if a == "" {
      assert a + s == s;
    } else {
      assert (a + s)[1..] == a[1..] + s;
      HeadAppend(a[1..], s);
    }
  }

  lemma {:induction false} AfterHead(s: string) returns (rest: string)
    ensures s + "\n" == Head(s) + "\n" + rest
  {
    if s == "" || s[0] == '\n' {
      rest := if s == "" then "" else s[1..] + "\n";
    } else {
      rest := AfterHead(s[1..]);
      assert s + "\n" == [s[0]] + (s[1..] + "\n");
    }
  }

  lemma HeadLine(s: string)
    requires '\r' !in s
    ensures Lines(s + "\n") != [] && Lines(s + "\n")[0] == Head(s)
  {
    var rest := AfterHead(s);
    assert StripCr(Head(s)) == Head(s) by {
      assert forall c <- Head(s) :: c in s;
    }
    hide StripCr, Head, Lines;
    LinesCons(Head(s), rest);
  }

  /** A new assignment up to its value. */
  function UpToValue(style: Style, key: string): string {
    if style.Laravel? then key + "=" else key + " " + "=" + " "
  }

  lemma NewLineForm(style: Style, key: string, value: string)
    requires ValidKey(key)
    ensures '\n' !in UpToValue(style, key) &&
            NewLine(style, key, value) == UpToValue(style, key) + Written(style, value)
  {
    assert key + " = " == key + " " + "=" + " ";
  }

  lemma UpToValueReads(style: Style, key: string, text: string)
    requires ValidKey(key)
    ensures ReadFor(UpToValue(style, key) + text, key) == Some(Value(text))
  {
    match style
    case Laravel =>
      assert key + "=" + text == "" + key + "" + "=" + text;
      ReadAssignment("", key, "", text);
      hide ReadLine, ValidKey;
    case CodeIgniter =>
      assert key + " " + "=" + " " + text == "" + key + " " + "=" + (" " + text);
      ReadAssignment("", key, " ", " " + text);
      TrimStartSpaces(" ", text);
      hide ReadLine, ValidKey;
  }

  /** The first line of a new assignment gives its key what the first line of the written value reads as. */
  lemma FirstPiece(style: Style, key: string, value: string)
    requires ValidKey(key) && '\r' !in value
    ensures var pieces := Pieces(style, key, value);
            pieces != [] && ReadFor(pieces[0], key) == Some(Value(Head(Written(style, value))))
  {
    hide *;
    NewLineReturns(style, key, value);
    PiecesAre(style, key, value);
    HeadLine(NewLine(style, key, value));
    NewLineForm(style, key, value);
    HeadAppend(UpToValue(style, key), Written(style, value));
    UpToValueReads(style, key, Head(Written(style, value)));
  }

  lemma {:induction false} TrimEndWithin(s: string, c: char)
    ensures TrimEndMatches(s, c) <= s
  {
    if s == [] || s[|s| - 1] != c {
    } else {
      TrimEndWithin(s[..|s| - 1], c);
    }
  }

  lemma {:induction false} TrimMatchesWithin(s: string, c: char, x: char)
    requires x !in s
    ensures x !in TrimMatches(s, c)
  {
    if s != [] && s[0] == c {
      TrimMatchesWithin(s[1..], c, x);
    } else {
      TrimEndWithin(s, c);
    }
  }

  lemma ValueWithin(s: string, x: char)
    requires x !in s
    ensures x !in Value(s)
  {
    hide TrimMatches, Trim;
    TrimWithin(s, x);
    TrimMatchesWithin(Trim(s), '"', x);
    TrimMatchesWithin(TrimMatches(Trim(s), '"'), '\'', x);
  }

  lemma {:induction false} FirstIsRead(ls: seq<string>, key: string)
    requires ls != [] && ReadFor(ls[0], key).Some?
    ensures ReadFor(ls[0], key).value in ValuesOf(ls, key)
  {
  }

  lemma {:induction false} MemberReads(ls: seq<string>, key: string, x: string, v: string)
    requires x in ValuesOf(ls, key) && Reads(ls, key, v)
    ensures x == v
  {
  }

  lemma WrittenBreaks(style: Style, value: string)
    ensures '\n' in value <==> '\n' in Written(style, value)
  {
  }

  /**
   What a new assignment says of its own key. On one line it gives what the written value reads as; on several it never
   gives the value that was set, and it always gives what the first line of the written value reads as.
   */
  lemma {:induction false} OwnPieces(style: Style, key: string, value: string)
    requires ValidKey(key) && '\r' !in value
    ensures var pieces := Pieces(style, key, value);
            && Value(Head(Written(style, value))) in ValuesOf(pieces, key)
            && ('\n' !in value ==> forall v :: Reads(pieces, key, v) <==> v == Value(Written(style, value)))
            && ('\n' in value ==> !Reads(pieces, key, value))
  {
    assert '\n' !in value ==> Clean(value);
    hide *;
    var pieces, written := Pieces(style, key, value), Written(style, value);
    WrittenBreaks(style, value);
    FirstPiece(style, key, value);
    FirstIsRead(pieces, key);
    if '\n' !in value {
      OnePiece(style, key, value);
      forall v
        ensures Reads(pieces, key, v) <==> v == Value(written)
      {
        ReadsOne(NewLine(style, key, value), key, v);
      }
    } else {
      ValueWithin(Head(written), '\n');
      if Reads(pieces, key, value) {
        MemberReads(pieces, key, Value(Head(written)), value);
      }
    }
  }

  /** After setting a key every value read for it is `v` if and only if the stray lines and the new ones read so. */
  lemma {:induction false} OwnKeyReads(style: Style, key: string, value: string, ls: seq<string>, v: string)
    requires ValidKey(key) && '\r' !in value
    ensures var values := ValuesOf(SetPieces(style, key, value, ls), key);
            && (AllEqual(values, v) <==> StraysRead(style, key, ls, v) && Reads(Pieces(style, key, value), key, v))
            && Value(Head(Written(style, value))) in values
  {
    hide *;
    var out, pieces := Spliced(style, key, value, ls), Pieces(style, key, value);
    var more := if HasMatch(style, key, ls) then [] else pieces;
    SplicedForItself(style, key, value, ls, v);
    SetPiecesIs(style, key, value, ls);
    ReadsAppend(out, more, key, v);
    NothingSaid(style, key, v);
    OwnPieces(style, key, value);
    ValuesOfAppend(out, more, key);
    ReadsIs(SetPieces(style, key, value, ls), key, v);
    if HasMatch(style, key, ls) {
      SplicedHolds(style, key, value, ls, key, Value(Head(Written(style, value))));
    }
  }

  lemma {:induction false} ReadsIs(ls: seq<string>, key: string, v: string)
    ensures Reads(ls, key, v) <==> AllEqual(ValuesOf(ls, key), v)
  {
  }

  /** A value that the new lines give is among those of the file. */
  lemma {:induction false} SplicedHolds(style: Style, key: string, value: string, ls: seq<string>, other: string,
                                        x: string)
    requires HasMatch(style, key, ls) && x in ValuesOf(Pieces(style, key, value), other)
    ensures x in ValuesOf(Spliced(style, key, value, ls), other)
  {
    hide *;
    if ls == [] {
      SplicedNone(style, key, value);
    } else {
      var rest, pieces := Spliced(style, key, value, ls[1..]), Pieces(style, key, value);
      SplicedStep(style, key, value, ls);
      if Matches(style, key, ls[0]) {
        ValuesOfAppend(pieces, rest, other);
      } else {
        SplicedHolds(style, key, value, ls[1..], other, x);
        ValuesOfAppend([ls[0]], rest, other);
      }
    }
  }

  /** A value of another key is still among those of the file. */
  lemma {:induction false} OthersStay(style: Style, key: string, value: string, ls: seq<string>, other: string,
                                      x: string)
    requires ValidKey(key) && other != key && x in ValuesOf(ls, other)
    ensures x in ValuesOf(SetPieces(style, key, value, ls), other)
  {
    hide *;
    var more := if HasMatch(style, key, ls) then [] else Pieces(style, key, value);
    SplicedStays(style, key, value, ls, other, x);
    SetPiecesIs(style, key, value, ls);
    ValuesOfAppend(Spliced(style, key, value, ls), more, other);
  }

  lemma {:induction false} SplicedStays(style: Style, key: string, value: string, ls: seq<string>, other: string,
                                        x: string)
    requires ValidKey(key) && other != key && x in ValuesOf(ls, other)
    ensures x in ValuesOf(Spliced(style, key, value, ls), other)
  {
    hide *;
    if ls == [] {
      NoValues(other);
    } else {
      var rest, pieces := Spliced(style, key, value, ls[1..]), Pieces(style, key, value);
      SplicedStep(style, key, value, ls);
      assert ls == [ls[0]] + ls[1..];
      ValuesOfAppend([ls[0]], ls[1..], other);
      if Matches(style, key, ls[0]) {
        SaysNothing(style, key, ls[0], other, x);
        SplicedStays(style, key, value, ls[1..], other, x);
        ValuesOfAppend(pieces, rest, other);
      } else {
        ValuesOfAppend([ls[0]], rest, other);
        if x !in ValuesOf([ls[0]], other) {
          SplicedStays(style, key, value, ls[1..], other, x);
        }
      }
    }
  }

  // ---- The two editors, written out ---------------------------------------------------------------------

  /** The assignment that an editor writes: Laravel's is quoted if the value has a space, CodeIgniter's never is. */
  lemma AssignmentWritten(key: string, value: string)
    ensures NewLine(Laravel, key, value) ==
              if exists i | 0 <= i < |value| :: value[i] as int == 32 then key + "=\"" + value + "\""
              else key + "=" + value
    ensures NewLine(CodeIgniter, key, value) == key + " = " + value
  {
    assert key + "=" + ("\"" + value + "\"") == key + "=\"" + value + "\"";
  }

  /** The lines that Laravel's editor replaces: `KEY=` or `# KEY=` from the first column, and no others. */
  lemma LaravelReplaces(key: string, line: string)
    ensures Matches(Laravel, key, line) <==>
              || (exists rest :: line == key + "=" + rest)
              || (exists rest :: line == "# " + key + "=" + rest)
  {
    if key + "=" <= line {
      assert line == key + "=" + line[|key| + 1..];
    }
    if "# " + key + "=" <= line {
      assert line == "# " + key + "=" + line[|key| + 3..];
    }
  }

  lemma {:induction false} TrimmedComment(pad: string, hash: string, key: string, gap: string, rest: string)
    requires AllSpaces(pad) && AllSpaces(gap) && ValidKey(key) && (hash == "#" || hash == "# ")
    ensures exists tail :: Trim(pad + (hash + key + gap + "=" + rest)) == hash + key + gap + "=" + tail
  {
    var front := hash + key + gap + "=";
    assert front[0] == '#' && !IsSpace('#') && !IsSpace(front[|front| - 1]);
    hide *;
    TrimFirst(pad, front + rest);
    var tail := TrimEndKeepsFront(front, rest);
    assert front + tail == hash + key + gap + "=" + tail;
  }

  lemma StripComment(hash: string, key: string, gap: string, tail: string)
    requires ValidKey(key) && (hash == "#" || hash == "# ")
    ensures TrimStartMatches(hash + key + gap + "=" + tail, '#') == hash[1..] + key + gap + "=" + tail
  {
    var s := hash[1..] + key + gap + "=" + tail;
    assert hash + key + gap + "=" + tail == "#" + s;
    assert s[0] != '#' by {
      assert hash == "#" ==> s[0] == key[0];
    }
    hide *;
    StripHash(s);
  }

  /** A commented assignment in either of CodeIgniter's forms, with whatever whitespace, is replaced. */
  lemma {:induction false} CodeIgniterReplaces(pad: string, hash: string, key: string, gap: string, rest: string)
    requires AllSpaces(pad) && AllSpaces(gap) && ValidKey(key) && (hash == "#" || hash == "# ")
    ensures Matches(CodeIgniter, key, pad + (hash + key + gap + "=" + rest))
    ensures Matches(CodeIgniter, key, pad + key + gap + "=" + rest)
  {
    var line, blank := pad + (hash + key + gap + "=" + rest), hash[1..];
    assert AllSpaces(blank);
    hide *;
    TrimmedComment(pad, hash, key, gap, rest);
    var tail :| Trim(line) == hash + key + gap + "=" + tail;
    StripComment(hash, key, gap, tail);
    AfterHash(blank, key, gap, tail);
    MatchesAssignment(pad, key, gap, rest);
    CommentMatches(line, hash, key, gap, tail);
  }

  lemma {:induction false} AfterHash(blank: string, key: string, gap: string, tail: string)
    requires AllSpaces(blank) && AllSpaces(gap) && ValidKey(key)
    ensures var after := Trim(blank + key + gap + "=" + tail); key <= after && "=" <= TrimStart(after[|key|..])
  {
    hide *;
    var end := TrimAssignment(blank, key, gap, tail);
    AfterKey(key, gap, end);
  }

  lemma HashFirst(hash: string, key: string, more: string)
    requires hash == "#" || hash == "# "
    ensures "#" <= hash + more && (key <= more ==> "# " + key <= hash + more || "#" + key <= hash + more)
  {
    if key <= more {
      assert (hash + more)[..|hash + key|] == hash + key;
    }
  }

  lemma CommentMatches(line: string, hash: string, key: string, gap: string, tail: string)
    requires Trim(line) == hash + key + gap + "=" + tail && (hash == "#" || hash == "# ")
    requires var after := Trim(TrimStartMatches(Trim(line), '#')); key <= after && "=" <= TrimStart(after[|key|..])
    ensures Matches(CodeIgniter, key, line)
  {
    var trimmed, more := Trim(line), key + gap + "=" + tail;
    assert trimmed == hash + more;
    assert key <= more;
    HashFirst(hash, key, more);
    hide Trim, TrimStart, TrimStartMatches;
  }

  /** An assignment to another key that the key is a prefix of is left alone by both editors. */
  lemma {:induction false} LongerKeyStays(style: Style, key: string, more: string, rest: string)
    requires ValidKey(key) && ValidKey(key + more) && more != ""
    ensures !Matches(style, key, key + more + "=" + rest)
  {
    var line := key + more + "=" + rest;
    assert key + more != key;
    assert line == "" + (key + more) + "" + "=" + rest;
    ReadAssignment("", key + more, "", rest);
    assert Assigns(line, key + more) && ReadFor(line, key + more).Some?;
    hide *;
    OtherKeyNotMatched(style, key, key + more, line);
  }

  lemma {:induction false} OtherKeyNotMatched(style: Style, key: string, other: string, line: string)
    requires ValidKey(key) && other != key && ReadFor(line, other).Some?
    ensures !Matches(style, key, line)
  {
    if Matches(style, key, line) {
      EditedLineForOthers(style, key, "", line, other);
    }
  }

  /** The one matching line of a file gives way to the new assignment where it stands; without one that comes last. */
  lemma {:induction false} ReplacedInPlace(style: Style, a: seq<string>, l: string, b: seq<string>, key: string,
                                           value: string)
    requires ValidKey(key) && Clean(value) && AllClean(a + [l] + b) && Matches(style, key, l)
    requires forall i | 0 <= i < |a + b| :: !Matches(style, key, (a + b)[i])
    ensures SetKey(style, Unlines(a + [l] + b), key, value) == Unlines(a + [NewLine(style, key, value)] + b)
  {
    var ls, line := a + [l] + b, NewLine(style, key, value);
    assert ls[|a|] == l;
    assert HasMatch(style, key, ls);
    assert Unlines(ls) != "" && Unlines(ls)[|Unlines(ls)| - 1] == '\n';
    LinesOfUnlines(ls);
    OneReplaced(style, a, l, b, key, value);
    hide *;
    SetKeyIs(style, Unlines(ls), key, value);
    SetLinesIs(style, key, value, ls);
    assert SetEach(style, key, value, ls) + [] == SetEach(style, key, value, ls);
    JoinThenNewline(a + [line] + b);
  }

  lemma {:induction false} OneReplaced(style: Style, a: seq<string>, l: string, b: seq<string>, key: string,
                                       value: string)
    requires Matches(style, key, l) && forall i | 0 <= i < |a + b| :: !Matches(style, key, (a + b)[i])
    ensures SetEach(style, key, value, a + [l] + b) == a + [NewLine(style, key, value)] + b
  {
    hide Matches, NewLine;
    var ls, out := a + [l] + b, a + [NewLine(style, key, value)] + b;
    var each := SetEach(style, key, value, ls);
    forall i | 0 <= i < |ls|
      ensures each[i] == out[i]
    {
      if i < |a| {
        assert ls[i] == (a + b)[i];
      } else if i > |a| {
        assert ls[i] == (a + b)[i - 1];
      }
    }
  }

  lemma {:induction false} AppendedLast(style: Style, ls: seq<string>, key: string, value: string)
    requires ValidKey(key) && Clean(value) && AllClean(ls) && ls != []
    requires forall i | 0 <= i < |ls| :: !Matches(style, key, ls[i])
    ensures SetKey(style, Unlines(ls), key, value) == Unlines(ls + [NewLine(style, key, value)])
  {
    assert !HasMatch(style, key, ls);
    assert Unlines(ls) != "" && Unlines(ls)[|Unlines(ls)| - 1] == '\n';
    LinesOfUnlines(ls);
    hide Matches, NewLine;
    assert SetEach(style, key, value, ls) == ls;
    hide *;
    SetKeyIs(style, Unlines(ls), key, value);
    SetLinesIs(style, key, value, ls);
    JoinThenNewline(ls + [NewLine(style, key, value)]);
  }
}
