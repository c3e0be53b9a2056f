/**
 The filter between the browser and the shell of a site terminal: a line buffer follows
 what is typed, and a line is checked before the Enter that submits it is forwarded.
 */
module LineFilter {
  import opened Text

  const CTRL_C := '\U{0003}'
  const BACKSPACE := '\U{0008}'
  const CTRL_U := '\U{0015}'
  const DELETE := '\U{007F}'

  /** What the filter writes to the shell in place of a blocked chunk. */
  const CANCEL := [CTRL_U, CTRL_C]

  predicate IsEnter(c: char) {
    c == '\r' || c == '\n'
  }

  predicate IsKill(c: char) {
    c == CTRL_U || c == CTRL_C
  }

  /** One character other than Enter, as the filter applies it to its buffer. */
  function Edit(buffer: string, c: char): string {
    if c == DELETE || c == BACKSPACE then (if buffer == "" then "" else buffer[..|buffer| - 1])
    else if IsControl(c) then buffer
    else buffer + [c]
  }

  /** `safe` stands for `is_safe_terminal_command`, whose blocklists are not modelled. */
  predicate Refused(line: string, safe: string -> bool) {
    Trim(line) != "" && !safe(Trim(line))
  }

  /** The result of the loop over the characters of a chunk. */
  datatype Scan = Passed(buffer: string) | Blocked

  function ScanChunk(buffer: string, data: string, safe: string -> bool): Scan
    decreases |data|
  {
    if data == "" then Passed(buffer)
    else if IsEnter(data[0]) then if Refused(buffer, safe) then Blocked else ScanChunk("", data[1..], safe)
    else ScanChunk(Edit(buffer, data[0]), data[1..], safe)
  }

  // ---- The session ------------------------------------------------------------

  /** A message from the browser: a JSON input command, text that is not JSON, or anything else. */
  datatype Message = Input(data: string) | Raw(text: string) | Other

  /** The line buffer, and everything written to the shell so far. */
  datatype State = State(buffer: string, forwarded: string)

  const START := State("", "")

  /** A chunk is forwarded whole, or cancelled whole. */
  function Filtered(st: State, data: string, safe: string -> bool): State {
    match ScanChunk(st.buffer, data, safe)
    case Passed(buffer) => State(buffer, st.forwarded + data)
    case Blocked => State("", st.forwarded + CANCEL)
  }

  /** Only site terminals are filtered. */
  function Effective(site: bool, safe: string -> bool): (f: string -> bool)
    ensures site ==> f == safe
    ensures !site ==> forall line :: f(line)
  {
    if site then safe else _ => true
  }

  /** Handling a message on a site terminal or, without any filtering, on the server terminal. */
  function Handle(st: State, m: Message, site: bool, safe: string -> bool): State {
    match m
    case Input(data) => Filtered(st, data, Effective(site, safe))
    case Raw(text) => if site then Filtered(st, text, safe) else st.(forwarded := st.forwarded + text)
    case Other => st
  }

  function Run(st: State, ms: seq<Message>, site: bool, safe: string -> bool): State
    decreases |ms|
  {
    if ms == [] then st else Run(Handle(st, ms[0], site, safe), ms[1..], site, safe)
  }

  class Terminal {
    const site: bool
    var cmdBuffer: string
    var forwarded: string

    constructor (site: bool)
      ensures this.site == site && State(cmdBuffer, forwarded) == START
    {
      this.site, cmdBuffer, forwarded := site, "", "";
    }

    /** The branch for JSON input commands. */
    method HandleInput(data: string, safe: string -> bool)
      modifies this
      ensures State(cmdBuffer, forwarded) == Handle(old(State(cmdBuffer, forwarded)), Input(data), site, safe)
    {
      ghost var effective := Effective(site, safe);
      var blocked := false;
      var i := 0;
      while i < |data| && !blocked
        invariant i <= |data| && forwarded == if blocked then old(forwarded) + CANCEL else old(forwarded)
        invariant blocked ==> cmdBuffer == "" && ScanChunk(old(cmdBuffer), data, effective) == Blocked
        invariant !blocked ==> ScanChunk(old(cmdBuffer), data, effective) == ScanChunk(cmdBuffer, data[i..], effective)
        decreases |data| - i, !blocked
      {
        var ch := data[i];
        assert data[i..][1..] == data[i + 1..];
        if ch == '\r' || ch == '\n' {
          var trimmed := Trim(cmdBuffer);
          if trimmed != "" && site && !safe(trimmed) {
            forwarded := forwarded + CANCEL;
            blocked := true;
          }
          cmdBuffer := "";
        } else if ch == DELETE || ch == BACKSPACE {
          if cmdBuffer != "" {
            cmdBuffer := cmdBuffer[..|cmdBuffer| - 1];
          }
        } else if !IsControl(ch) {
          cmdBuffer := cmdBuffer + [ch];
        }
        i := i + 1;
      }
      if !blocked {
        assert data[i..] == "";
        forwarded := forwarded + data;
      }
    }

    /** The branch for text that is not JSON: the same filter, but no buffer on the server terminal. */
    method HandleRaw(text: string, safe: string -> bool)
      modifies this
      ensures State(cmdBuffer, forwarded) == Handle(old(State(cmdBuffer, forwarded)), Raw(text), site, safe)
    {
      var blocked := false;
      if site {
        var i := 0;
        while i < |text| && !blocked
          invariant i <= |text| && forwarded == if blocked then old(forwarded) + CANCEL else old(forwarded)
          invariant blocked ==> cmdBuffer == "" && ScanChunk(old(cmdBuffer), text, safe) == Blocked
          invariant !blocked ==> ScanChunk(old(cmdBuffer), text, safe) == ScanChunk(cmdBuffer, text[i..], safe)
          decreases |text| - i, !blocked
        {
          var ch := text[i];
          assert text[i..][1..] == text[i + 1..];
          if ch == '\r' || ch == '\n' {
            var trimmed := Trim(cmdBuffer);
            if trimmed != "" && !safe(trimmed) {
              forwarded := forwarded + CANCEL;
              blocked := true;
            }
            cmdBuffer := "";
          } else if ch == DELETE || ch == BACKSPACE {
            if cmdBuffer != "" {
              cmdBuffer := cmdBuffer[..|cmdBuffer| - 1];
            }
          } else if !IsControl(ch) {
            cmdBuffer := cmdBuffer + [ch];
          }
          i := i + 1;
        }
        assert !blocked ==> text[i..] == "";
      }
      if !blocked {
        forwarded := forwarded + text;
      }
    }
  }

  // ---- The line editor at the other end -----------------------------------------

  /** A terminal line: Enter submits it, erase characters shorten it, Ctrl+U and Ctrl+C discard it. */
  datatype Editor = Editor(pending: string, submitted: seq<string>)

  const IDLE := Editor("", [])

  function Type(ed: Editor, c: char): Editor {
    if IsEnter(c) then Editor("", ed.submitted + [ed.pending])
    else if IsKill(c) then ed.(pending := "")
    else ed.(pending := Edit(ed.pending, c))
  }

  function TypeAll(ed: Editor, s: string): Editor
    decreases |s|
  {
    if s == "" then ed else TypeAll(Type(ed, s[0]), s[1..])
  }

  lemma {:induction false} TypeAllAppend(ed: Editor, a: string, b: string)
    ensures TypeAll(ed, a + b) == TypeAll(TypeAll(ed, a), b)
    decreases |a|
  {
    if a == "" {
      assert a + b == b;
    } else {
      assert (a + b)[1..] == a[1..] + b;
      TypeAllAppend(Type(ed, a[0]), a[1..], b);
    }
  }

  // ---- The keys, by their codes -----------------------------------------------------------

  /** A character that is no control character: its code is neither below 32 nor from 127 to 159. */
  predicate Printable(c: char) {
    32 <= c as int < 127 || 160 <= c as int
  }

  lemma {:induction false} ScanAppend(buffer: string, a: string, b: string, safe: string -> bool)
    ensures ScanChunk(buffer, a + b, safe) ==
              match ScanChunk(buffer, a, safe) { case Passed(next) => ScanChunk(next, b, safe) case Blocked => Blocked }
    decreases |a|
  {
    if a == "" {
      assert a + b == b;
    } else {
      assert (a + b)[1..] == a[1..] + b;
      if IsEnter(a[0]) {
        ScanAppend("", a[1..], b, safe);
      } else {
        ScanAppend(Edit(buffer, a[0]), a[1..], b, safe);
      }
    }
  }

  /**
   What one key does to the filter's buffer, for every character: carriage return and line feed submit the buffer and
   are blocked with it; backspace and delete take the last character off; other control characters do nothing; all
   others are added.
   */
  lemma {:induction false} OneKeyScanned(buffer: string, c: char, safe: string -> bool)
    ensures ScanChunk(buffer, [c], safe) ==
              if c as int in {10, 13} then
                if Trim(buffer) != "" && !safe(Trim(buffer)) then Blocked else Passed("")
              else if c as int in {8, 127} then Passed(if buffer == "" then "" else buffer[..|buffer| - 1])
              else if Printable(c) then Passed(buffer + [c])
              else Passed(buffer)
  {
    assert [c][1..] == "";
  }

  /** Typed text is added to the buffer as it is. */
  lemma {:induction false} TextScanned(buffer: string, text: string, safe: string -> bool)
    requires forall i | 0 <= i < |text| :: Printable(text[i])
    ensures ScanChunk(buffer, text, safe) == Passed(buffer + text)
    decreases |text|
  {
    if text == "" {
      assert buffer + text == buffer;
    } else {
      OneKeyScanned(buffer, text[0], safe);
      hide ScanChunk, Printable;
      ScanAppend(buffer, [text[0]], text[1..], safe);
      TextScanned(buffer + [text[0]], text[1..], safe);
      assert [text[0]] + text[1..] == text && buffer + [text[0]] + text[1..] == buffer + text;
    }
  }

  /** A character and an erase key leave the buffer as it was; on an empty buffer an erase key does nothing. */
  lemma {:induction false} EraseUndoes(buffer: string, c: char, erase: char, safe: string -> bool)
    requires Printable(c) && erase as int in {8, 127}
    ensures ScanChunk(buffer, [c, erase], safe) == Passed(buffer) && ScanChunk("", [erase], safe) == Passed("")
  {
    var longer := buffer + [c];
    assert longer != "" && longer[..|longer| - 1] == buffer;
    OneKeyScanned(buffer, c, safe);
    OneKeyScanned(longer, erase, safe);
    OneKeyScanned("", erase, safe);
    hide ScanChunk, Printable;
    ScanAppend(buffer, [c], [erase], safe);
    assert [c] + [erase] == [c, erase];
  }

  /** What one key does to the shell's line; unlike the filter, the shell discards it at Ctrl+C and Ctrl+U. */
  lemma {:induction false} OneKeyTyped(ed: Editor, c: char)
    ensures TypeAll(ed, [c]) ==
              if c as int in {10, 13} then Editor("", ed.submitted + [ed.pending])
              else if c as int in {3, 21} then Editor("", ed.submitted)
              else if c as int in {8, 127} then
                Editor(if ed.pending == "" then "" else ed.pending[..|ed.pending| - 1], ed.submitted)
              else if Printable(c) then Editor(ed.pending + [c], ed.submitted)
              else ed
  {
    assert [c][1..] == "";
  }

  lemma {:induction false} TextTyped(ed: Editor, text: string)
    requires forall i | 0 <= i < |text| :: Printable(text[i])
    ensures TypeAll(ed, text) == Editor(ed.pending + text, ed.submitted)
    decreases |text|
  {
    if text == "" {
      assert ed.pending + text == ed.pending;
    } else {
      var next := Editor(ed.pending + [text[0]], ed.submitted);
      OneKeyTyped(ed, text[0]);
      hide TypeAll, Printable;
      TypeAllAppend(ed, [text[0]], text[1..]);
      TextTyped(next, text[1..]);
      assert [text[0]] + text[1..] == text && ed.pending + [text[0]] + text[1..] == ed.pending + text;
    }
  }

  lemma {:induction false} EraseUndoesTyping(ed: Editor, c: char, erase: char)
    requires Printable(c) && erase as int in {8, 127}
    ensures TypeAll(ed, [c, erase]) == ed && TypeAll(Editor("", ed.submitted), [erase]) == Editor("", ed.submitted)
  {
    var longer := ed.pending + [c];
    assert longer != "" && longer[..|longer| - 1] == ed.pending;
    OneKeyTyped(ed, c);
    OneKeyTyped(Editor(longer, ed.submitted), erase);
    OneKeyTyped(Editor("", ed.submitted), erase);
    hide TypeAll, Printable;
    TypeAllAppend(ed, [c], [erase]);
    assert [c] + [erase] == [c, erase];
  }

  /**
   A site terminal, chunk by chunk: if a key of the chunk submits a refused line, the shell gets the codes 21 and 3 in
   place of the chunk, and the buffer is emptied; else it gets the chunk.
   */
  lemma {:induction false} ChunkHandled(st: State, data: string, safe: string -> bool)
    ensures forall m | m in {Input(data), Raw(data)} ::
              Run(st, [m], true, safe) ==
                match ScanChunk(st.buffer, data, safe)
                case Blocked => State("", st.forwarded + [21 as char, 3 as char])
                case Passed(buffer) => State(buffer, st.forwarded + data)
  {
    assert [21 as char, 3 as char] == CANCEL;
    forall m | m in {Input(data), Raw(data)}
      ensures Run(st, [m], true, safe) == Filtered(st, data, safe)
    {
      assert [m][1..] == [];
      assert Effective(true, safe) == safe;
      assert Run(st, [m], true, safe) == Handle(st, m, true, safe);
    }
    hide ScanChunk;
  }

  /** The text `a`, a character and delete, the text `b` and Enter: refused if `a + b` is. */
  lemma {:induction false} ErasedCommand(a: string, c: char, b: string, safe: string -> bool)
    requires forall i | 0 <= i < |a| :: Printable(a[i])
    requires forall i | 0 <= i < |b| :: Printable(b[i])
    requires Printable(c) && Trim(a + b) != "" && !safe(Trim(a + b))
    ensures Run(START, [Input(a + [c, 127 as char] + b + [13 as char])], true, safe) ==
            State("", [21 as char, 3 as char])
  {
    var keys := a + [c, 127 as char] + b + [13 as char];
    TextScanned("", a, safe);
    EraseUndoes(a, c, 127 as char, safe);
    TextScanned(a, b, safe);
    OneKeyScanned(a + b, 13 as char, safe);
    hide *;
    ScanAppend("", a + [c, 127 as char] + b, [13 as char], safe);
    ScanAppend("", a + [c, 127 as char], b, safe);
    ScanAppend("", a, [c, 127 as char], safe);
    assert "" + a == a && "" + [21 as char, 3 as char] == [21 as char, 3 as char];
    ChunkHandled(START, keys, safe);
    StartIs();
  }

  lemma StartIs()
    ensures START == State("", "")
  {
  }

  /** The filter ignores a typed Ctrl+U or Ctrl+C; this is harmless when its buffer is empty anyway. */
  predicate KillsOnEmpty(buffer: string, data: string)
    decreases |data|
  {
    data == "" ||
    if IsEnter(data[0]) then KillsOnEmpty("", data[1..])
    else (IsKill(data[0]) ==> buffer == "") && KillsOnEmpty(Edit(buffer, data[0]), data[1..])
  }

  function Keys(m: Message): string {
    match m
    case Input(data) => data
    case Raw(text) => text
    case Other => ""
  }

  predicate Passes(st: State, data: string, safe: string -> bool) {
    ScanChunk(st.buffer, data, safe).Passed?
  }

  /** In every chunk of a run that is forwarded, a typed Ctrl+U or Ctrl+C meets an empty buffer. */
  predicate HarmlessKills(st: State, ms: seq<Message>, safe: string -> bool)
    decreases |ms|
  {
    ms == [] ||
    ((Passes(st, Keys(ms[0]), safe) ==> KillsOnEmpty(st.buffer, Keys(ms[0])))
     && HarmlessKills(Handle(st, ms[0], true, safe), ms[1..], safe))
  }

  lemma {:induction false} NoKillsAreHarmless(buffer: string, data: string)
    requires forall c <- data :: !IsKill(c)
    ensures KillsOnEmpty(buffer, data)
    decreases |data|
  {
    if data == "" {
    } else {
      assert data[0] in data;
      NoKillsAreHarmless(if IsEnter(data[0]) then "" else Edit(buffer, data[0]), data[1..]);
    }
  }

  predicate AllAccepted(lines: seq<string>, safe: string -> bool) {
    forall l <- lines :: !Refused(l, safe)
  }

  /** A chunk that passes leaves the editor where the filter believes it to be, having submitted only accepted lines. */
  lemma {:induction false} PassedChunk(ed: Editor, data: string, safe: string -> bool)
    requires KillsOnEmpty(ed.pending, data) && AllAccepted(ed.submitted, safe)
    requires ScanChunk(ed.pending, data, safe).Passed?
    ensures TypeAll(ed, data).pending == ScanChunk(ed.pending, data, safe).buffer
    ensures AllAccepted(TypeAll(ed, data).submitted, safe)
    decreases |data|
  {
    if data == "" {
    } else {
      PassedChunk(Type(ed, data[0]), data[1..], safe);
    }
  }

  /** The filter's buffer is the editor's pending line, and every line submitted so far was accepted. */
  predicate InStep(st: State, safe: string -> bool) {
    var ed := TypeAll(IDLE, st.forwarded);
    ed.pending == st.buffer && AllAccepted(ed.submitted, safe)
  }

  lemma {:induction false} FilteredInStep(st: State, data: string, safe: string -> bool)
    requires InStep(st, safe) && (Passes(st, data, safe) ==> KillsOnEmpty(st.buffer, data))
    ensures InStep(Filtered(st, data, safe), safe)
  {
    var ed := TypeAll(IDLE, st.forwarded);
    match ScanChunk(st.buffer, data, safe)
    case Passed(_) =>
      TypeAllAppend(IDLE, st.forwarded, data);
      PassedChunk(ed, data, safe);
    case Blocked => CancelEmpties(st.forwarded);
  }

  /** The keys written in place of a blocked chunk empty the line and submit nothing. */
  lemma CancelEmpties(forwarded: string)
    ensures TypeAll(IDLE, forwarded + CANCEL) == TypeAll(IDLE, forwarded).(pending := "")
  {
    var ed := TypeAll(IDLE, forwarded);
    TypeAllAppend(IDLE, forwarded, CANCEL);
    assert TypeAll(ed, CANCEL) == TypeAll(Type(ed, CTRL_U), [CTRL_C]);
    assert TypeAll(Type(ed, CTRL_U), [CTRL_C]) == TypeAll(Type(Type(ed, CTRL_U), CTRL_C), "");
  }

  /**
   Over every run of a site terminal whose forwarded chunks have no Ctrl+U or Ctrl+C typed on a non-empty
   buffer: the filter's buffer is the line pending in the shell, and no refused line is ever submitted.
   */
  lemma {:induction false} SiteTerminalInStep(st: State, ms: seq<Message>, safe: string -> bool)
    requires InStep(st, safe) && HarmlessKills(st, ms, safe)
    ensures InStep(Run(st, ms, true, safe), safe)
    decreases |ms|
  {
    if ms == [] {
    } else {
      if !ms[0].Other? {
        FilteredInStep(st, Keys(ms[0]), safe);
      }
      SiteTerminalInStep(Handle(st, ms[0], true, safe), ms[1..], safe);
    }
  }

  // ---- No refused line is submitted, whatever is typed ---------------------------------

  /** What is said of a text is said of every part of it: a filter that looks for forbidden parts. */
  ghost predicate Hereditary(safe: string -> bool) {
    forall s: string, t: string :: Contains(s, t) && safe(s) ==> safe(t)
  }

  /** `to_lowercase`, character by character. */
  function Lower(s: string, lower: char -> string): string {
    if s == "" then "" else lower(s[0]) + Lower(s[1..], lower)
  }

  /** `is_safe_terminal_command` for some blocklist and some way of lowering a character. */
  predicate SafeCommand(cmd: string, lower: char -> string, blocked: seq<string>) {
    Trim(cmd) == "" || forall i | 0 <= i < |blocked| :: !Contains(Lower(cmd, lower), blocked[i])
  }

  lemma {:induction false} LowerAppend(a: string, b: string, lower: char -> string)
    ensures Lower(a + b, lower) == Lower(a, lower) + Lower(b, lower)
  {
    if a == "" {
      assert a + b == b;
    } else {
      assert (a + b)[1..] == a[1..] + b;
      LowerAppend(a[1..], b, lower);
    }
  }

  lemma LowerContains(s: string, t: string, lower: char -> string)
    requires Contains(s, t)
    ensures Contains(Lower(s, lower), Lower(t, lower))
  {
    var i :| 0 <= i <= |s| && OccursAt(s, t, i);
    var a, b := s[..i], s[i + |t|..];
    assert s == a + t + b;
    hide *;
    LowerAppend(a + t, b, lower);
    LowerAppend(a, t, lower);
    ContainsAround(Lower(a, lower), Lower(t, lower), Lower(b, lower));
  }

  lemma SafePart(s: string, t: string, lower: char -> string, blocked: seq<string>)
    requires Contains(s, t) && SafeCommand(s, lower, blocked)
    ensures SafeCommand(t, lower, blocked)
  {
    if Trim(s) == "" {
      BlankParts(s, t);
    } else {
      LowerContains(s, t, lower);
      hide Contains, Lower, Trim;
      forall i | 0 <= i < |blocked|
        ensures !Contains(Lower(t, lower), blocked[i])
      {
        if Contains(Lower(t, lower), blocked[i]) {
          ContainsIn(Lower(s, lower), Lower(t, lower), blocked[i]);
        }
      }
    }
  }

  /** The code's filter is of that kind, whatever its blocklist. */
  lemma BlocklistIsHereditary(lower: char -> string, blocked: seq<string>)
    ensures Hereditary(cmd => SafeCommand(cmd, lower, blocked))
  {
    forall s: string, t: string | Contains(s, t) && SafeCommand(s, lower, blocked)
      ensures SafeCommand(t, lower, blocked)
    {
      SafePart(s, t, lower, blocked);
    }
  }

  /** Where trimming cuts a text. */
  lemma {:induction false} TrimStartCut(s: string) returns (k: nat)
    ensures k <= |s| && TrimStart(s) == s[k..] && forall i | 0 <= i < k :: IsSpace(s[i])
  {
    k := 0;
    if s != "" && IsSpace(s[0]) {
      var j := TrimStartCut(s[1..]);
      k := j + 1;
    }
  }

  lemma {:induction false} TrimEndCut(s: string) returns (m: nat)
    ensures m <= |s| && TrimEnd(s) == s[..m] && forall i | m <= i < |s| :: IsSpace(s[i])
  {
    m := |s|;
    if s != "" && IsSpace(s[|s| - 1]) {
      m := TrimEndCut(s[..|s| - 1]);
    }
  }

  lemma TrimCuts(s: string) returns (k: nat, m: nat)
    ensures k <= m <= |s| && Trim(s) == s[k..m]
    ensures forall i | 0 <= i < |s| && !IsSpace(s[i]) :: k <= i < m
  {
    k := TrimStartCut(s);
    var n := TrimEndCut(s[k..]);
    m := k + n;
    assert forall i | m <= i < |s| :: s[i] == s[k..][i - k];
    hide IsSpace;
  }

  lemma AllBlank(s: string)
    ensures Trim(s) == "" <==> forall i | 0 <= i < |s| :: IsSpace(s[i])
  {
    var k, m := TrimCuts(s);
    if Trim(s) != "" {
      TrimmedEnds(s);
      assert Trim(s)[0] == s[k];
    }
  }

  /** A part of a blank text is blank. */
  lemma BlankParts(s: string, t: string)
    requires Contains(s, t) && Trim(s) == ""
    ensures Trim(t) == ""
  {
    var o :| 0 <= o <= |s| && OccursAt(s, t, o);
    AllBlank(s);
    AllBlank(t);
    hide IsSpace, Trim;
    forall i | 0 <= i < |t|
      ensures IsSpace(t[i])
    {
      OccursAtChar(s, t, o, i);
    }
  }

  lemma InnerPart(s: string, t: string, o: nat, i: nat, j: nat, k: nat, m: nat)
    requires OccursAt(s, t, o) && i < j <= |t| && k <= o + i && o + j <= m <= |s|
    ensures Contains(s[k..m], t[i..j])
  {
    assert s[o..][..|t|] == t;
    var a, b := s[k..o + i], s[o + j..m];
    assert t[i..j] == s[o + i..o + j];
    assert s[k..m] == a + t[i..j] + b;
    ContainsAround(a, t[i..j], b);
  }

  /** What is left of a part by trimming is a part of what is left of the whole. */
  lemma TrimInTrim(s: string, t: string)
    requires Contains(s, t) && Trim(t) != ""
    ensures Contains(Trim(s), Trim(t))
  {
    var o :| 0 <= o <= |s| && OccursAt(s, t, o);
    hide *;
    var i, j := TrimCuts(t);
    var k, m := TrimCuts(s);
    TrimmedEnds(t);
    assert !IsSpace(t[i]) && !IsSpace(t[j - 1]);
    OccursAtChar(s, t, o, i);
    OccursAtChar(s, t, o, j - 1);
    InnerPart(s, t, o, i, j, k, m);
  }

  lemma TrimmedEnds(t: string)
    requires Trim(t) != ""
    ensures !IsSpace(Trim(t)[0]) && !IsSpace(Trim(t)[|Trim(t)| - 1])
  {
  }

  predicate Suffix(p: string, s: string) {
    |p| <= |s| && s[|s| - |p|..] == p
  }

  /** The filter's buffer ends with the editor's pending line, and every line submitted so far was accepted. */
  predicate Covers(st: State, safe: string -> bool) {
    var ed := TypeAll(IDLE, st.forwarded);
    Suffix(ed.pending, st.buffer) && AllAccepted(ed.submitted, safe)
  }

  /** If a line is not refused, no ending of it is. */
  lemma SuffixAccepted(buffer: string, pending: string, safe: string -> bool)
    requires Hereditary(safe) && Suffix(pending, buffer) && !Refused(buffer, safe)
    ensures !Refused(pending, safe)
  {
    if Trim(pending) != "" {
      assert OccursAt(buffer, pending, |buffer| - |pending|);
      TrimInTrim(buffer, pending);
      if Trim(buffer) == "" {
        BlankParts(buffer, pending);
      }
    }
  }

  /** Any key but Enter keeps the pending line an ending of the buffer, Ctrl+U and Ctrl+C included. */
  lemma KeyKeepsSuffix(buffer: string, ed: Editor, c: char)
    requires Suffix(ed.pending, buffer) && !IsEnter(c)
    ensures Suffix(Type(ed, c).pending, Edit(buffer, c))
    ensures Type(ed, c).submitted == ed.submitted
  {
    hide IsControl;
    var p, n := ed.pending, |buffer|;
    if p != "" {
      assert buffer[..n - 1][n - |p|..] == p[..|p| - 1];
    }
    assert (buffer + [c])[n - |p|..] == p + [c];
    if IsKill(c) {
      assert Edit(buffer, c)[|Edit(buffer, c)|..] == "";
    }
  }

  lemma {:induction false} PassedCovers(buffer: string, ed: Editor, data: string, safe: string -> bool)
    requires Hereditary(safe) && Suffix(ed.pending, buffer) && AllAccepted(ed.submitted, safe)
    requires ScanChunk(buffer, data, safe).Passed?
    ensures Suffix(TypeAll(ed, data).pending, ScanChunk(buffer, data, safe).buffer)
    ensures AllAccepted(TypeAll(ed, data).submitted, safe)
    decreases |data|
  {
    if data == "" {
    } else {
      var c := data[0];
      hide Hereditary, Refused, Suffix, Edit;
      if IsEnter(c) {
        SuffixAccepted(buffer, ed.pending, safe);
        assert Suffix("", "") by { EmptySuffix(""); }
        PassedCovers("", Type(ed, c), data[1..], safe);
      } else {
        KeyKeepsSuffix(buffer, ed, c);
        PassedCovers(Edit(buffer, c), Type(ed, c), data[1..], safe);
      }
    }
  }

  lemma EmptySuffix(s: string)
    ensures Suffix("", s)
  {
  }

  lemma FilteredCovers(st: State, data: string, safe: string -> bool)
    requires Hereditary(safe) && Covers(st, safe)
    ensures Covers(Filtered(st, data, safe), safe)
  {
    hide Hereditary, ScanChunk, Suffix;
    match ScanChunk(st.buffer, data, safe)
    case Passed(_) =>
      TypeAllAppend(IDLE, st.forwarded, data);
      PassedCovers(st.buffer, TypeAll(IDLE, st.forwarded), data, safe);
    case Blocked =>
      CancelEmpties(st.forwarded);
      EmptySuffix("");
  }

  /**
   Over every run of a site terminal, whatever is typed (Ctrl+U and Ctrl+C in the middle of a line included),
   however it is cut into messages and wherever chunks are blocked: no refused line is ever submitted to the shell.
   */
  lemma {:induction false} NoRefusedLine(st: State, ms: seq<Message>, safe: string -> bool)
    requires Hereditary(safe) && Covers(st, safe)
    ensures Covers(Run(st, ms, true, safe), safe)
    ensures AllAccepted(TypeAll(IDLE, Run(st, ms, true, safe).forwarded).submitted, safe)
    decreases |ms|
  {
    if ms == [] {
    } else {
      hide Hereditary, Covers, Filtered;
      if !ms[0].Other? {
        FilteredCovers(st, Keys(ms[0]), safe);
      }
      NoRefusedLine(Handle(st, ms[0], true, safe), ms[1..], safe);
    }
  }

  // ---- When the buffer is the line ---------------------------------------------------------

  /** Buffer and pending line agree. */
  predicate Agrees(st: State) {
    st.buffer == TypeAll(IDLE, st.forwarded).pending
  }

  /** They agree after each key of a chunk. */
  predicate AgreesByKey(st: State, data: string, safe: string -> bool) {
    forall k | 0 <= k <= |data| :: Agrees(Filtered(st, data[..k], safe))
  }

  /** They agree after every key of every chunk that a run forwards. */
  predicate AgreesThroughout(st: State, ms: seq<Message>, safe: string -> bool)
    decreases |ms|
  {
    ms == [] ||
    ((Passes(st, Keys(ms[0]), safe) ==> AgreesByKey(st, Keys(ms[0]), safe))
     && AgreesThroughout(Handle(st, ms[0], true, safe), ms[1..], safe))
  }

  /** A chunk of one key, other than one that submits a refused line. */
  lemma OneKey(st: State, c: char, safe: string -> bool)
    requires Agrees(st) && Passes(st, [c], safe)
    ensures Agrees(Filtered(st, [c], safe)) <==> (IsKill(c) ==> st.buffer == "")
    ensures Filtered(st, [c], safe).buffer == if IsEnter(c) then "" else Edit(st.buffer, c)
  {
    var ed := TypeAll(IDLE, st.forwarded);
    assert [c][1..] == "";
    TypeAllAppend(IDLE, st.forwarded, [c]);
    assert TypeAll(ed, [c]) == TypeAll(Type(ed, c), "") == Type(ed, c);
    assert ScanChunk(st.buffer, [c], safe) == Passed(if IsEnter(c) then "" else Edit(st.buffer, c));
    assert IsKill(c) ==> Edit(st.buffer, c) == st.buffer;
  }

  lemma PassedPrefix(st: State, a: string, b: string, safe: string -> bool)
    requires Passes(st, a + b, safe)
    ensures Passes(st, a, safe) && Passes(Filtered(st, a, safe), b, safe)
    ensures Filtered(Filtered(st, a, safe), b, safe) == Filtered(st, a + b, safe)
  {
    ScanAppend(st.buffer, a, b, safe);
    CutPassed(st, a, b, safe);
    hide ScanChunk;
  }

  lemma FirstKey(st: State, data: string, safe: string -> bool)
    requires data != "" && Agrees(st) && Passes(st, data, safe)
    ensures AgreesByKey(st, data, safe) <==>
              var next := Filtered(st, data[..1], safe); Agrees(next) && AgreesByKey(next, data[1..], safe)
  {
    var next := Filtered(st, data[..1], safe);
    hide Agrees, Filtered, Passes;
    assert data[..0] == "";
    NothingTyped(st, safe);
    forall k | 1 <= k <= |data|
      ensures Filtered(next, data[1..][..k - 1], safe) == Filtered(st, data[..k], safe)
    {
      assert data == data[..k] + data[k..] && data[..k] == data[..1] + data[1..][..k - 1];
      PassedPrefix(st, data[..k], data[k..], safe);
      PassedPrefix(st, data[..1], data[1..][..k - 1], safe);
    }
    if AgreesByKey(st, data, safe) {
      forall k | 0 <= k <= |data[1..]|
        ensures Agrees(Filtered(next, data[1..][..k], safe))
      {
        assert Agrees(Filtered(st, data[..k + 1], safe));
        assert data[1..][..k] == data[1..][..(k + 1) - 1];
      }
    }
    if Agrees(next) && AgreesByKey(next, data[1..], safe) {
      forall k | 1 <= k <= |data|
        ensures Agrees(Filtered(st, data[..k], safe))
      {
        assert Agrees(Filtered(next, data[1..][..k - 1], safe));
      }
    }
  }

  lemma NothingTyped(st: State, safe: string -> bool)
    ensures Filtered(st, "", safe) == st
  {
    assert st.forwarded + "" == st.forwarded;
  }

  /** On a chunk that passes they agree after each key if and only if its kill characters meet an empty buffer. */
  lemma {:induction false} AgreementExactly(st: State, data: string, safe: string -> bool)
    requires Agrees(st) && Passes(st, data, safe)
    ensures AgreesByKey(st, data, safe) <==> KillsOnEmpty(st.buffer, data)
    decreases |data|
  {
    if data == "" {
      assert data[..0] == "";
      NothingTyped(st, safe);
    } else {
      var next := Filtered(st, data[..1], safe);
      assert data == data[..1] + data[1..] && data[..1] == [data[0]];
      hide Agrees, Filtered, Passes, AgreesByKey;
      PassedPrefix(st, data[..1], data[1..], safe);
      OneKey(st, data[0], safe);
      FirstKey(st, data, safe);
      EnterIsNoKill(data[0]);
      if Agrees(next) {
        AgreementExactly(next, data[1..], safe);
      }
    }
  }

  lemma EnterIsNoKill(c: char)
    ensures !(IsEnter(c) && IsKill(c))
  {
  }

  lemma BlockedAgrees(st: State, data: string, safe: string -> bool)
    requires !Passes(st, data, safe)
    ensures Agrees(Filtered(st, data, safe))
  {
    CancelEmpties(st.forwarded);
  }

  lemma HandledAgrees(st: State, m: Message, safe: string -> bool)
    requires Agrees(st) && (Passes(st, Keys(m), safe) ==> AgreesByKey(st, Keys(m), safe))
    ensures Agrees(Handle(st, m, true, safe))
  {
    var data := Keys(m);
    assert data[..|data|] == data;
    hide Agrees, Passes, Filtered;
    if !Passes(st, data, safe) {
      BlockedAgrees(st, data, safe);
    }
    NothingTyped(st, safe);
  }

  /**
   Over every run of a site terminal: buffer and line agree after every key of every forwarded chunk if and
   only if in those chunks a typed Ctrl+U or Ctrl+C meets an empty buffer.
   */
  lemma {:induction false} RunAgreesExactly(st: State, ms: seq<Message>, safe: string -> bool)
    requires Agrees(st)
    ensures AgreesThroughout(st, ms, safe) <==> HarmlessKills(st, ms, safe)
    decreases |ms|
  {
    if ms == [] {
    } else {
      hide Agrees, Passes, AgreesByKey, Handle, KillsOnEmpty;
      if Passes(st, Keys(ms[0]), safe) {
        AgreementExactly(st, Keys(ms[0]), safe);
      }
      if Passes(st, Keys(ms[0]), safe) ==> AgreesByKey(st, Keys(ms[0]), safe) {
        HandledAgrees(st, ms[0], safe);
        RunAgreesExactly(Handle(st, ms[0], true, safe), ms[1..], safe);
      }
    }
  }

  /** A session from its start; without Ctrl+U and Ctrl+C it always agrees. */
  lemma {:induction false} FreshTerminalInStep(ms: seq<Message>, safe: string -> bool)
    ensures AgreesThroughout(START, ms, safe) <==> HarmlessKills(START, ms, safe)
    ensures HarmlessKills(START, ms, safe) ==> InStep(Run(START, ms, true, safe), safe)
    ensures (forall m <- ms :: forall c <- Keys(m) :: !IsKill(c)) ==> HarmlessKills(START, ms, safe)
  {
    assert TypeAll(IDLE, "") == IDLE;
    RunAgreesExactly(START, ms, safe);
    if HarmlessKills(START, ms, safe) {
      SiteTerminalInStep(START, ms, safe);
    }
    if forall m <- ms :: forall c <- Keys(m) :: !IsKill(c) {
      KillFreeRun(START, ms, safe);
    }
  }

  lemma {:induction false} KillFreeRun(st: State, ms: seq<Message>, safe: string -> bool)
    requires forall m <- ms :: forall c <- Keys(m) :: !IsKill(c)
    ensures HarmlessKills(st, ms, safe)
    decreases |ms|
  {
    if ms == [] {
    } else {
      assert ms[0] in ms;
      NoKillsAreHarmless(st.buffer, Keys(ms[0]));
      KillFreeRun(Handle(st, ms[0], true, safe), ms[1..], safe);
    }
  }

  /** From its start a session never submits a refused line, whatever is typed. */
  lemma FreshTerminalRefusesAll(ms: seq<Message>, safe: string -> bool)
    requires Hereditary(safe)
    ensures AllAccepted(TypeAll(IDLE, Run(START, ms, true, safe).forwarded).submitted, safe)
    ensures forall l <- TypeAll(IDLE, Run(START, ms, true, safe).forwarded).submitted :: Trim(l) == "" || safe(Trim(l))
  {
    assert TypeAll(IDLE, "") == IDLE;
    hide Hereditary;
    NoRefusedLine(START, ms, safe);
  }

  /** A typed Ctrl+U empties the line but not the buffer. */
  lemma DisagreementExample(safe: string -> bool)
    ensures var end := Run(START, [Input(['a', CTRL_U])], true, safe);
            end.buffer == "a" && TypeAll(IDLE, end.forwarded).pending == ""
  {
    var keys := ['a', CTRL_U];
    var ms := [Input(keys)];
    assert keys[1..] == [CTRL_U] && keys[1..][1..] == "";
    assert Edit("", 'a') == "a" && Edit("a", CTRL_U) == "a";
    assert ScanChunk("", keys, safe) == ScanChunk("a", keys[1..], safe);
    assert ScanChunk("a", keys[1..], safe) == ScanChunk("a", "", safe);
    assert TypeAll(IDLE, keys) == TypeAll(Type(IDLE, 'a'), keys[1..]);
    assert TypeAll(Type(IDLE, 'a'), keys[1..]) == TypeAll(IDLE, "");
    assert ms[1..] == [] && "" + keys == keys;
    assert Handle(START, ms[0], true, safe) == State("a", keys);
    assert Run(START, ms, true, safe) == Run(State("a", keys), ms[1..], true, safe);
  }

  // ---- How chunks are cut -----------------------------------------------------------

  /**
   Cutting a chunk in two changes what reaches the shell exactly when both halves are non-empty and
   the whole is blocked: a blocked chunk also drops the accepted lines before the refused one.
   */
  lemma CutExactly(st: State, a: string, b: string, safe: string -> bool)
    ensures Filtered(Filtered(st, a, safe), b, safe) == Filtered(st, a + b, safe)
       <==> a == "" || b == "" || ScanChunk(st.buffer, a + b, safe).Passed?
  {
    hide ScanChunk;
    if a == "" {
      EmptyScan(st.buffer, safe);
      assert a + b == b && st.forwarded + a == st.forwarded;
    } else if b == "" {
      assert a + b == a;
      EmptyScan(Filtered(st, a, safe).buffer, safe);
      assert Filtered(st, a, safe).forwarded + b == Filtered(st, a, safe).forwarded;
    } else {
      CutInTwo(st, a, b, safe);
    }
  }

  lemma FilteredLength(st: State, data: string, safe: string -> bool)
    ensures |Filtered(st, data, safe).forwarded| ==
              |st.forwarded| + if ScanChunk(st.buffer, data, safe).Passed? then |data| else |CANCEL|
  {
    hide ScanChunk;
  }

  lemma FilteredPassed(st: State, data: string, safe: string -> bool)
    requires ScanChunk(st.buffer, data, safe).Passed?
    ensures Filtered(st, data, safe) == State(ScanChunk(st.buffer, data, safe).buffer, st.forwarded + data)
  {
    hide ScanChunk;
  }

  lemma CutPassed(st: State, a: string, b: string, safe: string -> bool)
    requires ScanChunk(st.buffer, a + b, safe).Passed?
    ensures Filtered(Filtered(st, a, safe), b, safe) == Filtered(st, a + b, safe)
  {
    hide *;
    ScanAppend(st.buffer, a, b, safe);
    FilteredPassed(st, a + b, safe);
    FilteredPassed(st, a, safe);
    var mid := Filtered(st, a, safe);
    FilteredPassed(mid, b, safe);
    assert mid.forwarded + b == st.forwarded + (a + b);
  }

  lemma CutBlocked(st: State, a: string, b: string, safe: string -> bool)
    requires a != "" && b != "" && ScanChunk(st.buffer, a + b, safe).Blocked?
    ensures |Filtered(Filtered(st, a, safe), b, safe).forwarded| > |Filtered(st, a + b, safe).forwarded|
  {
    assert |CANCEL| > 0;
    hide *;
    ScanAppend(st.buffer, a, b, safe);
    FilteredLength(st, a + b, safe);
    FilteredLength(st, a, safe);
    var mid := Filtered(st, a, safe);
    FilteredLength(mid, b, safe);
    if ScanChunk(st.buffer, a, safe).Passed? {
      FilteredPassed(st, a, safe);
    }
  }

  lemma CutInTwo(st: State, a: string, b: string, safe: string -> bool)
    requires a != "" && b != ""
    ensures Filtered(Filtered(st, a, safe), b, safe) == Filtered(st, a + b, safe) <==>
            ScanChunk(st.buffer, a + b, safe).Passed?
  {
    hide *;
    if ScanChunk(st.buffer, a + b, safe).Passed? {
      CutPassed(st, a, b, safe);
    } else {
      CutBlocked(st, a, b, safe);
    }
  }

  lemma EmptyScan(buffer: string, safe: string -> bool)
    ensures ScanChunk(buffer, "", safe) == Passed(buffer)
  {
  }

  /** The server terminal forwards every message unchanged. */
  lemma {:induction false} ServerTerminalForwardsAll(st: State, ms: seq<Message>, safe: string -> bool)
    ensures Run(st, ms, false, safe).forwarded == st.forwarded + Typed(ms)
    decreases |ms|
  {
    if ms == [] {
      assert st.forwarded + "" == st.forwarded;
    } else {
      var next := Handle(st, ms[0], false, safe);
      HandledOnServer(st, ms[0], safe);
      ServerTerminalForwardsAll(next, ms[1..], safe);
      assert st.forwarded + Keys(ms[0]) + Typed(ms[1..]) == st.forwarded + Typed(ms);
    }
  }

  lemma HandledOnServer(st: State, m: Message, safe: string -> bool)
    ensures Handle(st, m, false, safe).forwarded == st.forwarded + Keys(m)
  {
    NothingRefused(st.buffer, Keys(m), Effective(false, safe));
    assert st.forwarded + "" == st.forwarded;
  }

  function Typed(ms: seq<Message>): string {
    if ms == [] then "" else Keys(ms[0]) + Typed(ms[1..])
  }

  lemma {:induction false} NothingRefused(buffer: string, data: string, safe: string -> bool)
    requires forall line :: safe(line)
    ensures ScanChunk(buffer, data, safe).Passed?
    decreases |data|
  {
    if data == "" {
    } else {
      NothingRefused(if IsEnter(data[0]) then "" else Edit(buffer, data[0]), data[1..], safe);
    }
  }
}
