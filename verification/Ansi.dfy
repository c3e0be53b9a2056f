/**
 The log viewer's removal of terminal escape sequences (ECMA-48, section 5.4,
 and the operating system commands of terminal emulators).
 */
module Ansi {
  import Strings = Text

  const ESC := '\U{001B}'
  const BEL := '\U{0007}'

  predicate IsLetter(c: char) {
    'a' <= c <= 'z' || 'A' <= c <= 'Z'
  }

  /** What follows a control sequence: everything after the first letter. */
  function AfterCsi(s: string): (rest: string)
    ensures |rest| <= |s|
  {
    if s == [] then [] else if IsLetter(s[0]) then s[1..] else AfterCsi(s[1..])
  }

  /** What follows an operating system command: everything after BEL, ESC backslash, or a lone ESC. */
  function AfterOsc(s: string): (rest: string)
    ensures |rest| <= |s|
  {
    if s == [] then []
    else if s[0] == BEL then s[1..]
    else if s[0] == ESC then (if |s| > 1 && s[1] == '\\' then s[2..] else s[1..])
    else AfterOsc(s[1..])
  }

  /** What follows one escape sequence. */
  function AfterEscape(s: string): (rest: string)
    requires s != [] && s[0] == ESC
    ensures |rest| < |s|
  {
    if |s| == 1 then []
    else if s[1] == '[' then AfterCsi(s[2..])
    else if s[1] == ']' then AfterOsc(s[2..])
    else s[2..]
  }

  function Strip(s: string): string
    decreases |s|
  {
    if s == [] then []
    else if s[0] == ESC then Strip(AfterEscape(s))
    else [s[0]] + Strip(s[1..])
  }

  /** The loop that skips a control sequence. */
  method SkipCsi(s: string, start: nat) returns (i: nat)
    requires start <= |s|
    ensures i <= |s| && AfterCsi(s[start..]) == s[i..]
  {
    i := start;
    var done := false;
    while i < |s| && !done
      invariant i <= |s|
      invariant AfterCsi(s[start..]) == if done then s[i..] else AfterCsi(s[i..])
      decreases |s| - i
    {
      assert s[i..][1..] == s[i + 1..];
      done := IsLetter(s[i]);
      i := i + 1;
    }
  }

  /** The loop that skips an operating system command. */
  method SkipOsc(s: string, start: nat) returns (i: nat)
    requires start <= |s|
    ensures i <= |s| && AfterOsc(s[start..]) == s[i..]
  {
    i := start;
    var done := false;
    while i < |s| && !done
      invariant i <= |s|
      invariant AfterOsc(s[start..]) == if done then s[i..] else AfterOsc(s[i..])
      decreases |s| - i
    {
      var ch := s[i];
      assert s[i..][1..] == s[i + 1..];
      assert |s[i..]| > 1 ==> s[i..][2..] == s[i + 2..];
      i := i + 1;
      if ch == BEL {
        done := true;
      } else if ch == ESC {
        if i < |s| && s[i] == '\\' {
          i := i + 1;
        }
        done := true;
      }
    }
  }

  method StripAnsiEscapes(s: string) returns (result: string)
    ensures result == Strip(s)
  {
    result := [];
    var i := 0;
    while i < |s|
      invariant i <= |s|
      invariant Strip(s) == result + Strip(s[i..])
      decreases |s| - i
    {
      ghost var here := i;
      var c := s[i];
      i := i + 1;
      if c == ESC {
        if i < |s| {
          if s[i] == '[' {
            i := SkipCsi(s, i + 1);
          } else if s[i] == ']' {
            i := SkipOsc(s, i + 1);
          } else {
            i := i + 1;
          }
        }
        assert AfterEscape(s[here..]) == s[i..] by {
          hide AfterCsi, AfterOsc;
          assert s[here..][1..] == s[here + 1..];
          assert here + 1 < |s| ==> s[here..][2..] == s[here + 2..];
        }
        AfterEscapeShorter(s, here, i);
      } else {
        hide Strip;
        StripPlain(s, here);
        assert result + ([c] + Strip(s[i..])) == result + [c] + Strip(s[i..]);
        result := result + [c];
      }
    }
    assert s[i..] == [];
  }

  lemma AfterEscapeShorter(s: string, here: nat, i: nat)
    requires here < |s| && s[here] == ESC && i <= |s| && AfterEscape(s[here..]) == s[i..]
    ensures here < i && Strip(s[here..]) == Strip(s[i..])
  {
    hide AfterEscape;
    assert |s[i..]| < |s[here..]|;
  }

  lemma StripPlain(s: string, here: nat)
    requires here < |s| && s[here] != ESC
    ensures Strip(s[here..]) == [s[here]] + Strip(s[here + 1..])
  {
    assert s[here..][1..] == s[here + 1..];
  }

  // ---- Terminal output as its writer meant it ------------------------------

  datatype Piece =
    | Text(text: string)
    | Csi(parameters: string, final: char)
    | OscBel(command: string)
    | OscSt(command: string)
    | OscCut(command: string)
    | Pair(second: char)
  {
    predicate Valid() {
      match this
      case Text(text) => ESC !in text
      case Csi(parameters, final) => IsLetter(final) && forall i | 0 <= i < |parameters| :: !IsLetter(parameters[i])
      case OscBel(command) => ESC !in command && BEL !in command
      case OscSt(command) => ESC !in command && BEL !in command
      case OscCut(command) => ESC !in command && BEL !in command
      case Pair(second) => second != '[' && second != ']'
    }

    function Render(): string {
      match this
      case Text(text) => text
      case Csi(parameters, final) => [ESC, '['] + parameters + [final]
      case OscBel(command) => [ESC, ']'] + command + [BEL]
      case OscSt(command) => [ESC, ']'] + command + [ESC, '\\']
      case OscCut(command) => [ESC, ']'] + command + [ESC]
      case Pair(second) => [ESC, second]
    }

    function Visible(): string {
      if Text? then text else []
    }
  }

  function Render(pieces: seq<Piece>): string {
    if pieces == [] then [] else pieces[0].Render() + Render(pieces[1..])
  }

  function Visible(pieces: seq<Piece>): string {
    if pieces == [] then [] else pieces[0].Visible() + Visible(pieces[1..])
  }

  /** Pieces that can stand before `rest`: a command cut by ESC is not one ended by ESC backslash. */
  predicate WellFormed(pieces: seq<Piece>, rest: string) {
    pieces != [] ==>
      var next := Render(pieces[1..]) + rest;
      pieces[0].Valid() && (pieces[0].OscCut? && next != [] ==> next[0] != '\\') && WellFormed(pieces[1..], rest)
  }

  lemma {:induction false} StripText(text: string, rest: string)
    requires ESC !in text
    ensures Strip(text + rest) == text + Strip(rest)
  {
    if text == [] {
      assert text + rest == rest && text + Strip(rest) == Strip(rest);
    } else {
      assert text[0] in text;
      assert (text + rest)[1..] == text[1..] + rest;
      StripText(text[1..], rest);
      assert text + Strip(rest) == [text[0]] + (text[1..] + Strip(rest));
    }
  }

  lemma {:induction false} AfterCsiSkips(parameters: string, final: char, rest: string)
    requires Csi(parameters, final).Valid()
    ensures AfterCsi(parameters + [final] + rest) == rest
  {
    var s := parameters + [final] + rest;
    if parameters == [] {
      assert s[1..] == rest;
    } else {
      assert s[1..] == parameters[1..] + [final] + rest;
      AfterCsiSkips(parameters[1..], final, rest);
    }
  }

  lemma {:induction false} AfterOscSkips(command: string, end: string, rest: string)
    requires ESC !in command && BEL !in command
    requires end == [BEL] || end == [ESC, '\\'] || (end == [ESC] && (rest != [] ==> rest[0] != '\\'))
    ensures AfterOsc(command + end + rest) == rest
  {
    var s := command + end + rest;
    if command == [] {
      assert s[|end|..] == rest;
    } else {
      assert command[0] in command;
      assert s[1..] == command[1..] + end + rest;
      AfterOscSkips(command[1..], end, rest);
    }
  }

  lemma {:induction false} StripCommand(command: string, end: string, rest: string)
    requires ESC !in command && BEL !in command
    requires end == [BEL] || end == [ESC, '\\'] || (end == [ESC] && (rest != [] ==> rest[0] != '\\'))
    ensures Strip([ESC, ']'] + command + end + rest) == Strip(rest)
  {
    var s := [ESC, ']'] + command + end + rest;
    assert s[2..] == command + end + rest;
    AfterOscSkips(command, end, rest);
  }

  lemma StripCsi(parameters: string, final: char, rest: string)
    requires Csi(parameters, final).Valid()
    ensures Strip([ESC, '['] + parameters + [final] + rest) == Strip(rest)
  {
    var s := [ESC, '['] + parameters + [final] + rest;
    assert s[2..] == parameters + [final] + rest;
    AfterCsiSkips(parameters, final, rest);
  }

  lemma StripPair(second: char, rest: string)
    requires second != '[' && second != ']'
    ensures Strip([ESC, second] + rest) == Strip(rest)
  {
    assert ([ESC, second] + rest)[2..] == rest;
  }

  lemma StripPiece(p: Piece, rest: string)
    requires p.Valid() && (p.OscCut? && rest != [] ==> rest[0] != '\\')
    ensures Strip(p.Render() + rest) == p.Visible() + Strip(rest)
  {
    hide Strip;
    assert p.Text? || p.Visible() + Strip(rest) == Strip(rest);
    match p
    case Text(text) => StripText(text, rest);
    case Csi(parameters, final) => StripCsi(parameters, final, rest);
    case OscBel(command) => StripCommand(command, [BEL], rest);
    case OscSt(command) => StripCommand(command, [ESC, '\\'], rest);
    case OscCut(command) => StripCommand(command, [ESC], rest);
    case Pair(second) => StripPair(second, rest);
  }

  lemma WellFormedStep(pieces: seq<Piece>, rest: string)
    requires pieces != [] && WellFormed(pieces, rest)
    ensures var next := Render(pieces[1..]) + rest;
            && pieces[0].Valid() && (pieces[0].OscCut? && next != [] ==> next[0] != '\\')
            && WellFormed(pieces[1..], rest)
            && Render(pieces) + rest == pieces[0].Render() + next
    ensures Visible(pieces) == pieces[0].Visible() + Visible(pieces[1..])
  {
  }

  /** Of any interleaving of text and complete escape sequences, exactly the text remains. */
  lemma {:induction false} StripRendered(pieces: seq<Piece>, rest: string)
    requires WellFormed(pieces, rest)
    ensures Strip(Render(pieces) + rest) == Visible(pieces) + Strip(rest)
  {
    if pieces == [] {
      assert [] + rest == rest && [] + Strip(rest) == Strip(rest);
    } else {
      WellFormedStep(pieces, rest);
      hide *;
      var p, next := pieces[0], Render(pieces[1..]) + rest;
      assert Strip(Render(pieces) + rest) == Strip(p.Render() + next);
      StripPiece(p, next);
      StripRendered(pieces[1..], rest);
      Strings.Associative(p.Visible(), Visible(pieces[1..]), Strip(rest));
    }
  }

  /** An escape sequence that the input ends in the middle of, or nothing. */
  predicate Unfinished(s: string) {
    || s == []
    || s == [ESC]
    || (|s| >= 2 && s[..2] == [ESC, '['] && forall i | 2 <= i < |s| :: !IsLetter(s[i]))
    || (|s| >= 2 && s[..2] == [ESC, ']'] && forall i | 2 <= i < |s| :: s[i] != BEL && s[i] != ESC)
  }

  lemma {:induction false} StripUnfinished(s: string)
    requires Unfinished(s)
    ensures Strip(s) == []
  {
    if |s| >= 2 {
      NothingAfter(s[2..]);
    }
  }

  lemma {:induction false} NothingAfter(s: string)
    ensures (forall i | 0 <= i < |s| :: !IsLetter(s[i])) ==> AfterCsi(s) == []
    ensures (forall i | 0 <= i < |s| :: s[i] != BEL && s[i] != ESC) ==> AfterOsc(s) == []
  {
    if s == [] {
    } else {
      NothingAfter(s[1..]);
    }
  }

  // ---- Arbitrary input ------------------------------------------------------

  /** Cutting a control sequence or an operating system command off the input. */
  lemma FirstCsi(s: string) returns (p: Piece, rest: string)
    requires |s| >= 2 && s[0] == ESC && s[1] == '[' && !Unfinished(s)
    ensures p.Csi? && p.Valid() && s == p.Render() + rest && |rest| < |s|
  {
    var k := 2;
    while !IsLetter(s[k])
      invariant 2 <= k < |s| && forall i | 2 <= i < k :: !IsLetter(s[i])
      invariant exists i | k <= i < |s| :: IsLetter(s[i])
      decreases |s| - k
    {
      k := k + 1;
    }
    p, rest := Csi(s[2..k], s[k]), s[k + 1..];
  }

  lemma CommandEnd(s: string) returns (k: nat)
    requires |s| >= 2 && s[0] == ESC && s[1] == ']' && !Unfinished(s)
    ensures 2 <= k < |s| && (s[k] == BEL || s[k] == ESC) && BEL !in s[2..k] && ESC !in s[2..k]
  {
    k := 2;
    while s[k] != BEL && s[k] != ESC
      invariant 2 <= k < |s| && forall i | 2 <= i < k :: s[i] != BEL && s[i] != ESC
      invariant exists i | k <= i < |s| :: s[i] == BEL || s[i] == ESC
      decreases |s| - k
    {
      k := k + 1;
    }
  }

  lemma FirstOsc(s: string) returns (p: Piece, rest: string)
    requires |s| >= 2 && s[0] == ESC && s[1] == ']' && !Unfinished(s)
    ensures !p.Text? && p.Valid() && s == p.Render() + rest && |rest| < |s|
    ensures p.OscCut? && rest != [] ==> rest[0] != '\\'
  {
    var k := CommandEnd(s);
    var command := s[2..k];
    if s[k] == BEL {
      p, rest := OscBel(command), s[k + 1..];
      assert s == [ESC, ']'] + command + [BEL] + rest;
    } else if k + 1 < |s| && s[k + 1] == '\\' {
      p, rest := OscSt(command), s[k + 2..];
      assert s == [ESC, ']'] + command + [ESC, '\\'] + rest;
    } else {
      p, rest := OscCut(command), s[k + 1..];
      assert s == [ESC, ']'] + command + [ESC] + rest;
    }
  }

  lemma FirstPiece(s: string) returns (p: Piece, rest: string)
    requires s != [] && !Unfinished(s)
    ensures p.Valid() && s == p.Render() + rest && |rest| < |s|
    ensures p.OscCut? && rest != [] ==> rest[0] != '\\'
  {
    if s[0] == ESC {
      if s[1] == '[' {
        p, rest := FirstCsi(s);
      } else if s[1] == ']' {
        p, rest := FirstOsc(s);
      } else {
        p, rest := Pair(s[1]), s[2..];
      }
    } else {
      p, rest := Text([s[0]]), s[1..];
    }
  }

  lemma PieceInFront(p: Piece, ps: seq<Piece>, rest: string)
    requires WellFormed(ps, rest) && p.Valid()
    requires var next := Render(ps) + rest; p.OscCut? && next != [] ==> next[0] != '\\'
    ensures WellFormed([p] + ps, rest) && Render([p] + ps) + rest == p.Render() + (Render(ps) + rest)
  {
    hide Piece.Valid, Piece.Render;
    assert ([p] + ps)[1..] == ps && ([p] + ps)[0] == p;
    Strings.Associative(p.Render(), Render(ps), rest);
  }

  /**
   Every input is an interleaving of text and escape sequences, up to an unfinished one at its
   end; what is kept of it is exactly the text.
   */
  lemma {:induction false} StripIsVisibleText(s: string) returns (pieces: seq<Piece>, rest: string)
    ensures WellFormed(pieces, rest) && Unfinished(rest) && s == Render(pieces) + rest
    ensures Strip(s) == Visible(pieces)
    decreases |s|
  {
    pieces, rest := Decompose(s);
    StripRendered(pieces, rest);
    StripUnfinished(rest);
    assert Visible(pieces) + [] == Visible(pieces);
  }

  lemma {:induction false} Decompose(s: string) returns (pieces: seq<Piece>, rest: string)
    ensures WellFormed(pieces, rest) && Unfinished(rest) && s == Render(pieces) + rest
    decreases |s|
  {
    if Unfinished(s) {
      pieces, rest := [], s;
    } else {
      var p, after := FirstPiece(s);
      var ps;
      ps, rest := Decompose(after);
      pieces := [p] + ps;
      PieceInFront(p, ps, rest);
    }
  }

  /** `t` is `s` with some characters left out. */
  predicate Subsequence(t: string, s: string) {
    if t == [] then true
    else if s == [] then false
    else (t[0] == s[0] && Subsequence(t[1..], s[1..])) || Subsequence(t, s[1..])
  }

  lemma {:induction false} SubsequenceOfSuffix(t: string, s: string, k: nat)
    requires k <= |s| && Subsequence(t, s[k..])
    ensures Subsequence(t, s)
  {
    if k == 0 {
      assert s[0..] == s;
    } else if t != [] {
      assert s[k..] == s[1..][k - 1..];
      SubsequenceOfSuffix(t, s[1..], k - 1);
    }
  }

  lemma {:induction false} AfterIsSuffix(s: string)
    ensures AfterCsi(s) == s[|s| - |AfterCsi(s)|..]
    ensures AfterOsc(s) == s[|s| - |AfterOsc(s)|..]
  {
    if s == [] {
    } else {
      AfterIsSuffix(s[1..]);
    }
  }

  /** Whatever the input, no ESC remains and nothing is added or reordered. */
  lemma {:induction false} StripIsClean(s: string)
    ensures ESC !in Strip(s)
    ensures Subsequence(Strip(s), s)
    decreases |s|
  {
    if s == [] {
    } else {
      if s[0] == ESC {
        var rest := AfterEscape(s);
        StripIsClean(rest);
        if |s| > 1 {
          AfterIsSuffix(s[2..]);
          assert rest == s[|s| - |rest|..];
          SubsequenceOfSuffix(Strip(s), s, |s| - |rest|);
        }
      } else {
        StripIsClean(s[1..]);
        assert Strip(s)[1..] == Strip(s[1..]);
      }
    }
  }

  lemma {:induction false} StripIdempotent(s: string)
    ensures Strip(Strip(s)) == Strip(s)
  {
    StripIsClean(s);
    StripText(Strip(s), []);
    assert Strip(s) + [] == Strip(s);
  }

  // ---- The sequences, by their codes ---------------------------------------------------------------

  /** A letter of ASCII. */
  predicate Final(c: char) {
    65 <= c as int <= 90 || 97 <= c as int <= 122
  }

  lemma FinalIsLetter(c: char)
    ensures IsLetter(c) <==> Final(c)
  {
  }

  /**
   A control sequence, ESC and an opening bracket, goes up to and with its first letter, of either case, and nothing
   else does; without a letter it goes up to the end of the input.
   */
  lemma {:induction false} ControlSequenceGoes(parameters: string, final: char, rest: string)
    requires Final(final) && forall i | 0 <= i < |parameters| :: !Final(parameters[i])
    ensures Strip([27 as char, 91 as char] + parameters + [final] + rest) == Strip(rest)
    ensures Strip([27 as char, 91 as char] + parameters) == ""
  {
    forall i | 0 <= i < |parameters|
      ensures !IsLetter(parameters[i])
    {
      FinalIsLetter(parameters[i]);
    }
    FinalIsLetter(final);
    assert 27 as char == ESC && 91 as char == '[';
    hide Strip, IsLetter, Final;
    assert Csi(parameters, final).Valid();
    StripCsi(parameters, final, rest);
    var s := [ESC, '['] + parameters;
    assert s[..2] == [ESC, '['] && forall i | 2 <= i < |s| :: s[i] == parameters[i - 2];
    assert Unfinished(s);
    StripUnfinished(s);
  }

  /** An operating system command, ESC and a closing bracket, goes up to BEL, to ESC backslash, or to a lone ESC. */
  lemma {:induction false} CommandGoes(command: string, rest: string)
    requires forall i | 0 <= i < |command| :: command[i] as int != 7 && command[i] as int != 27
    ensures Strip([27 as char, 93 as char] + command + [7 as char] + rest) == Strip(rest)
    ensures Strip([27 as char, 93 as char] + command + [27 as char, 92 as char] + rest) == Strip(rest)
    ensures (rest != "" ==> rest[0] as int != 92) ==>
              Strip([27 as char, 93 as char] + command + [27 as char] + rest) == Strip(rest)
  {
    assert 27 as char == ESC && 93 as char == ']' && 7 as char == BEL && 92 as char == '\\';
    assert ESC !in command && BEL !in command;
    hide Strip;
    StripCommand(command, [BEL], rest);
    StripCommand(command, [ESC, '\\'], rest);
    if rest != "" ==> rest[0] as int != 92 {
      StripCommand(command, [ESC], rest);
    }
  }

  /** ESC and any other character go, and text without ESC stays. */
  lemma {:induction false} OtherwiseStays(second: char, text: string, rest: string)
    requires second as int != 91 && second as int != 93 && forall i | 0 <= i < |text| :: text[i] as int != 27
    ensures Strip([27 as char, second] + rest) == Strip(rest)
    ensures Strip(text + rest) == text + Strip(rest) && Strip([27 as char]) == ""
  {
    assert 27 as char == ESC && ESC !in text;
    assert Strip([ESC]) == "";
    hide Strip;
    StripPair(second, rest);
    StripText(text, rest);
  }

  lemma ClearScreenText(text: string)
    ensures [27 as char] + "[2J" + text == [27 as char, 91 as char] + "2" + ['J'] + text
  {
  }

  lemma PlainText(text: string)
    requires forall i | 0 <= i < |text| :: text[i] as int != 27
    ensures Strip(text) == text
  {
    OtherwiseStays('x', text, "");
    assert Strip("") == "" && text + "" == text;
  }

  /** Clearing the screen does not take the text behind it. */
  lemma ClearScreenExample(text: string)
    requires forall i | 0 <= i < |text| :: text[i] as int != 27
    ensures Strip([27 as char] + "[2J" + text) == text
  {
    assert Final('J') && !Final("2"[0]);
    hide *;
    ClearScreenText(text);
    ControlSequenceGoes("2", 'J', text);
    PlainText(text);
  }
}
