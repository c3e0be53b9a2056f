/**
 The redirect rules of a site: one line of nginx configuration each, appended, filtered and read
 back as text.
 */
module NginxRedirects {
  import opened Text
  import NginxAuth

  const LOCATION := "location = "
  const RETURN := "return "
  const OPENING := " { "
  const ENDING := "; }"

  datatype Rule = Rule(source: string, code: string, target: string)

  /** The text of a rule after `location = `. */
  function Tail(r: Rule): string {
    r.source + (OPENING + (RETURN + Action(r)))
  }

  function Action(r: Rule): string {
    r.code + (" " + (r.target + ENDING))
  }

  function RuleLine(r: Rule): string {
    LOCATION + Tail(r)
  }

  // ---- The requests ------------------------------------------------------------------------

  /** What `add_redirect` accepts: a source path, a kind of redirect, a target. */
  predicate ValidRule(r: Rule) {
    && r.source != "" && r.source[0] == '/' && NoSpace(r.source)
    && ';' !in r.source && '{' !in r.source && '}' !in r.source
    && (r.code == "301" || r.code == "302")
    && r.target != "" && Clean(r.target) && ';' !in r.target && '{' !in r.target && '}' !in r.target
  }

  /** The file after an addition; if nginx refuses the configuration, the old text is written back. */
  function AddRedirect(content: string, r: Rule, tested: bool): string {
    if ValidRule(r) && tested then content + RuleLine(r) + "\n" else content
  }

  predicate Names(line: string, source: string) {
    Contains(line, LOCATION + source + " ")
  }

  /** The lines that a removal keeps. */
  function KeepOthers(ls: seq<string>, source: string): seq<string> {
    if ls == [] then []
    else if Names(ls[0], source) then KeepOthers(ls[1..], source)
    else [ls[0]] + KeepOthers(ls[1..], source)
  }

  /** The file after a removal; a request without a source is refused. */
  function RemoveRedirect(content: string, source: string): string {
    if source == "" then content else Join(KeepOthers(Lines(content), source), "\n") + "\n"
  }

  /** What one line is listed as. */
  function ListLine(line: string): Option<Rule> {
    var sources, actions := Split(line, LOCATION), Split(line, RETURN);
    if !Contains(line, RETURN) || |sources| < 2 || |actions| < 2 then None
    else
      var words := Words(actions[1]);
      if |words| < 2 then None
      else Some(Rule(Split(sources[1], " ")[0], words[0], TrimEndMatches(words[1], ';')))
  }

  function ListLines(ls: seq<string>): seq<Rule> {
    if ls == [] then []
    else match ListLine(ls[0]) case None => ListLines(ls[1..]) case Some(r) => [r] + ListLines(ls[1..])
  }

  function ListRedirects(content: string): seq<Rule> {
    ListLines(Lines(content))
  }

  // ---- Reading one rule back -----------------------------------------------------------------

  /** The first part of a split goes at least as far as there is no separator. */
  lemma SplitFirst(s: string, sep: string, n: nat)
    requires sep != "" && n <= |s| && forall i | 0 <= i < n :: !OccursAt(s, sep, i)
    ensures s[..n] <= Split(s, sep)[0]
  {
    match Find(s, sep)
    case None =>
    case Some(i) => assert i >= n;
  }

  /** The listed source is what stands before the first space, if no separator gets in the way. */
  lemma FirstWord(s: string, sep: string, word: string)
    requires sep != "" && ' ' !in word && word + " " <= s
    requires forall i | 0 <= i <= |word| :: !OccursAt(s, sep, i)
    ensures Split(Split(s, sep)[0], " ")[0] == word
  {
    SplitFirst(s, sep, |word| + 1);
    var first := Split(s, sep)[0];
    hide Split;
    assert s[..|word| + 1] == word + " ";
    var more := first[|word| + 1..];
    assert first == word + [' '] + more && [' '] == " ";
    SplitAtChar(word, ' ', more);
  }

  /** Before the first space of a rule's tail there is no separator. */
  lemma NoLocationInSource(source: string, more: string, i: nat)
    requires ' ' !in source && i <= |source| && more != "" && more[0] != '='
    ensures !OccursAt(source + " " + more, LOCATION, i)
  {
    var s := source + " " + more;
    assert s[|source|] == ' ' && s[|source| + 1] == more[0];
    if i + 8 < |source| {
      assert s[i + 8] == source[i + 8];
      Mismatch(s, LOCATION, i, 8);
    } else if i + 8 == |source| {
      Mismatch(s, LOCATION, i, 9);
    } else {
      Mismatch(s, LOCATION, i, |source| - i);
    }
  }

  lemma Mismatch(s: string, p: string, i: nat, k: nat)
    requires k < |p| && i + k < |s| && s[i + k] != p[k]
    ensures !OccursAt(s, p, i)
  {
    if OccursAt(s, p, i) {
      OccursAtChar(s, p, i, k);
    }
  }

  lemma SourceListed(r: Rule)
    requires ValidRule(r)
    ensures var parts := Split(RuleLine(r), LOCATION);
            |parts| >= 2 && Split(parts[1], " ")[0] == r.source
  {
    var tail, more := Tail(r), "{ " + (RETURN + Action(r));
    assert tail == r.source + " " + more && more[0] == '{';
    NoSpaceNoChar(r.source);
    assert RuleLine(r) == "" + LOCATION + tail;
    SplitHead("", LOCATION, tail);
    hide Tail, Action, ValidRule, RuleLine;
    assert r.source + " " <= tail;
    forall i | 0 <= i <= |r.source|
      ensures !OccursAt(tail, LOCATION, i)
    {
      NoLocationInSource(r.source, more, i);
    }
    FirstWord(tail, LOCATION, r.source);
    assert ([""] + Split(tail, LOCATION))[1] == Split(tail, LOCATION)[0];
  }

  // ---- The action of a rule ----------------------------------------------------------------------

  predicate EndsInReturn(source: string) {
    |source| >= 6 && source[|source| - 6..] == "return"
  }

  lemma QuietHasNoReturn(s: string)
    requires NginxAuth.Quiet(s)
    ensures !Contains(s, RETURN)
  {
    forall i | 0 <= i <= |s|
      ensures !OccursAt(s, RETURN, i)
    {
      if OccursAt(s, RETURN, i) {
        OccursAtChar(s, RETURN, i, 5);
        OccursAtChar(s, RETURN, i, 6);
      }
    }
  }

  lemma ActionQuiet(r: Rule)
    requires ValidRule(r) && NoSpace(r.target)
    ensures NginxAuth.Quiet(Action(r))
  {
    NoSpaceNoChar(r.target);
    hide NoSpace;
    var a := Action(r);
    assert forall k | 0 <= k < |r.target| :: a[4 + k] == r.target[k];
    assert a[3] == ' ' && a[2] != 'n' && a[4 + |r.target|] == ';';
    assert a[5 + |r.target|] == ' ' && a[6 + |r.target|] == '}';
    assert |a| == 7 + |r.target| && a[0] == '3' && a[1] == '0';
    forall k | 0 <= k < |a| - 1 && a[k] == 'n'
      ensures a[k + 1] != ' '
    {
      assert 4 <= k < 4 + |r.target|;
    }
  }

  lemma {:induction false} WordsOf(a: string, b: string, c: string)
    requires a != "" && b != "" && c != "" && NoSpace(a) && NoSpace(b) && NoSpace(c)
    ensures Words(a + (" " + (b + (" " + c)))) == [a, b, c]
  {
    assert IsSpace(' ') && Words("") == [];
    hide NoSpace, Words, IsSpace;
    WordsStep(a, " " + (b + (" " + c)));
    WordsSpace(' ', b + (" " + c));
    WordsStep(b, " " + c);
    WordsSpace(' ', c);
    WordsStep(c, "");
    assert c + "" == c;
  }

  lemma ActionWords(r: Rule)
    requires ValidRule(r) && NoSpace(r.target)
    ensures Words(Action(r)) == [r.code, r.target + ";", "}"]
  {
    assert NoSpace(r.code) && NoSpace(r.target + ";") && NoSpace("}");
    WordsOf(r.code, r.target + ";", "}");
    hide NoSpace, Words;
    assert r.target + ENDING == (r.target + ";") + (" " + "}");
  }

  function Front(source: string): string {
    LOCATION + source + OPENING
  }

  /** Before the action the word `return ` can only stand at the end of the source. */
  lemma ReturnBeforeAction(source: string, more: string, i: nat)
    requires ' ' !in source && i < |Front(source)| && OccursAt(Front(source) + more, RETURN, i)
    ensures EndsInReturn(source) && i == |source| + 5
  {
    var s, n := Front(source) + more, |source|;
    forall k | 0 <= k < 7
      ensures i + k < |s| && s[i + k] == RETURN[k]
    {
      OccursAtChar(s, RETURN, i, k);
    }
    assert |Front(source)| == n + 14;
    assert s[i] == 'r' && s[i + 1] == 'e' && s[i + 2] == 't' && s[i + 3] == 'u' && s[i + 4] == 'r' && s[i + 5] == 'n' &&
           s[i + 6] == ' ';
    FrontChars(source, more);
    hide Front;
    assert i + 6 == n + 11;
    assert i >= 11;
    forall k | 0 <= k < 6
      ensures source[n - 6 + k] == "return"[k]
    {
      assert s[i + k] == source[i + k - 11];
    }
    assert source[n - 6..] == "return";
  }

  lemma FrontChars(source: string, more: string)
    ensures var s, n := Front(source) + more, |source|;
            && |s| >= n + 14
            && s[2] == 'c' && s[8] == ' ' && s[9] == '=' && s[10] == ' '
            && s[n + 11] == ' ' && s[n + 12] == '{' && s[n + 13] == ' '
            && (forall k | 0 <= k < 8 :: s[k] != ' ')
            && forall k | 0 <= k < n :: s[11 + k] == source[k]
  {
  }

  lemma LineForms(r: Rule)
    ensures RuleLine(r) == Front(r.source) + RETURN + Action(r)
    ensures EndsInReturn(r.source) ==>
              RuleLine(r) == (LOCATION + r.source[..|r.source| - 6]) + RETURN + ("{ " + RETURN + Action(r))
  {
    if EndsInReturn(r.source) {
      var p := r.source[..|r.source| - 6];
      assert r.source == p + "return";
      hide Action;
      assert RuleLine(r) == LOCATION + (p + "return" + (OPENING + (RETURN + Action(r))));
    }
  }

  /** The text that is listed as the action of a rule. */
  lemma {:induction false} ActionListed(r: Rule)
    requires ValidRule(r)
    ensures var parts := Split(RuleLine(r), RETURN);
            && Contains(RuleLine(r), RETURN) && |parts| >= 2
            && (EndsInReturn(r.source) ==> parts[1] == "{ ")
            && (!EndsInReturn(r.source) && NoSpace(r.target) ==> parts[1] == Action(r))
  {
    LineForms(r);
    NoSpaceNoChar(r.source);
    ContainsAround(Front(r.source), RETURN, Action(r));
    if EndsInReturn(r.source) {
      SplitAtSource(r);
    } else {
      SplitAtAction(r);
    }
  }

  lemma SplitAtAction(r: Rule)
    requires ValidRule(r) && ' ' !in r.source && !EndsInReturn(r.source)
    ensures var parts := Split(Front(r.source) + RETURN + Action(r), RETURN);
            |parts| >= 2 && (NoSpace(r.target) ==> parts[1] == Action(r))
  {
    var front, more := Front(r.source), RETURN + Action(r);
    assert front + RETURN + Action(r) == front + more;
    hide Front, EndsInReturn;
    forall i | 0 <= i < |front|
      ensures !OccursAt(front + RETURN + Action(r), RETURN, i)
    {
      if OccursAt(front + RETURN + Action(r), RETURN, i) {
        ReturnBeforeAction(r.source, more, i);
      }
    }
    SplitHead(front, RETURN, Action(r));
    if NoSpace(r.target) {
      ActionQuiet(r);
      QuietHasNoReturn(Action(r));
      SplitNone(Action(r), RETURN);
    }
  }

  lemma {:induction false} SplitAtSource(r: Rule)
    requires ' ' !in r.source && EndsInReturn(r.source)
    ensures var parts := Split(RuleLine(r), RETURN); |parts| >= 2 && parts[1] == "{ "
  {
    LineForms(r);
    var front, more := LOCATION + r.source[..|r.source| - 6], "{ " + RETURN + Action(r);
    var line := RuleLine(r);
    assert line == Front(r.source) + (RETURN + Action(r));
    assert |front| == |r.source| + 5 && |Front(r.source)| == |r.source| + 14;
    hide Front, RuleLine, Action, EndsInReturn;
    forall i | 0 <= i < |front|
      ensures !OccursAt(front + RETURN + more, RETURN, i)
    {
      if OccursAt(front + RETURN + more, RETURN, i) {
        ReturnBeforeAction(r.source, RETURN + Action(r), i);
      }
    }
    SplitHead(front, RETURN, more);
    forall i | 0 <= i < 2
      ensures !OccursAt(more, RETURN, i)
    {
      if OccursAt(more, RETURN, i) {
        OccursAtChar(more, RETURN, i, 0);
      }
    }
    SplitHead("{ ", RETURN, Action(r));
  }

  lemma BraceWords()
    ensures Words("{ ") == ["{"]
  {
    assert NoSpace("{") && "{ " == "{" + " ";
    WordsStep("{", " ");
    WordsSpace(' ', "");
    assert [' '] + "" == " " && Words("") == [];
  }

  lemma TargetListed(target: string)
    requires target != "" && ';' !in target
    ensures TrimEndMatches(target + ";", ';') == target
  {
    assert (target + ";")[..|target|] == target;
    assert target[|target| - 1] in target;
  }

  lemma {:induction false} TrimEndMatchesPrefix(s: string, c: char)
    ensures TrimEndMatches(s, c) <= s
  {
    if s != "" && s[|s| - 1] == c {
      TrimEndMatchesPrefix(s[..|s| - 1], c);
    }
  }

  /** Whatever the line, a listed target has no whitespace in it. */
  lemma ListedTargetNoSpace(line: string)
    requires ListLine(line).Some?
    ensures NoSpace(ListLine(line).value.target)
  {
    var words := Words(Split(line, RETURN)[1]);
    assert words[1] in words;
    TrimEndMatchesPrefix(words[1], ';');
    hide Split, Words, IsSpace;
  }

  /** A rule is listed as itself if and only if its target has no whitespace and its source does not end in `return`. */
  lemma RuleListedExactly(r: Rule)
    requires ValidRule(r)
    ensures ListLine(RuleLine(r)) == Some(r) <==> NoSpace(r.target) && !EndsInReturn(r.source)
    ensures EndsInReturn(r.source) ==> ListLine(RuleLine(r)) == None
  {
    ActionListed(r);
    SourceListed(r);
    if ListLine(RuleLine(r)).Some? {
      ListedTargetNoSpace(RuleLine(r));
    }
    BraceWords();
    if !EndsInReturn(r.source) && NoSpace(r.target) {
      ActionWords(r);
      TargetListed(r.target);
    }
    hide Split, Words, RuleLine, Action, TrimEndMatches, Contains, EndsInReturn, NoSpace;
  }

  const SPACED := Rule("/a", "301", "/ b")
  const HIDDEN := Rule("/return", "301", "/new")

  lemma SpacedIsValid()
    ensures ValidRule(SPACED) && !NoSpace(SPACED.target)
  {
    assert SPACED.target[1] == ' ' && IsSpace(' ');
    assert SPACED.target[1] in SPACED.target;
  }

  lemma HiddenIsValid()
    ensures ValidRule(HIDDEN) && EndsInReturn(HIDDEN.source)
  {
    assert HIDDEN.source[1..] == "return";
  }

  /** A rule whose target has a space is accepted and not listed as it is. */
  lemma SpacedTargetExample()
    ensures ValidRule(SPACED) && ListLine(RuleLine(SPACED)) != Some(SPACED)
  {
    hide *;
    SpacedIsValid();
    RuleListedExactly(SPACED);
  }

  /** A rule whose source ends in `return` is accepted and not listed at all. */
  lemma HiddenSourceExample()
    ensures ValidRule(HIDDEN) && ListLine(RuleLine(HIDDEN)) == None
  {
    hide *;
    HiddenIsValid();
    RuleListedExactly(HIDDEN);
  }

  // ---- Removing rules ---------------------------------------------------------------------------------

  /** The rules whose source a removal asks for. */
  predicate Asked(r: Rule, source: string) {
    source + " " <= Tail(r)
  }

  lemma PrefixWord(a: string, b: string, x: string)
    requires ' ' !in a && ' ' !in b
    ensures a + " " <= b + " " + x <==> a == b
  {
    var t := b + " " + x;
    assert t[|b|] == ' ' && forall k | 0 <= k < |b| :: t[k] == b[k];
    if a + " " <= t {
      assert t[|a|] == (a + " ")[|a|] == ' ';
      assert forall k | 0 <= k < |a| :: t[k] == (a + " ")[k] == a[k];
      assert |a| == |b|;
      assert t[..|a|] == a && t[..|b|] == b;
    }
  }

  /** For a source without spaces these are exactly the rules with that source. */
  lemma AskedExactly(r: Rule, source: string)
    requires ValidRule(r) && ' ' !in source
    ensures Asked(r, source) <==> source == r.source
  {
    var more := "{ " + (RETURN + Action(r));
    assert Tail(r) == r.source + " " + more;
    NoSpaceNoChar(r.source);
    PrefixWord(source, r.source, more);
    hide Tail, Action, ValidRule;
  }

  /** In the front of a rule's line ` =` follows an n only once. */
  lemma FrontLocation(source: string, more: string, k: nat)
    requires ' ' !in source && k < |source| + 14 && k + 2 < |Front(source) + more|
    requires var s := Front(source) + more; s[k] == 'n' && s[k + 1] == ' ' && s[k + 2] == '='
    ensures k == 7
  {
    var s, n := Front(source) + more, |source|;
    FrontChars(source, more);
    hide Front;
    forall j | 11 <= j < n + 11
      ensures s[j] != ' '
    {
      assert s[11 + (j - 11)] == source[j - 11];
    }
    assert k + 1 < 11 || k + 1 >= n + 11;
  }

  /** The rules whose target holds what a removal looks for. */
  predicate Mentions(r: Rule, source: string) {
    Contains(r.target + ENDING, LOCATION + source + " ")
  }

  /** The rules that a removal takes out. */
  predicate Hit(r: Rule, source: string) {
    Asked(r, source) || Mentions(r, source)
  }

  /** A rule's line up to its target. */
  function UpToTarget(r: Rule): string {
    Front(r.source) + (RETURN + (r.code + " "))
  }

  lemma TargetForm(r: Rule)
    requires ValidRule(r)
    ensures RuleLine(r) == Front(r.source) + (RETURN + Action(r)) == UpToTarget(r) + (r.target + ENDING)
    ensures |Front(r.source)| == |r.source| + 14 && |UpToTarget(r)| == |r.source| + 25
    ensures ' ' !in r.source
  {
    LineForms(r);
    NoSpaceNoChar(r.source);
    assert |r.code| == 3;
    hide ValidRule, NoSpace;
  }

  lemma ActionChars(r: Rule)
    requires ValidRule(r)
    ensures var s := RETURN + Action(r);
            && |s| >= 11 && 'n' !in s[..5] && s[5] == 'n' && s[6] == ' ' && s[7] == '3' && s[8] == '0' &&
               s[9] in {'1', '2'} && s[10] == ' '
  {
  }

  /** The text from position `i` on, if there is such a position, spells `location = `. */
  predicate Spelled(s: string, i: int) {
    i + 11 <= |s| && forall j | i <= j < i + 11 && 0 <= j :: s[j] == LOCATION[j - i]
  }

  /** After the front of a rule's line `location = ` can only stand in the target. */
  lemma LateLocation(s: string, i: int)
    requires |s| >= 11 && 'n' !in s[..5] && s[5] == 'n' && s[6] == ' ' && s[7] == '3' && s[8] == '0' &&
             s[9] in {'1', '2'} && s[10] == ' '
    requires -7 <= i && Spelled(s, i)
    ensures i >= 11
  {
    assert LOCATION[7] == 'n' && LOCATION[8] == ' ' && LOCATION[9] == '=';
    assert s[i + 7] == 'n' && s[i + 8] == ' ' && s[i + 9] == '=';
    forall j | 0 <= j < 5
      ensures s[j] != 'n'
    {
      assert s[j] in s[..5];
    }
    assert forall k | 0 <= k < 8 :: LOCATION[k] != ' ';
    forall j | i <= j < i + 8 && 0 <= j
      ensures s[j] != ' '
    {
      assert s[j] == LOCATION[j - i];
    }
  }

  lemma OccursSpelled(s: string, more: string, i: nat)
    requires OccursAt(s, LOCATION + more, i)
    ensures Spelled(s, i) && i + 11 <= |s|
  {
    OccursAtChar(s, LOCATION + more, i, 10);
    forall j | i <= j < i + 11
      ensures s[j] == LOCATION[j - i]
    {
      OccursAtChar(s, LOCATION + more, i, j - i);
    }
  }

  lemma SpelledTail(front: string, tail: string, i: nat)
    requires Spelled(front + tail, i)
    ensures Spelled(tail, i - |front|)
  {
    forall j | i - |front| <= j < i - |front| + 11 && 0 <= j
      ensures tail[j] == LOCATION[j - (i - |front|)]
    {
      assert (front + tail)[|front| + j] == LOCATION[|front| + j - i];
    }
  }

  lemma SpelledMiddle(s: string, i: nat)
    requires Spelled(s, i)
    ensures i + 11 <= |s| && s[i + 7] == 'n' && s[i + 8] == ' ' && s[i + 9] == '='
  {
    assert LOCATION[7] == 'n' && LOCATION[8] == ' ' && LOCATION[9] == '=';
  }

  lemma LocationPlaces(r: Rule, more: string, i: nat)
    requires ValidRule(r) && OccursAt(RuleLine(r), LOCATION + more, i)
    ensures i == 0 || i >= |UpToTarget(r)|
  {
    hide *;
    TargetForm(r);
    ActionChars(r);
    var front, tail := Front(r.source), RETURN + Action(r);
    OccursSpelled(RuleLine(r), more, i);
    if i + 7 >= |front| {
      SpelledTail(front, tail, i);
      LateLocation(tail, i - |front|);
    } else {
      SpelledMiddle(RuleLine(r), i);
      FrontLocation(r.source, tail, i + 7);
    }
  }

  lemma MentionedIsNamed(r: Rule, source: string)
    requires ValidRule(r) && Mentions(r, source)
    ensures Names(RuleLine(r), source)
  {
    hide RuleLine, ValidRule, UpToTarget, Front, Action;
    var front, back, p := UpToTarget(r), r.target + ENDING, LOCATION + source + " ";
    TargetForm(r);
    var j :| 0 <= j <= |back| && OccursAt(back, p, j);
    OccursAtAfter(front, back, p, |front| + j);
    assert OccursAt(front + back, p, |front| + j);
  }

  lemma NamedIsHit(r: Rule, source: string, i: nat)
    requires ValidRule(r) && OccursAt(RuleLine(r), LOCATION + source + " ", i)
    ensures Hit(r, source)
  {
    var front, back, p := UpToTarget(r), r.target + ENDING, LOCATION + source + " ";
    assert p == LOCATION + (source + " ");
    hide RuleLine, ValidRule, UpToTarget, Front, Action, Asked;
    TargetForm(r);
    LocationPlaces(r, source + " ", i);
    AskedAtStart(r, source);
    if i >= |front| {
      OccursAtAfter(front, back, p, i);
      assert OccursAt(back, p, i - |front|);
    }
  }

  /** A removal matches a rule's line if and only if it asks for the rule's source or its text stands in the target. */
  lemma {:induction false} NamedExactly(r: Rule, source: string)
    requires ValidRule(r)
    ensures Names(RuleLine(r), source) <==> Hit(r, source)
  {
    hide RuleLine, ValidRule, Asked, Mentions, OccursAt;
    AskedAtStart(r, source);
    if Mentions(r, source) {
      MentionedIsNamed(r, source);
    }
    if Names(RuleLine(r), source) {
      var i :| 0 <= i <= |RuleLine(r)| && OccursAt(RuleLine(r), LOCATION + source + " ", i);
      NamedIsHit(r, source, i);
    }
  }

  lemma AskedAtStart(r: Rule, source: string)
    ensures Asked(r, source) <==> OccursAt(RuleLine(r), LOCATION + source + " ", 0)
  {
    var s, p := RuleLine(r), LOCATION + source + " ";
    assert p == LOCATION + (source + " ");
    assert s[0..] == s && s[11..] == Tail(r) && p[11..] == source + " ";
    hide RuleLine, Tail;
    if Asked(r, source) {
      assert Tail(r)[..|source| + 1] == source + " ";
      assert s[..11] == p[..11] == LOCATION;
      assert s[..|p|] == p;
    }
    if p <= s {
      assert p[11..] <= s[11..];
    }
  }

  lemma LocationInside(target: string, p: string, i: nat)
    requires OccursAt(target + ENDING, LOCATION + p, i)
    ensures Contains(target, LOCATION)
  {
    var s := target + ENDING;
    OccursSpelled(s, p, i);
    assert LOCATION[7] == 'n' && LOCATION[8] == ' ' && LOCATION[9] == '=' && LOCATION[10] == ' ';
    assert s[|target|] == ';' && s[|target| + 2] == '}' && |s| == |target| + 3;
    assert i + 10 < |target|;
    forall k | 0 <= k < 11
      ensures target[i..][k] == LOCATION[k]
    {
      assert s[i + k] == LOCATION[i + k - i];
    }
    assert target[i..][..11] == LOCATION;
    assert OccursAt(target, LOCATION, i);
  }

  /**
   A target without `location = ` stands in the way of no removal; with it there is a removal that takes the
   rule out without asking for it.
   */
  lemma MentionsExactly(r: Rule)
    requires ValidRule(r)
    ensures (forall source :: Hit(r, source) <==> Asked(r, source)) <==> !Contains(r.target, LOCATION)
  {
    if Contains(r.target, LOCATION) {
      var source := MentionedSource(r);
    } else {
      forall source
        ensures !Mentions(r, source)
      {
        if Mentions(r, source) {
          var s, p := r.target + ENDING, LOCATION + source + " ";
          var i :| 0 <= i <= |s| && OccursAt(s, p, i);
          assert p == LOCATION + (source + " ");
          LocationInside(r.target, source + " ", i);
        }
      }
    }
  }

  lemma CutAt(target: string, i: nat)
    requires OccursAt(target, LOCATION, i)
    ensures i + 11 <= |target| && target == target[..i] + LOCATION + target[i + 11..]
  {
    assert target[i..][..11] == LOCATION;
  }

  lemma MentionForm(r: Rule, front: string, rest: string)
    requires r.target == front + LOCATION + rest
    ensures Mentions(r, rest + ";")
  {
    var p := LOCATION + (rest + ";") + " ";
    assert ENDING == ";" + (" " + "}");
    hide Contains, LOCATION, ENDING;
    assert r.target + ENDING == front + p + "}";
    ContainsAround(front, p, "}");
  }

  lemma MentionedSource(r: Rule) returns (source: string)
    requires ValidRule(r) && Contains(r.target, LOCATION)
    ensures Mentions(r, source) && !Asked(r, source)
  {
    var i :| 0 <= i <= |r.target| && OccursAt(r.target, LOCATION, i);
    hide *;
    CutAt(r.target, i);
    source := r.target[i + 11..] + ";";
    MentionForm(r, r.target[..i], r.target[i + 11..]);
    ColonOnlyLast(r, source);
  }

  /** A request that ends in a semicolon asks for no rule unless it is longer than the rule's target. */
  lemma ColonOnlyLast(r: Rule, source: string)
    requires ValidRule(r) && source != "" && source[|source| - 1] == ';' && |source| <= |r.target| + 1
    ensures !Asked(r, source)
  {
    var tail, k := Tail(r), |source| - 1;
    assert |tail| > |r.target| + 1;
    assert tail == (r.source + OPENING + RETURN + r.code + " " + r.target) + ENDING;
    TailChar(r, k);
    assert (source + " ")[k] == ';' && tail[k] != ';';
  }

  lemma TailChar(r: Rule, j: nat)
    requires ValidRule(r) && j < |Tail(r)| - 3
    ensures Tail(r)[j] != ';'
  {
    var front := r.source + OPENING + RETURN + r.code + " " + r.target;
    assert Tail(r) == front + ENDING;
    assert ';' !in r.source && ';' !in OPENING && ';' !in RETURN && ';' !in r.code && ';' !in r.target;
    assert ';' !in front;
    assert front[j] in front;
  }

  // ---- Every run -----------------------------------------------------------------------------------------

  function RuleLines(rules: seq<Rule>): (r: seq<string>)
    ensures |r| == |rules| && forall i | 0 <= i < |rules| :: r[i] == RuleLine(rules[i])
  {
    if rules == [] then [] else [RuleLine(rules[0])] + RuleLines(rules[1..])
  }

  /** A blank line at the top, left by the removal of the last rule, and the rules. */
  function FileLines(blank: bool, rules: seq<Rule>): seq<string> {
    if blank then [""] + RuleLines(rules) else RuleLines(rules)
  }

  function FileText(blank: bool, rules: seq<Rule>): string {
    Unlines(FileLines(blank, rules))
  }

  predicate AllValid(rules: seq<Rule>) {
    forall i | 0 <= i < |rules| :: ValidRule(rules[i])
  }

  function Without(rules: seq<Rule>, source: string): seq<Rule> {
    if rules == [] then []
    else if Hit(rules[0], source) then Without(rules[1..], source)
    else [rules[0]] + Without(rules[1..], source)
  }

  /** The rules that are listed. */
  function Listed(rules: seq<Rule>): seq<Rule> {
    if rules == [] then []
    else if EndsInReturn(rules[0].source) then Listed(rules[1..])
    else [rules[0]] + Listed(rules[1..])
  }

  lemma PathClean(path: string)
    requires NoSpace(path)
    ensures Clean(path)
  {
    assert IsSpace('\n') && IsSpace('\r');
    hide IsSpace;
  }

  lemma RuleLineClean(r: Rule)
    requires ValidRule(r)
    ensures Clean(RuleLine(r)) && RuleLine(r) != ""
  {
    PathClean(r.source);
    assert Clean(LOCATION) && Clean(OPENING) && Clean(RETURN) && Clean(ENDING) && Clean(" ") && Clean(r.code);
    assert Clean(r.target);
    hide Clean, NoSpace, ValidRule;
    CleanConcat(r.target, ENDING);
    CleanConcat(" ", r.target + ENDING);
    CleanConcat(r.code, " " + (r.target + ENDING));
    CleanConcat(RETURN, Action(r));
    CleanConcat(OPENING, RETURN + Action(r));
    CleanConcat(r.source, OPENING + (RETURN + Action(r)));
    CleanConcat(LOCATION, Tail(r));
  }

  lemma {:induction false} FileLinesClean(blank: bool, rules: seq<Rule>)
    requires AllValid(rules)
    ensures AllClean(FileLines(blank, rules))
  {
    hide RuleLine, ValidRule, NoSpace;
    forall l | l in RuleLines(rules)
      ensures Clean(l)
    {
      var i :| 0 <= i < |rules| && RuleLines(rules)[i] == l;
      assert ValidRule(rules[i]);
      RuleLineClean(rules[i]);
    }
  }

  lemma RuleLinesCons(r: Rule, rules: seq<Rule>)
    ensures RuleLines([r] + rules) == [RuleLine(r)] + RuleLines(rules)
  {
    hide RuleLine;
    assert ([r] + rules)[1..] == rules;
  }

  lemma {:induction false} KeepRules(rules: seq<Rule>, source: string)
    requires AllValid(rules)
    ensures KeepOthers(RuleLines(rules), source) == RuleLines(Without(rules, source))
  {
    if rules == [] {
    } else {
      NamedExactly(rules[0], source);
      KeepRules(rules[1..], source);
      RuleLinesCons(rules[0], Without(rules[1..], source));
      hide RuleLine, Names, Hit, ValidRule;
      assert RuleLines(rules)[1..] == RuleLines(rules[1..]);
    }
  }

  lemma KeepFileLines(blank: bool, rules: seq<Rule>, source: string)
    requires AllValid(rules)
    ensures KeepOthers(FileLines(blank, rules), source) == FileLines(blank, Without(rules, source))
  {
    KeepRules(rules, source);
    NotContainsChar("", LOCATION + source + " ", 0);
    hide RuleLines, Without, AllValid;
    assert ([""] + RuleLines(rules))[1..] == RuleLines(rules);
  }

  /** A removal takes out exactly the rules it matches, and may leave a blank line in an empty file. */
  lemma {:induction false} RemovalExactly(blank: bool, rules: seq<Rule>, source: string)
    requires AllValid(rules) && source != ""
    ensures var left := Without(rules, source);
            RemoveRedirect(FileText(blank, rules), source) == FileText(blank || left == [], left)
  {
    var left := Without(rules, source);
    FileLinesClean(blank, rules);
    LinesOfUnlines(FileLines(blank, rules));
    KeepFileLines(blank, rules, source);
    hide Lines, KeepOthers, Without, AllValid;
    if FileLines(blank, left) == [] {
      assert FileText(true, []) == "\n" by { BlankFile(); }
      assert Join([], "\n") == "";
    } else {
      JoinThenNewline(FileLines(blank, left));
      hide Unlines, Join;
    }
  }

  lemma BlankFile()
    ensures FileText(true, []) == "\n"
  {
    assert FileLines(true, []) == [""];
    assert Unlines([""]) == "" + "\n" + Unlines([""][1..]);
  }

  lemma {:induction false} RuleLinesSnoc(rules: seq<Rule>, r: Rule)
    ensures RuleLines(rules + [r]) == RuleLines(rules) + [RuleLine(r)]
  {
    hide RuleLine;
    if rules == [] {
      assert rules + [r] == [r] && [r][1..] == [];
    } else {
      assert (rules + [r])[1..] == rules[1..] + [r];
      RuleLinesSnoc(rules[1..], r);
    }
  }

  lemma FileLinesSnoc(blank: bool, rules: seq<Rule>, r: Rule)
    ensures FileLines(blank, rules + [r]) == FileLines(blank, rules) + [RuleLine(r)]
  {
    RuleLinesSnoc(rules, r);
    hide RuleLine, RuleLines;
  }

  lemma AppendLine(ls: seq<string>, l: string)
    ensures Unlines(ls + [l]) == Unlines(ls) + l + "\n"
  {
    UnlinesAppend(ls, [l]);
    UnlinesOne(l);
    hide Unlines;
    assert Unlines(ls) + (l + "\n") == Unlines(ls) + l + "\n";
  }

  /** An accepted rule is appended; a refused or rolled-back one changes nothing. */
  lemma {:induction false} AdditionExactly(blank: bool, rules: seq<Rule>, r: Rule, tested: bool)
    ensures AddRedirect(FileText(blank, rules), r, tested)
         == FileText(blank, if ValidRule(r) && tested then rules + [r] else rules)
  {
    hide RuleLine, FileLines, Unlines, ValidRule;
    FileLinesSnoc(blank, rules, r);
    AppendLine(FileLines(blank, rules), RuleLine(r));
  }

  lemma UnlinesOne(l: string)
    ensures Unlines([l]) == l + "\n"
  {
    assert [l][1..] == [] && Unlines([]) == "";
  }

  /** A rule that is listed as itself. */
  predicate Shown(r: Rule) {
    NoSpace(r.target) && !EndsInReturn(r.source)
  }

  predicate AllShown(rules: seq<Rule>) {
    forall i | 0 <= i < |rules| :: Shown(rules[i])
  }

  predicate PlainTargets(rules: seq<Rule>) {
    forall i | 0 <= i < |rules| :: NoSpace(rules[i].target)
  }

  lemma ListLinesStep(rules: seq<Rule>)
    requires rules != [] && |ListLines(RuleLines(rules[1..]))| < |rules|
    ensures var all, read, more := ListLines(RuleLines(rules)), ListLine(RuleLine(rules[0])),
            ListLines(RuleLines(rules[1..]));
            && |all| <= |rules|
            && (all == rules <==> read == Some(rules[0]) && more == rules[1..])
            && (read == None ==> all == more)
            && (read == Some(rules[0]) ==> all == [rules[0]] + more)
  {
    hide ListLine, RuleLine;
    assert RuleLines(rules)[1..] == RuleLines(rules[1..]);
    var read, more := ListLine(RuleLine(rules[0])), ListLines(RuleLines(rules[1..]));
    OneMore(read, more, rules[0], rules[1..]);
    assert [] + more == more && rules == [rules[0]] + rules[1..];
  }

  lemma AllShownCons(rules: seq<Rule>)
    requires rules != []
    ensures AllShown(rules) <==> Shown(rules[0]) && AllShown(rules[1..])
  {
    hide Shown;
    assert forall i | 1 <= i < |rules| :: rules[i] == rules[1..][i - 1];
  }

  lemma ListedCons(rules: seq<Rule>)
    requires rules != []
    ensures PlainTargets(rules) <==> NoSpace(rules[0].target) && PlainTargets(rules[1..])
    ensures Listed(rules) ==
            if EndsInReturn(rules[0].source) then Listed(rules[1..]) else [rules[0]] + Listed(rules[1..])
  {
    hide NoSpace, EndsInReturn;
    assert forall i | 1 <= i < |rules| :: rules[i] == rules[1..][i - 1];
  }

  lemma RuleShownExactly(r: Rule)
    requires ValidRule(r)
    ensures ListLine(RuleLine(r)) == Some(r) <==> Shown(r)
    ensures NoSpace(r.target) ==> ListLine(RuleLine(r)) == if EndsInReturn(r.source) then None else Some(r)
  {
    RuleListedExactly(r);
    hide ListLine, RuleLine, NoSpace, EndsInReturn, ValidRule;
  }

  lemma NothingListed()
    ensures ListLines(RuleLines([])) == [] == Listed([]) && AllShown([])
  {
  }

  lemma {:induction false} ListRules(rules: seq<Rule>)
    requires AllValid(rules)
    ensures |ListLines(RuleLines(rules))| <= |rules|
    ensures ListLines(RuleLines(rules)) == rules <==> AllShown(rules)
    ensures PlainTargets(rules) ==> ListLines(RuleLines(rules)) == Listed(rules)
  {
    if rules == [] {
      NothingListed();
    } else {
      assert ValidRule(rules[0]) && AllValid(rules[1..]);
      hide *;
      RuleShownExactly(rules[0]);
      ListRules(rules[1..]);
      ListLinesStep(rules);
      AllShownCons(rules);
      ListedCons(rules);
    }
  }

  lemma BlankNotListed()
    ensures ListLine("") == None
  {
    NotContainsChar("", RETURN, 0);
  }

  lemma ListsRules(blank: bool, rules: seq<Rule>)
    requires AllValid(rules)
    ensures ListRedirects(FileText(blank, rules)) == ListLines(RuleLines(rules))
  {
    FileLinesClean(blank, rules);
    LinesOfUnlines(FileLines(blank, rules));
    BlankNotListed();
    hide Lines, Unlines, RuleLines, ListLine, AllValid;
    assert ([""] + RuleLines(rules))[1..] == RuleLines(rules);
  }

  /**
   All rules are listed as they are, in order, if and only if no target has whitespace and no source ends in
   `return`; with whitespace-free targets exactly the rules with such a source are missing.
   */
  lemma {:induction false} ListedExactly(blank: bool, rules: seq<Rule>)
    requires AllValid(rules)
    ensures ListRedirects(FileText(blank, rules)) == rules <==> AllShown(rules)
    ensures PlainTargets(rules) ==> ListRedirects(FileText(blank, rules)) == Listed(rules)
  {
    hide *;
    ListsRules(blank, rules);
    ListRules(rules);
  }

  datatype Op = Add(rule: Rule, tested: bool) | Remove(source: string)

  function Apply(content: string, op: Op): string {
    match op
    case Add(r, tested) => AddRedirect(content, r, tested)
    case Remove(source) => RemoveRedirect(content, source)
  }

  function ApplyAll(content: string, ops: seq<Op>): string
    decreases |ops|
  {
    if ops == [] then content else ApplyAll(Apply(content, ops[0]), ops[1..])
  }

  /** The same operation on the list of rules. */
  function RulesAfter(rules: seq<Rule>, op: Op): seq<Rule> {
    match op
    case Add(r, tested) => if ValidRule(r) && tested then rules + [r] else rules
    case Remove(source) => if source == "" then rules else Without(rules, source)
  }

  function RulesAfterAll(rules: seq<Rule>, ops: seq<Op>): seq<Rule>
    decreases |ops|
  {
    if ops == [] then rules else RulesAfterAll(RulesAfter(rules, ops[0]), ops[1..])
  }

  lemma {:induction false} WithoutValid(rules: seq<Rule>, source: string)
    requires AllValid(rules)
    ensures AllValid(Without(rules, source))
  {
    if rules == [] {
    } else {
      WithoutValid(rules[1..], source);
      hide ValidRule, Hit;
    }
  }

  lemma AddKeepsValid(rules: seq<Rule>, r: Rule, tested: bool)
    requires AllValid(rules)
    ensures AllValid(RulesAfter(rules, Add(r, tested)))
  {
    hide ValidRule;
  }

  lemma StepRefines(blank: bool, rules: seq<Rule>, op: Op) returns (after: bool)
    requires AllValid(rules)
    ensures AllValid(RulesAfter(rules, op))
    ensures Apply(FileText(blank, rules), op) == FileText(after, RulesAfter(rules, op))
  {
    hide AllValid, ValidRule, FileText, Without, AddRedirect, RemoveRedirect;
    after := blank;
    match op
    case Add(r, tested) =>
      AdditionExactly(blank, rules, r, tested);
      AddKeepsValid(rules, r, tested);
    case Remove(source) =>
      if source == "" {
        RemoveNothing(FileText(blank, rules));
      } else {
        WithoutValid(rules, source);
        RemovalExactly(blank, rules, source);
        after := blank || Without(rules, source) == [];
      }
  }

  lemma RemoveNothing(content: string)
    ensures RemoveRedirect(content, "") == content
  {
  }

  /**
   Over every run of additions (refused and rolled-back ones included) and removals of any text: the file is
   byte for byte the rules that the same run makes of the list, after at most one blank line, and it is listed
   as that list if and only if no target has whitespace and no source ends in `return`.
   */
  lemma {:induction false} RunRefinesRules(blank: bool, rules: seq<Rule>, ops: seq<Op>) returns (after: bool)
    requires AllValid(rules)
    ensures var file, end := ApplyAll(FileText(blank, rules), ops), RulesAfterAll(rules, ops);
            && AllValid(end)
            && file == FileText(after, end)
            && (ListRedirects(file) == end <==> AllShown(end))
            && (PlainTargets(end) ==> ListRedirects(file) == Listed(end))
    decreases |ops|
  {
    hide AllValid, FileText, Apply, RulesAfter, ListRedirects, Listed, AllShown, PlainTargets;
    if ops == [] {
      after := blank;
      ListedExactly(blank, rules);
    } else {
      var mid := StepRefines(blank, rules, ops[0]);
      after := RunRefinesRules(mid, RulesAfter(rules, ops[0]), ops[1..]);
    }
  }

  /**
   A new site has no redirects file, which reads as an empty one: every run on it refines the list it makes of
   nothing.
   */
  lemma {:induction false} NewSiteRefinesRules(ops: seq<Op>) returns (blank: bool)
    ensures ApplyAll("", ops) == FileText(blank, RulesAfterAll([], ops))
    ensures ListRedirects(ApplyAll("", ops)) == RulesAfterAll([], ops) <==> AllShown(RulesAfterAll([], ops))
  {
    assert FileText(false, []) == "" && AllValid([]);
    hide *;
    blank := RunRefinesRules(false, [], ops);
  }

  // ---- A rule, written out -----------------------------------------------------------------------------------

  /** What an accepted addition appends, of either kind. */
  lemma RuleWritten(content: string, r: Rule)
    requires ValidRule(r)
    ensures AddRedirect(content, r, true)
         == content + ("location = " + r.source + " { return " + r.code + " " + r.target + "; }\n")
  {
    assert RuleLine(r) + "\n" == "location = " + r.source + " { return " + r.code + " " + r.target + "; }\n";
    hide RuleLine, ValidRule;
    assert content + RuleLine(r) + "\n" == content + (RuleLine(r) + "\n");
  }

  /**
   A rule is accepted if and only if its kind is 301 or 302, its source starts with a slash and has no whitespace,
   semicolon or brace, and its target is not empty and has no line end, semicolon or brace.
   */
  lemma AcceptedExactly(content: string, r: Rule)
    ensures AddRedirect(content, r, true) != content <==>
              && r.code in {"301", "302"}
              && r.source != "" && r.source[0] as int == 47 && r.target != ""
              && (forall i | 0 <= i < |r.source| :: r.source[i] as int !in {59, 123, 125} && !IsSpace(r.source[i]))
              && forall i | 0 <= i < |r.target| :: r.target[i] as int !in {10, 13, 59, 123, 125}
  {
    SourceByCode(r.source);
    TargetByCode(r.target);
    assert |AddRedirect(content, r, true)| > |content| || AddRedirect(content, r, true) == content;
    assert ValidRule(r) <==> AddRedirect(content, r, true) != content;
    hide NoSpace, IsSpace, Clean, RuleLine;
  }

  lemma SourceByCode(s: string)
    ensures (NoSpace(s) && ';' !in s && '{' !in s && '}' !in s) <==>
              forall i | 0 <= i < |s| :: s[i] as int !in {59, 123, 125} && !IsSpace(s[i])
  {
    hide IsSpace;
  }

  lemma TargetByCode(s: string)
    ensures (Clean(s) && ';' !in s && '{' !in s && '}' !in s) <==>
              forall i | 0 <= i < |s| :: s[i] as int !in {10, 13, 59, 123, 125}
  {
  }

  // ---- A line written by hand ---------------------------------------------------------------------------------

  lemma {:induction false} SplitAtReturn(front: string, action: string)
    requires 'r' !in front && 'r' !in action
    ensures Split(front + RETURN + action, RETURN) == [front, action]
  {
    var line := front + RETURN + action;
    assert RETURN[0] == 'r';
    forall i | 0 <= i < |front|
      ensures !OccursAt(line, RETURN, i)
    {
      assert line[i] == front[i] && front[i] in front;
      Mismatch(line, RETURN, i, 0);
    }
    NotContainsChar(action, RETURN, 0);
    hide Split;
    SplitHead(front, RETURN, action);
    SplitNone(action, RETURN);
  }

  lemma HandListed(line: string, action: string)
    requires 'r' !in action && line == "location = /a " + RETURN + action
    ensures ListLine(line) ==
              if |Words(action)| < 2 then None
              else Some(Rule("/a", Words(action)[0], TrimEndMatches(Words(action)[1], ';')))
  {
    var front := "location = /a ";
    assert 'r' !in front;
    ContainsAround(front, RETURN, action);
    HandSource(action);
    SplitAtReturn(front, action);
    hide Split, Words, Contains, TrimEndMatches, RETURN, LOCATION;
  }

  /** A rule on a line without braces is listed if the line gives a kind and a target; one without a target is not. */
  lemma HandWritten(code: string, target: string)
    requires code != "" && target != "" && NoSpace(code) && NoSpace(target) && 'r' !in code && 'r' !in target
    ensures ListLine("location = /a " + "return " + (code + " " + target))
         == Some(Rule("/a", code, TrimEndMatches(target, ';')))
    ensures ListLine("location = /a " + "return " + code) == None
  {
    assert RETURN == "return " && 'r' !in code + " " + target;
    hide *;
    HandWords(code, target);
    HandListed("location = /a " + RETURN + (code + " " + target), code + " " + target);
    HandListed("location = /a " + RETURN + code, code);
  }

  lemma HandSource(action: string)
    ensures var parts := Split("location = /a " + RETURN + action, LOCATION);
            |parts| >= 2 && Split(parts[1], " ")[0] == "/a"
  {
    var more := RETURN + action;
    var tail := "/a" + " " + more;
    assert more[0] == 'r';
    assert "location = /a " + RETURN + action == "" + LOCATION + tail;
    SplitHead("", LOCATION, tail);
    hide Split;
    forall i | 0 <= i <= 2
      ensures !OccursAt(tail, LOCATION, i)
    {
      NoLocationInSource("/a", more, i);
    }
    assert "/a" + " " <= tail;
    FirstWord(tail, LOCATION, "/a");
    assert ([""] + Split(tail, LOCATION))[1] == Split(tail, LOCATION)[0];
  }

  lemma HandWords(code: string, target: string)
    requires code != "" && target != "" && NoSpace(code) && NoSpace(target)
    ensures Words(code) == [code] && Words(code + " " + target) == [code, target]
  {
    assert IsSpace(' ') && code + "" == code && target + "" == target && Words("") == [];
    assert code + " " + target == code + (" " + target);
    hide IsSpace, NoSpace, Word;
    WordsStep(code, "");
    WordsStep(target, "");
    WordsStep(code, " " + target);
    WordsSpace(' ', target);
  }
}
