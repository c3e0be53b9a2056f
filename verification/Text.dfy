/**
 Strings as the panel's Rust code sees them: substring search, `lines`, `split`,
 `trim`, `join` and `filter`, each with the laws the file formats rely on.
 */
module Text {

  datatype Option<+T> = None | Some(value: T)

  datatype Result<+T, +E> = Ok(value: T) | Err(error: E)

  /** The characters with the Unicode property White_Space, which `trim` removes. */
  predicate IsSpace(c: char) {
    var n := c as int;
    9 <= n <= 13 || n == 32 || n == 0x85 || n == 0xA0 || n == 0x1680 || 0x2000 <= n <= 0x200A
    || n == 0x2028 || n == 0x2029 || n == 0x202F || n == 0x205F || n == 0x3000
  }

  /** Unicode general category Cc. */
  predicate IsControl(c: char) {
    var n := c as int;
    n < 32 || 127 <= n < 160
  }

  predicate NoSpace(s: string) {
    forall c <- s :: !IsSpace(c)
  }

  lemma Associative(a: string, b: string, c: string)
    ensures a + (b + c) == a + b + c
  {
  }

  lemma NoSpaceNoChar(s: string)
    requires NoSpace(s)
    ensures ' ' !in s
  {
    assert IsSpace(' ');
  }

  // ---- Substrings ---------------------------------------------------------

  predicate OccursAt(s: string, p: string, i: int) {
    0 <= i <= |s| && p <= s[i..]
  }

  predicate Contains(s: string, p: string) {
    exists i | 0 <= i <= |s| :: OccursAt(s, p, i)
  }

  lemma OccursInTail(s: string, p: string)
    requires s != [] && !(p <= s)
    ensures forall j | 0 < j <= |s| :: OccursAt(s, p, j) <==> OccursAt(s[1..], p, j - 1)
    ensures !OccursAt(s, p, 0)
    ensures Contains(s, p) <==> Contains(s[1..], p)
  {
    forall j | 0 < j <= |s|
      ensures OccursAt(s, p, j) <==> OccursAt(s[1..], p, j - 1)
    {
      assert s[j..] == s[1..][j - 1..];
    }
    assert s[0..] == s;
    if Contains(s[1..], p) {
      var j :| 0 <= j <= |s[1..]| && OccursAt(s[1..], p, j);
      assert OccursAt(s, p, j + 1);
    }
    if Contains(s, p) {
      var j :| 0 <= j <= |s| && OccursAt(s, p, j);
      assert OccursAt(s[1..], p, j - 1);
    }
  }

  /** `str::find`: the first position at which `p` occurs. */
  function Find(s: string, p: string): (r: Option<nat>)
    ensures r.Some? ==> OccursAt(s, p, r.value) && forall j | 0 <= j < r.value :: !OccursAt(s, p, j)
    ensures r.None? <==> !Contains(s, p)
  {
    if p <= s then
      assert OccursAt(s, p, 0);
      Some(0)
    else if s == [] then
      None
    else
      OccursInTail(s, p);
      match Find(s[1..], p)
      case None => None
      case Some(i) => Some(i + 1)
  }

  lemma FindIs(s: string, p: string, i: nat)
    requires OccursAt(s, p, i)
    requires forall j | 0 <= j < i :: !OccursAt(s, p, j)
    ensures Find(s, p) == Some(i)
  {
  }

  lemma ContainsAround(a: string, p: string, b: string)
    ensures Contains(a + p + b, p)
  {
    assert (a + p + b)[|a|..] == p + b;
    assert OccursAt(a + p + b, p, |a|);
  }

  lemma OccursAtChar(s: string, p: string, i: int, k: nat)
    requires OccursAt(s, p, i) && k < |p|
    ensures i + k < |s| && s[i + k] == p[k]
  {
    assert s[i..][k] == p[k];
  }

  lemma OccursAtWithin(a: string, b: string, p: string, i: nat)
    requires i + |p| <= |a|
    ensures OccursAt(a + b, p, i) <==> OccursAt(a, p, i)
  {
    assert (a + b)[i..] == a[i..] + b;
  }

  lemma OccursAtAfter(a: string, b: string, p: string, i: nat)
    requires |a| <= i
    ensures OccursAt(a + b, p, i) <==> OccursAt(b, p, i - |a|)
  {
    if i <= |a + b| {
      assert (a + b)[i..] == b[i - |a|..];
    }
  }

  /** Occurrences in a concatenation lie in one part, or run over the seam. */
  lemma ContainsConcat(a: string, b: string, p: string)
    requires forall i | 0 <= i < |a| && |a| < i + |p| :: !OccursAt(a + b, p, i)
    ensures Contains(a + b, p) <==> Contains(a, p) || Contains(b, p)
  {
    if i :| 0 <= i <= |a + b| && OccursAt(a + b, p, i) {
      if i + |p| <= |a| {
        OccursAtWithin(a, b, p, i);
        assert OccursAt(a, p, i);
      } else if |a| <= i {
        OccursAtAfter(a, b, p, i);
        assert OccursAt(b, p, i - |a|);
      }
    }
    if i :| 0 <= i <= |a| && OccursAt(a, p, i) {
      OccursAtWithin(a, b, p, i);
      assert OccursAt(a + b, p, i);
    }
    if i :| 0 <= i <= |b| && OccursAt(b, p, i) {
      OccursAtAfter(a, b, p, i + |a|);
      assert OccursAt(a + b, p, i + |a|);
    }
  }

  /** A pattern with a character that `s` lacks does not occur in `s`. */
  lemma NotContainsChar(s: string, p: string, k: nat)
    requires k < |p| && p[k] !in s
    ensures !Contains(s, p)
  {
    forall i | 0 <= i <= |s|
      ensures !OccursAt(s, p, i)
    {
      if OccursAt(s, p, i) {
        OccursAtChar(s, p, i, k);
      }
    }
  }

  lemma ContainsIn(s: string, p: string, q: string)
    requires Contains(s, p) && Contains(p, q)
    ensures Contains(s, q)
  {
    var i :| 0 <= i <= |s| && OccursAt(s, p, i);
    var j :| 0 <= j <= |p| && OccursAt(p, q, j);
    assert s[i..][..|p|] == p;
    assert q == p[j..][..|q|];
    assert s[i + j..][..|q|] == q;
    assert OccursAt(s, q, i + j);
  }

  // ---- Split --------------------------------------------------------------

  /** `str::split` with a non-empty separator. */
  function Split(s: string, sep: string): (parts: seq<string>)
    requires sep != []
    ensures parts != []
    decreases |s|
  {
    match Find(s, sep)
    case None => [s]
    case Some(i) => [s[..i]] + Split(s[i + |sep|..], sep)
  }

  lemma SplitHead(a: string, sep: string, b: string)
    requires sep != []
    requires forall i | 0 <= i < |a| :: !OccursAt(a + sep + b, sep, i)
    ensures Split(a + sep + b, sep) == [a] + Split(b, sep)
  {
    var s := a + sep + b;
    assert s[|a|..] == sep + b;
    FindIs(s, sep, |a|);
    assert s[..|a|] == a && s[|a| + |sep|..] == b;
  }

  /** Splitting at a character that does not occur in the first part. */
  lemma SplitAtChar(a: string, c: char, b: string)
    requires c !in a
    ensures Split(a + [c] + b, [c]) == [a] + Split(b, [c])
  {
    var s := a + [c] + b;
    forall i | 0 <= i < |a|
      ensures !OccursAt(s, [c], i)
    {
      assert s[i..][0] == a[i];
      assert a[i] in a;
    }
    SplitHead(a, [c], b);
  }

  lemma SplitNone(s: string, sep: string)
    requires sep != [] && !Contains(s, sep)
    ensures Split(s, sep) == [s]
  {
  }

  // ---- Trim and words -----------------------------------------------------

  function TrimStart(s: string): (t: string)
    ensures t == [] || !IsSpace(t[0])
    ensures |t| <= |s|
  {
    if s != [] && IsSpace(s[0]) then TrimStart(s[1..]) else s
  }

  function TrimEnd(s: string): (t: string)
    ensures t <= s && (t == [] || !IsSpace(t[|t| - 1]))
  {
    if s != [] && IsSpace(s[|s| - 1]) then TrimEnd(s[..|s| - 1]) else s
  }

  function Trim(s: string): string {
    TrimEnd(TrimStart(s))
  }

  predicate Trimmed(s: string) {
    s != [] ==> !IsSpace(s[0]) && !IsSpace(s[|s| - 1])
  }

  lemma TrimOfTrimmed(s: string)
    requires Trimmed(s)
    ensures Trim(s) == s
  {
  }

  lemma {:induction false} TrimStartWithin(s: string, c: char)
    requires c !in s
    ensures c !in TrimStart(s)
  {
    if s == [] || !IsSpace(s[0]) {
    } else {
      TrimStartWithin(s[1..], c);
    }
  }

  lemma {:induction false} TrimWithin(s: string, c: char)
    requires c !in s
    ensures c !in Trim(s)
  {
    TrimStartWithin(s, c);
    assert Trim(s) <= TrimStart(s);
  }

  lemma TrimStartSpaces(pad: string, s: string)
    requires forall c <- pad :: IsSpace(c)
    ensures TrimStart(pad + s) == TrimStart(s)
  {
    if pad == [] {
      assert pad + s == s;
    } else {
      assert (pad + s)[1..] == pad[1..] + s;
      TrimStartSpaces(pad[1..], s);
    }
  }

  lemma TrimPaddedEnd(s: string)
    requires Trimmed(s)
    ensures Trim(s + " ") == s && Trim(" " + s) == s
  {
    assert (s + " ")[..|s|] == s && (s + " ")[|s|] == ' ';
    assert (" " + s)[1..] == s;
    if s == [] {
      assert TrimStart(" ") == TrimStart(" "[1..]);
      assert s + " " == " " == " " + s;
    } else {
      assert TrimStart(s + " ") == s + " ";
      assert TrimEnd(s + " ") == TrimEnd(s);
      assert TrimStart(" " + s) == TrimStart(s);
    }
  }

  /** `trim_end_matches` with one character. */
  function TrimEndMatches(s: string, c: char): string {
    if s != [] && s[|s| - 1] == c then TrimEndMatches(s[..|s| - 1], c) else s
  }

  /** The longest prefix without whitespace. */
  function Word(s: string): (w: string)
    ensures w <= s && NoSpace(w)
    ensures |w| < |s| ==> IsSpace(s[|w|])
  {
    if s == [] || IsSpace(s[0]) then [] else [s[0]] + Word(s[1..])
  }

  /** `split_whitespace`: the maximal runs of characters that are not whitespace. */
  function Words(s: string): (ws: seq<string>)
    ensures forall w <- ws :: w != [] && NoSpace(w)
    decreases |s|
  {
    var t := TrimStart(s);
    if t == [] then [] else [Word(t)] + Words(t[|Word(t)|..])
  }

  lemma WordNone(rest: string)
    requires rest == [] || IsSpace(rest[0])
    ensures Word(rest) == []
  {
  }

  lemma {:induction false} WordPrefix(w: string, rest: string)
    requires NoSpace(w) && (rest == [] || IsSpace(rest[0]))
    ensures Word(w + rest) == w
  {
    if w == [] {
      hide *;
      WordNone(rest);
      assert w + rest == rest;
    } else {
      assert w[0] in w && !IsSpace(w[0]);
      hide *;
      WordCons(w[0], w[1..] + rest);
      NoSpaceTail(w);
      WordPrefix(w[1..], rest);
      assert w + rest == [w[0]] + (w[1..] + rest);
      assert w == [w[0]] + w[1..];
    }
  }

  lemma NoSpaceTail(w: string)
    requires w != [] && NoSpace(w)
    ensures NoSpace(w[1..])
  {
    assert forall c <- w[1..] :: c in w;
  }

  lemma WordCons(c: char, s: string)
    requires !IsSpace(c)
    ensures Word([c] + s) == [c] + Word(s)
  {
    hide IsSpace;
    assert ([c] + s)[1..] == s;
  }

  lemma WordsStep(w: string, rest: string)
    requires w != [] && NoSpace(w) && (rest == [] || IsSpace(rest[0]))
    ensures Words(w + rest) == [w] + Words(rest)
  {
    WordPrefix(w, rest);
    assert TrimStart(w + rest) == w + rest;
    assert (w + rest)[|w|..] == rest;
  }

  lemma WordsSpace(c: char, s: string)
    requires IsSpace(c)
    ensures Words([c] + s) == Words(s)
  {
    assert ([c] + s)[1..] == s;
    assert TrimStart([c] + s) == TrimStart(s);
  }

  // ---- Join, lines, filter ------------------------------------------------

  /** `[String]::join`. */
  function Join(parts: seq<string>, sep: string): string {
    if parts == [] then ""
    else if |parts| == 1 then parts[0]
    else parts[0] + sep + Join(parts[1..], sep)
  }

  lemma JoinFirst(a: string, parts: seq<string>, sep: string)
    requires parts != []
    ensures Join([a] + parts, sep) == a + sep + Join(parts, sep)
  {
    assert ([a] + parts)[1..] == parts;
  }

  /** Every line followed by a line feed. */
  function Unlines(ls: seq<string>): (t: string)
    ensures t == [] || t[|t| - 1] == '\n'
  {
    if ls == [] then [] else ls[0] + "\n" + Unlines(ls[1..])
  }

  function StripCr(l: string): string {
    if l != [] && l[|l| - 1] == '\r' then l[..|l| - 1] else l
  }

  /** `str::lines`: pieces ended by LF or CR LF; a final unterminated piece is kept as it is. */
  function Lines(s: string): seq<string>
    decreases |s|
  {
    if s == [] then []
    else
      match Find(s, "\n")
      case None => [s]
      case Some(i) => [StripCr(s[..i])] + Lines(s[i + 1..])
  }

  /** A line that survives being written and read back. */
  predicate Clean(l: string) {
    '\n' !in l && '\r' !in l
  }

  lemma CleanConcat(a: string, b: string)
    requires Clean(a) && Clean(b)
    ensures Clean(a + b)
  {
  }

  predicate AllClean(ls: seq<string>) {
    forall l <- ls :: Clean(l)
  }

  /** A text that is empty or whose last line is terminated. */
  predicate Terminated(t: string) {
    t == [] || t[|t| - 1] == '\n'
  }

  lemma LineEnds(line: string)
    ensures Terminated(line + "\n")
  {
  }

  lemma FindNewline(l: string, rest: string)
    requires '\n' !in l
    ensures Find(l + "\n" + rest, "\n") == Some(|l|)
  {
    var s := l + "\n" + rest;
    assert s[|l|..] == "\n" + rest;
    forall j | 0 <= j < |l|
      ensures !OccursAt(s, "\n", j)
    {
      assert s[j..][0] == l[j];
      assert l[j] in l;
    }
    FindIs(s, "\n", |l|);
  }

  lemma LinesCons(l: string, rest: string)
    requires '\n' !in l
    ensures Lines(l + "\n" + rest) == [StripCr(l)] + Lines(rest)
  {
    var s := l + "\n" + rest;
    FindNewline(l, rest);
    assert s[..|l|] == l && s[|l| + 1..] == rest;
  }

  lemma LinesLast(l: string)
    requires '\n' !in l && l != []
    ensures Lines(l) == [l]
  {
    NotContainsChar(l, "\n", 0);
  }

  /** Either a text has no line feed, or it is a first line and a rest. */
  lemma FirstLine(t: string) returns (l: string, rest: string)
    requires '\n' in t
    ensures '\n' !in l && t == l + "\n" + rest
  {
    var i := 0;
    while t[i] != '\n'
      invariant 0 <= i < |t| && '\n' !in t[..i] && '\n' in t[i..]
      decreases |t| - i
    {
      i := i + 1;
    }
    l, rest := t[..i], t[i + 1..];
    assert t == t[..i] + [t[i]] + t[i + 1..];
  }

  lemma {:induction false} LinesClean(t: string)
    requires '\r' !in t
    ensures AllClean(Lines(t))
    decreases |t|
  {
    if '\n' in t {
      var l, rest := FirstLine(t);
      assert forall c <- l :: c in t;
      assert forall c <- rest :: c in t;
      LinesCons(l, rest);
      LinesClean(rest);
    } else if t != [] {
      LinesLast(t);
    }
  }

  lemma LinesAppendStep(l: string, rest: string, b: string)
    requires '\n' !in l
    requires Lines(rest + b) == Lines(rest) + Lines(b)
    ensures Lines(l + "\n" + rest + b) == Lines(l + "\n" + rest) + Lines(b)
  {
    hide *;
    LinesCons(l, rest);
    LinesCons(l, rest + b);
    assert l + "\n" + rest + b == l + "\n" + (rest + b);
  }

  /** Reading a terminated text followed by another reads both in turn. */
  lemma {:induction false} LinesAppend(a: string, b: string)
    requires Terminated(a)
    ensures Lines(a + b) == Lines(a) + Lines(b)
    decreases |a|
  {
    if a == [] {
      assert a + b == b;
    } else {
      assert a[|a| - 1] in a;
      var l, rest := FirstLine(a);
      assert rest != [] ==> rest[|rest| - 1] == a[|a| - 1];
      LinesAppend(rest, b);
      LinesAppendStep(l, rest, b);
    }
  }

  lemma {:induction false} LinesOfUnlines(ls: seq<string>)
    requires AllClean(ls)
    ensures Lines(Unlines(ls)) == ls
  {
    if ls == [] {
    } else {
      assert Clean(ls[0]);
      LinesCons(ls[0], Unlines(ls[1..]));
      LinesOfUnlines(ls[1..]);
    }
  }

  lemma {:induction false} UnlinesAppend(a: seq<string>, b: seq<string>)
    ensures Unlines(a + b) == Unlines(a) + Unlines(b)
  {
    if a == [] {
      assert a + b == b;
    } else {
      assert (a + b)[1..] == a[1..] + b;
      UnlinesAppend(a[1..], b);
    }
  }

  lemma {:induction false} JoinThenNewline(ls: seq<string>)
    requires ls != []
    ensures Join(ls, "\n") + "\n" == Unlines(ls)
  {
    if |ls| == 1 {
      assert Unlines(ls) == ls[0] + "\n" + Unlines([]);
    } else {
      JoinThenNewline(ls[1..]);
      assert Join(ls, "\n") + "\n" == ls[0] + "\n" + (Join(ls[1..], "\n") + "\n");
    }
  }

  lemma {:induction false} LinesOfJoinStep(ls: seq<string>)
    requires |ls| > 1 && Clean(ls[0])
    ensures Lines(Join(ls, "\n")) == [ls[0]] + Lines(Join(ls[1..], "\n"))
  {
    LinesCons(ls[0], Join(ls[1..], "\n"));
    hide Lines;
  }

  lemma LinesOfOne(l: string)
    requires Clean(l)
    ensures Lines(Join([l], "\n")) == if l == [] then [] else [l]
  {
    assert Join([l], "\n") == l;
    if l != [] {
      LinesLast(l);
    }
  }

  /** All lines but a last blank one. */
  function DropLastBlank(ls: seq<string>): seq<string> {
    if ls != [] && ls[|ls| - 1] == [] then ls[..|ls| - 1] else ls
  }

  lemma DropLastBlankNone(ls: seq<string>)
    requires ls != [] ==> ls[|ls| - 1] != []
    ensures DropLastBlank(ls) == ls
  {
  }

  lemma DropLastBlankStep(ls: seq<string>)
    requires |ls| > 1
    ensures DropLastBlank(ls) == [ls[0]] + DropLastBlank(ls[1..])
  {
  }

  /** Writing back the lines of a terminated text gives the text. */
  lemma {:induction false} UnlinesOfLines(t: string)
    requires Terminated(t) && '\r' !in t
    ensures Unlines(Lines(t)) == t
    decreases |t|
  {
    if t == [] {
    } else {
      assert t[|t| - 1] in t;
      var l, rest := FirstLine(t);
      assert rest != [] ==> rest[|rest| - 1] == t[|t| - 1];
      assert forall c <- rest :: c in t;
      assert forall c <- l :: c in t;
      LinesCons(l, rest);
      UnlinesOfLines(rest);
      assert ([l] + Lines(rest))[1..] == Lines(rest);
    }
  }

  /** Joining and reading back: only a trailing blank line is lost. */
  lemma {:induction false} LinesOfJoin(ls: seq<string>)
    requires AllClean(ls)
    ensures Lines(Join(ls, "\n")) == DropLastBlank(ls)
  {
    if ls == [] {
    } else {
      assert Clean(ls[0]);
      assert AllClean(ls[1..]);
      hide Lines, Join, DropLastBlank, Clean, AllClean;
      if |ls| == 1 {
        LinesOfOne(ls[0]);
        assert ls == [ls[0]];
        assert DropLastBlank([ls[0]]) == if ls[0] == [] then [] else [ls[0]] by { DropLastBlankOne(ls[0]); }
      } else {
        LinesOfJoinStep(ls);
        LinesOfJoin(ls[1..]);
        DropLastBlankStep(ls);
      }
    }
  }

  lemma DropLastBlankOne(l: string)
    ensures DropLastBlank([l]) == if l == [] then [] else [l]
  {
  }

  function Filter<T>(f: T -> bool, s: seq<T>): (r: seq<T>)
    ensures forall x <- r :: f(x) && x in s
  {
    if s == [] then [] else (if f(s[0]) then [s[0]] else []) + Filter(f, s[1..])
  }

  lemma NoFurther<T>(s: seq<T>)
    ensures [] + s == s
  {
  }

  lemma FilterStep<T>(f: T -> bool, x: T, s: seq<T>)
    ensures Filter(f, [x] + s) == if f(x) then [x] + Filter(f, s) else Filter(f, s)
  {
    assert ([x] + s)[1..] == s;
    assert [] + Filter(f, s) == Filter(f, s);
  }

  lemma {:induction false} FilterAppend<T>(f: T -> bool, a: seq<T>, b: seq<T>)
    ensures Filter(f, a + b) == Filter(f, a) + Filter(f, b)
  {
    if a == [] {
      assert a + b == b;
    } else {
      assert (a + b)[1..] == a[1..] + b;
      FilterAppend(f, a[1..], b);
    }
  }

  lemma {:induction false} FilterAll<T>(f: T -> bool, s: seq<T>)
    requires forall x <- s :: f(x)
    ensures Filter(f, s) == s
  {
    if s == [] {
    } else {
      FilterAll(f, s[1..]);
    }
  }

  lemma {:induction false} FilterNone<T>(f: T -> bool, s: seq<T>)
    requires forall x <- s :: !f(x)
    ensures Filter(f, s) == []
  {
    if s == [] {
    } else {
      FilterNone(f, s[1..]);
    }
  }

  lemma {:induction false} FilterCommutes<T>(f: T -> bool, g: T -> bool, s: seq<T>)
    ensures Filter(f, Filter(g, s)) == Filter(g, Filter(f, s))
  {
    if s == [] {
    } else {
      FilterCommutes(f, g, s[1..]);
      FilterAppend(f, if g(s[0]) then [s[0]] else [], Filter(g, s[1..]));
      FilterAppend(g, if f(s[0]) then [s[0]] else [], Filter(f, s[1..]));
    }
  }

  lemma {:induction false} FilterImplied<T>(f: T -> bool, g: T -> bool, s: seq<T>)
    requires forall x <- s :: f(x) ==> g(x)
    ensures Filter(f, Filter(g, s)) == Filter(f, s)
  {
    if s == [] {
    } else {
      FilterImplied(f, g, s[1..]);
      FilterAppend(f, if g(s[0]) then [s[0]] else [], Filter(g, s[1..]));
    }
  }

  function Map<S, T>(f: S -> T, s: seq<S>): (r: seq<T>)
    ensures |r| == |s| && forall i | 0 <= i < |s| :: r[i] == f(s[i])
  {
    seq(|s|, i requires 0 <= i < |s| => f(s[i]))
  }

  /** Reading one more line gives one more item. */
  lemma OneMore<T>(read: Option<T>, more: seq<T>, x: T, xs: seq<T>)
    requires |more| <= |xs|
    ensures var all := (match read { case None => [] case Some(y) => [y] }) + more;
            |all| <= |xs| + 1 && (all == [x] + xs <==> read == Some(x) && more == xs)
  {
    if read.Some? {
      assert ([read.value] + more)[1..] == more && ([x] + xs)[1..] == xs;
    } else {
      assert [] + more == more;
    }
  }

  /** A pattern without a line feed occurs in a text just when it occurs in one of its lines. */
  lemma {:induction false} ContainsUnlines(ls: seq<string>, p: string)
    requires p != [] && '\n' !in p
    ensures Contains(Unlines(ls), p) <==> exists i | 0 <= i < |ls| :: Contains(ls[i], p)
  {
    if ls == [] {
    } else {
      var tail := Unlines(ls[1..]);
      SeamAtNewline(ls[0], tail, p);
      ContainsUnlines(ls[1..], p);
      if i :| 0 <= i < |ls| && Contains(ls[i], p) {
        if i > 0 {
          assert Contains(ls[1..][i - 1], p);
        }
      }
    }
  }

  lemma SeamAtNewline(l: string, rest: string, p: string)
    requires p != [] && '\n' !in p
    ensures Contains(l + "\n" + rest, p) <==> Contains(l, p) || Contains(rest, p)
  {
    var s := l + "\n" + rest;
    forall i | 0 <= i < |l + "\n"| && |l + "\n"| < i + |p|
      ensures !OccursAt(l + "\n" + rest, p, i)
    {
      assert p[|l| - i] in p;
      assert s[i..][|l| - i] == '\n';
    }
    ContainsConcat(l + "\n", rest, p);
    forall i | 0 <= i < |l| && |l| < i + |p|
      ensures !OccursAt(l + "\n", p, i)
    {
      assert p[|l| - i] in p;
      assert (l + "\n")[i..][|l| - i] == '\n';
    }
    ContainsConcat(l, "\n", p);
    NotContainsNewline(p);
  }

  lemma NotContainsNewline(p: string)
    requires p != [] && '\n' !in p
    ensures !Contains("\n", p)
  {
    forall i | 0 <= i <= 1
      ensures !OccursAt("\n", p, i)
    {
      assert p[0] in p;
      assert i == 0 ==> "\n"[i..][0] == '\n';
    }
  }

  // ---- Decimal numbers ------------------------------------------------------

  predicate AllDigits(s: string) {
    forall i | 0 <= i < |s| :: '0' <= s[i] <= '9'
  }

  function Pow10(n: nat): (p: nat)
    ensures p > 0
  {
    if n == 0 then 1 else 10 * Pow10(n - 1)
  }

  function Min(a: int, b: int): int {
    if a < b then a else b
  }

  function DigitValue(c: char): (d: nat)
    requires '0' <= c <= '9'
    ensures d < 10
  {
    c as int - '0' as int
  }

  function Decimal(s: string): nat
    requires AllDigits(s)
  {
    if s == "" then 0 else DigitValue(s[0]) * Pow10(|s| - 1) + Decimal(s[1..])
  }

  function Digit(d: nat): char
    requires d < 10
  {
    ('0' as int + d) as char
  }

  /** How `format!` prints a number. */
  function Dec(n: nat): (s: string)
    ensures s != "" && AllDigits(s)
  {
    if n < 10 then [Digit(n)] else Dec(n / 10) + [Digit(n % 10)]
  }

  lemma {:induction false} DecimalAppend(s: string, d: nat)
    requires AllDigits(s) && d < 10
    ensures AllDigits(s + [Digit(d)]) && Decimal(s + [Digit(d)]) == 10 * Decimal(s) + d
  {
    if s == "" {
      assert s + [Digit(d)] == [Digit(d)] && [Digit(d)][1..] == "";
      assert Pow10(0) == 1;
    } else {
      var t := s + [Digit(d)];
      DecimalAppend(s[1..], d);
      DecimalStep(s);
      assert AllDigits(t);
      DecimalStep(t);
      hide Decimal, AllDigits, Digit;
      assert t[1..] == s[1..] + [Digit(d)];
      assert Pow10(|s|) == 10 * Pow10(|s| - 1);
      TenTimes(DigitValue(t[0]), Pow10(|s| - 1));
    }
  }

  lemma DecimalStep(s: string)
    requires AllDigits(s) && s != ""
    ensures AllDigits(s[1..]) && Decimal(s) == DigitValue(s[0]) * Pow10(|s| - 1) + Decimal(s[1..])
  {
  }

  lemma TenTimes(x: int, y: int)
    ensures x * (10 * y) == 10 * (x * y)
  {
  }

  /** Printing and reading a number gives it back. */
  lemma {:induction false} DecReadsBack(n: nat)
    ensures Decimal(Dec(n)) == n
  {
    if n < 10 {
      DecimalAppend("", n);
      assert "" + [Digit(n)] == Dec(n);
    } else {
      DecReadsBack(n / 10);
      DecimalAppend(Dec(n / 10), n % 10);
    }
  }

  // ---- By code ------------------------------------------------------------------------

  /** White_Space of the Unicode character database, as a list. */
  lemma SpaceByCode(c: char)
    ensures IsSpace(c) <==>
              c as int in {9, 10, 11, 12, 13, 32, 133, 160, 5760, 8192, 8193, 8194, 8195, 8196, 8197, 8198, 8199, 8200,
                           8201, 8202, 8232, 8233, 8239, 8287, 12288}
  {
  }

  /**
   A carriage return before a line feed belongs to the line's end; one inside a line, or before the end of the
   text, does not.
   */
  lemma LinesReturn(l: string, rest: string)
    requires '\n' !in l
    ensures Lines(l + "\r\n" + rest) == [l] + Lines(rest) && Lines(l + "\r") == [l + "\r"]
  {
    assert l + "\r\n" + rest == (l + "\r") + "\n" + rest;
    assert StripCr(l + "\r") == l;
    hide StripCr;
    LinesCons(l + "\r", rest);
    LinesLast(l + "\r");
  }

  /** What is printed for a number, digit by digit. */
  lemma {:induction false} DecByDigit(n: nat)
    ensures Dec(n) == if n < 10 then [(48 + n) as char] else Dec(n / 10) + [(48 + n % 10) as char]
  {
  }

  /** Trimming takes exactly the whitespace around a text that has none at its ends. */
  lemma {:induction false} TrimExactlyAround(a: string, s: string, b: string)
    requires forall i | 0 <= i < |a| :: IsSpace(a[i])
    requires forall i | 0 <= i < |b| :: IsSpace(b[i])
    requires s == "" || (!IsSpace(s[0]) && !IsSpace(s[|s| - 1]))
    ensures Trim(a + s + b) == s
  {
    assert a + s + b == a + (s + b);
    TrimStartSpaces(a, s + b);
    if s == "" {
      assert s + b == b && b + "" == b;
      TrimStartSpaces(b, "");
    } else {
      TrimEndSpaces(s, b);
    }
  }

  lemma {:induction false} TrimEndSpaces(s: string, b: string)
    requires forall i | 0 <= i < |b| :: IsSpace(b[i])
    requires s != "" && !IsSpace(s[|s| - 1])
    ensures TrimEnd(s + b) == s
  {
    if b == "" {
      assert s + b == s;
    } else {
      assert (s + b)[..|s + b| - 1] == s + b[..|b| - 1];
      TrimEndSpaces(s, b[..|b| - 1]);
    }
  }
}
