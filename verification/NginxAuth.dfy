/**
 Password-protected paths of a site: blocks appended to the site's auth file, and a loop that
 counts braces to take one out again.
 */
module NginxAuth {
  import opened Text

  const LOCATION := "location "

  function Count(s: string, c: char): (n: nat)
    ensures n > 0 <==> c in s
  {
    if s == "" then 0 else if s[0] == c then 1 + Count(s[1..], c) else Count(s[1..], c)
  }

  /** What the loop looks for: the text that starts the block of a path. */
  function Start(path: string): string {
    LOCATION + path + " "
  }

  predicate Starts(line: string, path: string) {
    Contains(line, Start(path))
  }

  // ---- Removing a block: remove_protection -----------------------------------------------------

  /** The lines that the loop keeps. */
  function Keep(ls: seq<string>, path: string, skip: bool, braces: int): seq<string> {
    if ls == [] then []
    else
      var skipping := skip || Starts(ls[0], path);
      var open := (if Starts(ls[0], path) then 0 else braces) + Count(ls[0], '{') - Count(ls[0], '}');
      if !skipping then [ls[0]] + Keep(ls[1..], path, false, braces)
      else Keep(ls[1..], path, !(open <= 0 && '}' in ls[0]), open)
  }

  /** The loop invariant: what is written so far, followed by what is kept of the rest, is the result. */
  predicate Progress(ls: seq<string>, path: string, cleaned: string, i: nat, skip: bool, braces: int) {
    i <= |ls| && Unlines(Keep(ls, path, false, 0)) == cleaned + Unlines(Keep(ls[i..], path, skip, braces))
  }

  method RemoveProtection(content: string, path: string) returns (cleaned: string)
    ensures cleaned == Unlines(Keep(Lines(content), path, false, 0))
  {
    hide Count, Starts, Lines, Progress, Keep, Unlines;
    var ls := Lines(content);
    cleaned := "";
    var skip, braces: int := false, 0;
    ProgressStart(ls, path);
    for i := 0 to |ls|
      invariant Progress(ls, path, cleaned, i, skip, braces)
    {
      var line := ls[i];
      ProgressStep(ls, path, cleaned, i, skip, braces);
      if Starts(line, path) {
        skip := true;
        braces := 0;
      }
      if skip {
        braces := braces + Count(line, '{');
        braces := braces - Count(line, '}');
        if braces <= 0 && '}' in line {
          skip := false;
        }
      } else {
        cleaned := cleaned + line;
        cleaned := cleaned + "\n";
      }
    }
    ProgressEnd(ls, path, cleaned, skip, braces);
  }

  lemma ProgressStart(ls: seq<string>, path: string)
    ensures Progress(ls, path, "", 0, false, 0)
  {
    assert ls[0..] == ls;
  }

  lemma ProgressEnd(ls: seq<string>, path: string, cleaned: string, skip: bool, braces: int)
    requires Progress(ls, path, cleaned, |ls|, skip, braces)
    ensures cleaned == Unlines(Keep(ls, path, false, 0))
  {
    assert ls[|ls|..] == [];
  }

  lemma ProgressStep(ls: seq<string>, path: string, cleaned: string, i: nat, skip: bool, braces: int)
    requires i < |ls| && Progress(ls, path, cleaned, i, skip, braces)
    ensures var open := (if Starts(ls[i], path) then 0 else braces) + Count(ls[i], '{') - Count(ls[i], '}');
            if skip || Starts(ls[i], path) then Progress(ls, path, cleaned, i + 1, !(open <= 0 && '}' in ls[i]), open)
            else Progress(ls, path, cleaned + ls[i] + "\n", i + 1, false, braces)
  {
    KeepStep(ls, i, path, skip, braces);
    hide Count, Starts, Keep, Unlines;
    if !(skip || Starts(ls[i], path)) {
      WriteLine(cleaned, ls[i], Keep(ls[i + 1..], path, false, braces));
    }
  }

  lemma WriteLine(cleaned: string, line: string, more: seq<string>)
    ensures cleaned + Unlines([line] + more) == cleaned + line + "\n" + Unlines(more)
  {
    UnlinesCons(line, more);
    hide Unlines;
    assert cleaned + (line + "\n" + Unlines(more)) == cleaned + line + "\n" + Unlines(more);
  }

  lemma KeepStep(ls: seq<string>, i: nat, path: string, skip: bool, braces: int)
    requires i < |ls|
    ensures var skipping := skip || Starts(ls[i], path);
            var open := (if Starts(ls[i], path) then 0 else braces) + Count(ls[i], '{') - Count(ls[i], '}');
            Keep(ls[i..], path, skip, braces) ==
              if !skipping then [ls[i]] + Keep(ls[i + 1..], path, false, braces)
              else Keep(ls[i + 1..], path, !(open <= 0 && '}' in ls[i]), open)
  {
    hide Count, Starts;
    assert ls[i..][1..] == ls[i + 1..];
  }

  lemma UnlinesCons(l: string, ls: seq<string>)
    ensures Unlines([l] + ls) == l + "\n" + Unlines(ls)
  {
    assert ([l] + ls)[1..] == ls;
  }

  /** Lines before the first start are kept, whatever they are. */
  lemma {:induction false} KeepUntilStart(a: seq<string>, b: seq<string>, path: string, braces: int)
    requires forall i | 0 <= i < |a| :: !Starts(a[i], path)
    ensures Keep(a + b, path, false, braces) == a + Keep(b, path, false, braces)
  {
    hide Count, Starts;
    if a == [] {
      assert a + b == b;
    } else {
      assert (a + b)[1..] == a[1..] + b;
      KeepUntilStart(a[1..], b, path, braces);
    }
  }

  // ---- The blocks: password_protect --------------------------------------------------------------

  predicate ValidPath(path: string) {
    path != "" && path[0] == '/' && NoSpace(path)
    && ';' !in path && '{' !in path && '}' !in path && '\n' !in path && '\r' !in path
  }

  /** The password file: the directory and a domain name. */
  predicate ValidFile(file: string) {
    NoSpace(file) && Clean(file) && '{' !in file && '}' !in file
  }

  const INDENT := "    "
  const REALM := "auth_basic " + "\"Restricted\";"
  const TRY_FILES := "try_files" + (" $uri $uri/" + " =404;")
  const USER_FILE := "auth_basic_user_file"

  function Header(path: string): string {
    LOCATION + path + " {"
  }

  function Body(file: string): seq<string> {
    [INDENT + REALM, INDENT + USER_FILE + (" " + file + ";"), INDENT + TRY_FILES, "}"]
  }

  function Block(path: string, file: string): seq<string> {
    [Header(path)] + Body(file)
  }

  /** An empty path stands for the whole site. */
  function Normal(path: string): string {
    if path == "" then "/" else path
  }

  /** The auth file after a request to protect a path; an invalid path changes nothing. */
  function Protect(content: string, path: string, file: string): string {
    var p := Normal(path);
    if !ValidPath(p) || Contains(content, Start(p)) then content else content + Unlines(Block(p, file))
  }

  function Unprotect(content: string, path: string): string {
    Unlines(Keep(Lines(content), path, false, 0))
  }

  // ---- Which lines start a block -------------------------------------------------------------------

  /** No letter n is followed by a space, so that the word `location ` is not in the line. */
  predicate Quiet(line: string) {
    forall k | 0 <= k < |line| - 1 :: line[k] == 'n' ==> line[k + 1] != ' '
  }

  lemma QuietConcat(a: string, b: string)
    requires Quiet(a) && Quiet(b) && (a == "" || a[|a| - 1] != 'n' || b == "" || b[0] != ' ')
    ensures Quiet(a + b)
  {
  }

  lemma QuietLine(line: string, more: string)
    requires Quiet(line)
    ensures !Contains(line, LOCATION + more)
  {
    forall i | 0 <= i <= |line|
      ensures !OccursAt(line, LOCATION + more, i)
    {
      if OccursAt(line, LOCATION + more, i) {
        OccursAtChar(line, LOCATION + more, i, 7);
        OccursAtChar(line, LOCATION + more, i, 8);
      }
    }
  }

  lemma QuietWithoutSpace(s: string)
    requires NoSpace(s)
    ensures Quiet(s)
  {
    assert IsSpace(' ');
    forall k | 0 <= k < |s|
      ensures s[k] != ' '
    {
      assert s[k] in s;
    }
  }

  /** A line that neither starts a block nor opens or closes a brace. */
  predicate Calm(l: string) {
    Quiet(l) && Clean(l) && '{' !in l && '}' !in l
  }

  lemma CalmConcat(a: string, b: string)
    requires Calm(a) && Calm(b) && a != "" && a[|a| - 1] != 'n'
    ensures Calm(a + b)
  {
    QuietConcat(a, b);
    hide Quiet;
  }

  lemma RealmCalm()
    ensures Calm(INDENT + REALM)
  {
    assert Calm(INDENT) && Calm("auth_basic ");
    assert Calm("\"Restricted\";");
    hide Calm;
    CalmConcat("auth_basic ", "\"Restricted\";");
    CalmConcat(INDENT, REALM);
  }

  lemma UrisCalm()
    ensures Calm(" $uri $uri/") && Calm(" =404;")
  {
  }

  lemma TryFilesCalm()
    ensures Calm(INDENT + TRY_FILES)
  {
    assert Calm(INDENT) && Calm("try_files");
    UrisCalm();
    hide Calm;
    CalmConcat(" $uri $uri/", " =404;");
    CalmConcat("try_files", " $uri $uri/" + " =404;");
    CalmConcat(INDENT, TRY_FILES);
  }

  lemma FileCalm(file: string)
    requires ValidFile(file)
    ensures Calm(" " + file + ";")
  {
    QuietWithoutSpace(file);
    assert Calm(" ") && Calm(";");
    hide Quiet, Clean, NoSpace;
    CalmConcat(" ", file);
    QuietConcat(" " + file, ";") by { assert Quiet(";"); }
  }

  /** Calm lines, and one closing brace at the end. */
  predicate ClosedBody(body: seq<string>) {
    && body != [] && body[|body| - 1] == "}"
    && forall i | 0 <= i < |body| - 1 :: Calm(body[i])
  }

  lemma BodyClosed(file: string)
    requires ValidFile(file)
    ensures ClosedBody(Body(file))
  {
    RealmCalm();
    TryFilesCalm();
    FileCalm(file);
    assert Calm(INDENT + USER_FILE) by { UserFileCalm(); }
    hide Calm;
    assert (INDENT + USER_FILE)[|INDENT + USER_FILE| - 1] == 'e';
    CalmConcat(INDENT + USER_FILE, " " + file + ";");
  }

  lemma UserFileCalm()
    ensures Calm(INDENT + USER_FILE)
  {
    assert Calm(INDENT) && Calm(USER_FILE);
    CalmConcat(INDENT, USER_FILE);
  }

  lemma CalmNeverStarts(l: string, path: string)
    requires Calm(l)
    ensures !Starts(l, path) && Count(l, '{') == Count(l, '}') == 0
  {
    QuietLine(l, path + " ");
    assert Start(path) == LOCATION + (path + " ");
  }

  lemma BraceNeverStarts(path: string)
    ensures !Starts("}", path) && Count("}", '{') == 0 && Count("}", '}') == 1
  {
    QuietLine("}", path + " ");
    assert Start(path) == LOCATION + (path + " ");
  }

  /** Inside a block the loop skips to the closing brace. */
  lemma {:induction false} KeepSkipsBody(body: seq<string>, after: seq<string>, path: string)
    requires ClosedBody(body)
    ensures Keep(body + after, path, true, 1) == Keep(after, path, false, 0)
  {
    hide Count, Starts, Calm;
    assert (body + after)[1..] == body[1..] + after;
    if |body| == 1 {
      BraceNeverStarts(path);
      assert body[1..] + after == after;
    } else {
      CalmNeverStarts(body[0], path);
      KeepSkipsBody(body[1..], after, path);
    }
  }

  /** Where a header has its spaces. */
  lemma HeaderSpaces(path: string, k: nat)
    requires NoSpace(path) && k < |Header(path)| && Header(path)[k] == ' '
    ensures k == 8 || k == 9 + |path|
  {
    assert IsSpace(' ');
    forall j | 0 <= j < |path|
      ensures path[j] != ' '
    {
      assert path[j] in path;
    }
    hide IsSpace, NoSpace;
    assert forall j | 0 <= j < |path| :: Header(path)[9 + j] == path[j];
  }

  /** The header of a path starts the block of that path and of no other, whatever string is asked for. */
  lemma HeaderStarts(path: string, asked: string)
    requires ValidPath(path)
    ensures Starts(Header(path), asked) <==> asked == path
  {
    var h := Header(path);
    if asked == path {
      assert h == "" + Start(path) + "{";
      ContainsAround("", Start(path), "{");
    }
    assert ValidPath(path) ==> NoSpace(path);
    hide ValidPath, NoSpace, Contains;
    forall i | 0 <= i <= |h|
      ensures OccursAt(h, Start(asked), i) ==> asked == path
    {
      if OccursAt(h, Start(asked), i) {
        StartPosition(path, asked, i);
      }
    }
    assert Starts(h, asked) ==> asked == path by { StartsSomewhere(h, asked); }
  }

  lemma StartsSomewhere(l: string, asked: string)
    ensures Starts(l, asked) ==> exists i | 0 <= i <= |l| :: OccursAt(l, Start(asked), i)
  {
  }

  lemma StartPosition(path: string, asked: string, i: nat)
    requires NoSpace(path) && OccursAt(Header(path), Start(asked), i)
    ensures asked == path
  {
    var h, p := Header(path), Start(asked);
    OccursAtChar(h, p, i, 8);
    OccursAtChar(h, p, i, |p| - 1);
    HeaderSpaces(path, i + 8);
    HeaderSpaces(path, i + |p| - 1);
    assert h[10 + |path|] == '{';
    assert i == 0 && |asked| == |path|;
    SameMiddle(path, asked);
  }

  lemma SameMiddle(path: string, asked: string)
    requires OccursAt(Header(path), Start(asked), 0) && |asked| == |path|
    ensures asked == path
  {
    forall k | 0 <= k < |path|
      ensures asked[k] == path[k]
    {
      OccursAtChar(Header(path), Start(asked), 0, 9 + k);
    }
  }

  // ---- Removing one block of many ----------------------------------------------------------------

  lemma HeaderBraces(path: string)
    requires ValidPath(path)
    ensures Count(Header(path), '{') == 1 && Count(Header(path), '}') == 0
  {
    assert Header(path) == (LOCATION + path + " ") + "{";
    CountNone(LOCATION + path + " ", '{');
    CountAppend(LOCATION + path + " ", "{", '{');
    CountNone(Header(path), '}');
    assert Count("{", '{') == 1;
  }

  lemma CountNone(s: string, c: char)
    requires c !in s
    ensures Count(s, c) == 0
  {
  }

  lemma {:induction false} CountAppend(a: string, b: string, c: char)
    ensures Count(a + b, c) == Count(a, c) + Count(b, c)
  {
    if a == "" {
      assert a + b == b;
    } else {
      assert (a + b)[1..] == a[1..] + b;
      CountAppend(a[1..], b, c);
    }
  }

  lemma {:induction false} BodyNeverStarts(body: seq<string>, path: string)
    requires ClosedBody(body)
    ensures forall i | 0 <= i < |body| :: !Starts(body[i], path)
  {
    hide Calm, Starts;
    forall i | 0 <= i < |body|
      ensures !Starts(body[i], path)
    {
      if i == |body| - 1 {
        BraceNeverStarts(path);
      } else {
        CalmNeverStarts(body[i], path);
      }
    }
  }

  lemma KeepHeader(h: string, rest: seq<string>, asked: string)
    requires Count(h, '{') == 1 && Count(h, '}') == 0
    ensures Keep([h] + rest, asked, false, 0)
         == if Starts(h, asked) then Keep(rest, asked, true, 1) else [h] + Keep(rest, asked, false, 0)
  {
    CountIn(h);
    hide Count, Starts;
    assert ([h] + rest)[1..] == rest;
  }

  /** A block goes as a whole if its path is asked for, and stays as a whole if not. */
  lemma KeepBlock(path: string, file: string, after: seq<string>, asked: string)
    requires ValidPath(path) && ValidFile(file)
    ensures Keep(Block(path, file) + after, asked, false, 0)
         == if asked == path then Keep(after, asked, false, 0) else Block(path, file) + Keep(after, asked, false, 0)
  {
    var h, body := Header(path), Body(file);
    assert Block(path, file) == [h] + body;
    hide *;
    HeaderStarts(path, asked);
    HeaderBraces(path);
    BodyClosed(file);
    KeepHeader(h, body + after, asked);
    Regroup(h, body, after);
    if asked == path {
      KeepSkipsBody(body, after, asked);
    } else {
      BodyNeverStarts(body, asked);
      KeepUntilStart(body, after, asked, 0);
      Regroup(h, body, Keep(after, asked, false, 0));
    }
  }

  lemma Regroup(h: string, body: seq<string>, after: seq<string>)
    ensures [h] + body + after == [h] + (body + after)
  {
  }

  lemma CountIn(h: string)
    ensures Count(h, '}') == 0 ==> '}' !in h
  {
  }

  function Blocks(paths: seq<string>, file: string): seq<string> {
    if paths == [] then [] else Block(paths[0], file) + Blocks(paths[1..], file)
  }

  predicate AllValid(paths: seq<string>) {
    forall i | 0 <= i < |paths| :: ValidPath(paths[i])
  }

  function Without(paths: seq<string>, asked: string): seq<string> {
    if paths == [] then []
    else if paths[0] == asked then Without(paths[1..], asked)
    else [paths[0]] + Without(paths[1..], asked)
  }

  lemma BlocksCons(path: string, paths: seq<string>, file: string)
    ensures Blocks([path] + paths, file) == Block(path, file) + Blocks(paths, file)
  {
    hide Block;
    assert ([path] + paths)[1..] == paths;
  }

  lemma {:induction false} KeepBlocks(paths: seq<string>, file: string, asked: string)
    requires AllValid(paths) && ValidFile(file)
    ensures Keep(Blocks(paths, file), asked, false, 0) == Blocks(Without(paths, asked), file)
  {
    if paths == [] {
    } else {
      KeepBlocks(paths[1..], file, asked);
      KeepBlock(paths[0], file, Blocks(paths[1..], file), asked);
      BlocksCons(paths[0], Without(paths[1..], asked), file);
      hide Keep, Block, ValidPath, ValidFile;
    }
  }

  lemma HeaderClean(path: string)
    requires ValidPath(path)
    ensures Clean(Header(path))
  {
  }

  lemma {:induction false} BlockClean(path: string, file: string)
    requires ValidPath(path) && ValidFile(file)
    ensures AllClean(Block(path, file))
  {
    HeaderClean(path);
    BodyClosed(file);
    var body := Body(file);
    hide Header, Body, ValidPath, ValidFile, Quiet;
    forall i | 0 <= i < |body|
      ensures Clean(body[i])
    {
      assert i < |body| - 1 ==> Calm(body[i]);
    }
    assert forall l <- body :: Clean(l);
  }

  lemma {:induction false} BlocksClean(paths: seq<string>, file: string)
    requires AllValid(paths) && ValidFile(file)
    ensures AllClean(Blocks(paths, file))
  {
    if paths == [] {
    } else {
      BlockClean(paths[0], file);
      BlocksClean(paths[1..], file);
      hide Clean, Block, ValidPath, ValidFile;
      assert Blocks(paths, file) == Block(paths[0], file) + Blocks(paths[1..], file);
    }
  }

  /** The auth file of a site with some protected paths. */
  function FileText(paths: seq<string>, file: string): string {
    Unlines(Blocks(paths, file))
  }

  /** Removing a path, whatever string it is, leaves byte for byte the blocks of the other paths. */
  lemma {:induction false} RemovalExactly(paths: seq<string>, file: string, asked: string)
    requires AllValid(paths) && ValidFile(file)
    ensures Unprotect(FileText(paths, file), asked) == FileText(Without(paths, asked), file)
  {
    BlocksClean(paths, file);
    LinesOfUnlines(Blocks(paths, file));
    KeepBlocks(paths, file, asked);
    hide Lines, Unlines, Keep, Blocks, ValidPath, ValidFile;
  }

  // ---- Removing undoes adding ----------------------------------------------------------------------

  lemma StartIsPlain(path: string)
    requires ValidPath(path)
    ensures '\n' !in Start(path) && Start(path) != ""
  {
  }

  lemma NoLineStarts(content: string, path: string)
    requires Terminated(content) && '\r' !in content && ValidPath(path) && !Contains(content, Start(path))
    ensures forall i | 0 <= i < |Lines(content)| :: !Starts(Lines(content)[i], path)
  {
    var ls := Lines(content);
    UnlinesOfLines(content);
    StartIsPlain(path);
    hide Start, Lines, Unlines, ValidPath, Contains, Terminated;
    LineByLine(ls, path);
  }

  lemma {:induction false} LineByLine(ls: seq<string>, path: string)
    requires '\n' !in Start(path) && Start(path) != ""
    ensures Contains(Unlines(ls), Start(path)) <==> exists i | 0 <= i < |ls| :: Starts(ls[i], path)
  {
    hide Start, Unlines, Contains;
    ContainsUnlines(ls, Start(path));
    assert forall i | 0 <= i < |ls| :: Starts(ls[i], path) == Contains(ls[i], Start(path));
  }

  /**
   Whatever an auth file holds, if the path is not in it yet: protecting the path and taking the
   protection away again restores the file if and only if it was empty or ended with a line feed.
   */
  lemma {:induction false} RemoveUndoesAddExactly(content: string, path: string, file: string)
    requires '\r' !in content && ValidPath(path) && ValidFile(file) && !Contains(content, Start(path))
    ensures Unprotect(Protect(content, path, file), path) == content <==> Terminated(content)
  {
    assert Normal(path) == path;
    if Terminated(content) {
      var ls, block := Lines(content), Block(path, file);
      LinesAppend(content, Unlines(block));
      BlockClean(path, file);
      LinesOfUnlines(block);
      NoLineStarts(content, path);
      UnlinesOfLines(content);
      KeepWholeBlock(ls, path, file);
      hide Lines, Unlines, Keep, Block, ValidPath, ValidFile, Contains;
    }
  }

  /**
   After a last line that is not terminated the block's header is not at the start of a line, and the removal
   misses it.
   */
  lemma UnterminatedExample(file: string)
    requires ValidFile(file)
    ensures Unprotect(Protect("# admin", "/admin", file), "/admin") != "# admin"
  {
    var content := "# admin";
    assert content[|content| - 1] == 'n';
    NotContainsChar(content, Start("/admin"), |LOCATION|);
    assert ValidPath("/admin");
    hide Unprotect, Protect, ValidFile, ValidPath, Start;
    RemoveUndoesAddExactly(content, "/admin", file);
  }

  lemma {:induction false} KeepWholeBlock(ls: seq<string>, path: string, file: string)
    requires ValidPath(path) && ValidFile(file) && forall i | 0 <= i < |ls| :: !Starts(ls[i], path)
    ensures Keep(ls + Block(path, file), path, false, 0) == ls
  {
    hide Starts, Block, ValidPath, ValidFile;
    KeepUntilStart(ls, Block(path, file), path, 0);
    KeepBlock(path, file, [], path);
    assert Block(path, file) + [] == Block(path, file);
    assert Keep([], path, false, 0) == [];
  }

  // ---- Listing: list_protected ----------------------------------------------------------------------

  /** The path that a line names, if it names one. */
  function ListLine(line: string): Option<string> {
    var parts := Split(line, LOCATION);
    if !Contains(line, LOCATION) || |parts| < 2 then None else Some(Split(parts[1], " ")[0])
  }

  function ListLines(ls: seq<string>): seq<string> {
    if ls == [] then []
    else match ListLine(ls[0]) case None => ListLines(ls[1..]) case Some(p) => [p] + ListLines(ls[1..])
  }

  function ListProtected(content: string): seq<string> {
    ListLines(Lines(content))
  }

  /** A path that hides the word the lister looks for. */
  predicate EndsInLocation(path: string) {
    |path| >= 8 && path[|path| - 8..] == "location"
  }

  /** What the lister shows for a path. */
  function ShownPath(path: string): string {
    if EndsInLocation(path) then path[..|path| - 8] else path
  }

  lemma QuietNotListed(line: string)
    requires Quiet(line)
    ensures ListLine(line) == None
  {
    QuietLine(line, "");
    assert LOCATION + "" == LOCATION;
  }

  lemma {:induction false} HeaderSplits(path: string)
    requires NoSpace(path)
    ensures Split(Header(path), LOCATION) == [""] + Split(path + " {", LOCATION)
  {
    assert Header(path) == "" + LOCATION + (path + " {");
    SplitHead("", LOCATION, path + " {");
  }

  /** After its first word a header holds the lister's word only where the path ends in it. */
  lemma WordAfter(path: string, i: nat)
    requires ' ' !in path && OccursAt(path + " {", LOCATION, i)
    ensures EndsInLocation(path) && i == |path| - 8
  {
    var s := path + " {";
    OccursAtChar(s, LOCATION, i, 8);
    assert i + 8 == |path|;
    forall k | 0 <= k < 8
      ensures path[i + k] == "location"[k]
    {
      OccursAtChar(s, LOCATION, i, k);
    }
    assert path[i..] == "location";
  }

  lemma FirstPart(path: string)
    requires ' ' !in path
    ensures Split(Split(path + " {", LOCATION)[0], " ")[0] == ShownPath(path)
  {
    var s := path + " {";
    if EndsInLocation(path) {
      var p := path[..|path| - 8];
      assert s == p + LOCATION + "{";
      forall i | 0 <= i < |p|
        ensures !OccursAt(s, LOCATION, i)
      {
        if OccursAt(s, LOCATION, i) {
          WordAfter(path, i);
        }
      }
      SplitHead(p, LOCATION, "{");
      NotContainsChar(p, " ", 0);
      SplitNone(p, " ");
    } else {
      forall i | 0 <= i <= |s|
        ensures !OccursAt(s, LOCATION, i)
      {
        if OccursAt(s, LOCATION, i) {
          WordAfter(path, i);
        }
      }
      SplitNone(s, LOCATION);
      assert s == path + [' '] + "{" && [' '] == " ";
      SplitAtChar(path, ' ', "{");
    }
  }

  lemma HeaderListed(path: string)
    requires NoSpace(path)
    ensures ListLine(Header(path)) == Some(ShownPath(path))
  {
    assert Header(path) == "" + LOCATION + (path + " {");
    hide Split, Contains, NoSpace, ShownPath, Header;
    NoSpaceNoChar(path);
    HeaderSplits(path);
    FirstPart(path);
    ContainsAround("", LOCATION, path + " {");
  }

  lemma {:induction false} ListAppend(a: seq<string>, b: seq<string>)
    ensures ListLines(a + b) == ListLines(a) + ListLines(b)
  {
    hide ListLine;
    if a == [] {
      assert a + b == b;
    } else {
      assert (a + b)[1..] == a[1..] + b;
      ListAppend(a[1..], b);
    }
  }

  lemma {:induction false} ListBody(body: seq<string>)
    requires ClosedBody(body)
    ensures ListLines(body) == []
  {
    hide ListLine;
    if |body| == 1 {
      QuietNotListed("}");
      assert body == ["}"] && body[1..] == [];
    } else {
      assert Calm(body[0]);
      QuietNotListed(body[0]);
      ListBody(body[1..]);
    }
  }

  lemma ListBlock(path: string, file: string)
    requires ValidPath(path) && ValidFile(file)
    ensures ListLines(Block(path, file)) == [ShownPath(path)]
  {
    BodyClosed(file);
    HeaderListed(path);
    var h, body := Header(path), Body(file);
    hide Header, Body, ClosedBody, ShownPath, ListLine, ValidPath, ValidFile;
    ListBody(body);
    assert ([h] + body)[1..] == body;
  }

  function ShownPaths(paths: seq<string>): (r: seq<string>)
    ensures |r| == |paths| && forall i | 0 <= i < |paths| :: r[i] == ShownPath(paths[i])
  {
    if paths == [] then [] else [ShownPath(paths[0])] + ShownPaths(paths[1..])
  }

  lemma {:induction false} ListBlocks(paths: seq<string>, file: string)
    requires AllValid(paths) && ValidFile(file)
    ensures ListLines(Blocks(paths, file)) == ShownPaths(paths)
  {
    if paths == [] {
    } else {
      ListBlock(paths[0], file);
      ListBlocks(paths[1..], file);
      ListAppend(Block(paths[0], file), Blocks(paths[1..], file));
      hide Block, ShownPath, ValidPath, ValidFile, ListLines;
    }
  }

  /** The protected paths are listed, in order, if and only if none of them ends in `location`. */
  lemma {:induction false} ListedExactly(paths: seq<string>, file: string)
    requires AllValid(paths) && ValidFile(file)
    ensures ListProtected(FileText(paths, file)) == paths <==> forall i | 0 <= i < |paths| :: !EndsInLocation(paths[i])
  {
    BlocksClean(paths, file);
    LinesOfUnlines(Blocks(paths, file));
    ListBlocks(paths, file);
    hide Blocks, Lines, Unlines, ListLines, ValidPath, ValidFile, EndsInLocation;
    forall i | 0 <= i < |paths|
      ensures ShownPath(paths[i]) == paths[i] <==> !EndsInLocation(paths[i])
    {
      ShownIsShorter(paths[i]);
    }
  }

  /** A path that ends in `location` can be protected and is listed without that end. */
  lemma HiddenEndExample(file: string)
    requires ValidFile(file)
    ensures ValidPath("/location") && ListProtected(FileText(["/location"], file)) != ["/location"]
  {
    var paths := ["/location"];
    assert ValidPath(paths[0]);
    assert paths[0][1..] == "location";
    hide ListProtected, FileText, ValidFile, ValidPath;
    ListedExactly(paths, file);
  }

  lemma ShownIsShorter(path: string)
    ensures if EndsInLocation(path) then |ShownPath(path)| < |path| else ShownPath(path) == path
  {
  }

  // ---- Every run -----------------------------------------------------------------------------------------

  datatype Op = Add(path: string) | Remove(path: string)

  function Apply(content: string, op: Op, file: string): string {
    match op
    case Add(path) => Protect(content, path, file)
    case Remove(path) => Unprotect(content, path)
  }

  function ApplyAll(content: string, ops: seq<Op>, file: string): string
    decreases |ops|
  {
    if ops == [] then content else ApplyAll(Apply(content, ops[0], file), ops[1..], file)
  }

  /** The same operation on the list of paths. */
  function PathsAfter(paths: seq<string>, op: Op): seq<string> {
    match op
    case Add(path) => if !ValidPath(Normal(path)) || Normal(path) in paths then paths else paths + [Normal(path)]
    case Remove(path) => Without(paths, path)
  }

  function PathsAfterAll(paths: seq<string>, ops: seq<Op>): seq<string>
    decreases |ops|
  {
    if ops == [] then paths else PathsAfterAll(PathsAfter(paths, ops[0]), ops[1..])
  }

  predicate Distinct(paths: seq<string>) {
    forall i, j | 0 <= i < j < |paths| :: paths[i] != paths[j]
  }

  predicate SomeStarts(ls: seq<string>, asked: string) {
    exists i | 0 <= i < |ls| :: Starts(ls[i], asked)
  }

  lemma SomeStartsAppend(a: seq<string>, b: seq<string>, asked: string)
    ensures SomeStarts(a + b, asked) <==> SomeStarts(a, asked) || SomeStarts(b, asked)
  {
    hide Starts;
    assert forall i | 0 <= i < |a| :: (a + b)[i] == a[i];
    assert forall i | 0 <= i < |b| :: (a + b)[|a| + i] == b[i];
    if SomeStarts(a + b, asked) {
      var i :| 0 <= i < |a + b| && Starts((a + b)[i], asked);
      assert if i < |a| then Starts(a[i], asked) else Starts(b[i - |a|], asked);
    }
  }

  lemma BlockStarts(path: string, file: string, asked: string)
    requires ValidPath(path) && ValidFile(file)
    ensures SomeStarts(Block(path, file), asked) <==> asked == path
  {
    var h, body := Header(path), Body(file);
    assert Block(path, file) == [h] + body;
    HeaderStarts(path, asked);
    BodyClosed(file);
    BodyNeverStarts(body, asked);
    hide Starts, Header, Body, Block, ValidPath, ValidFile, ClosedBody;
    SomeStartsAppend([h], body, asked);
    assert SomeStarts([h], asked) <==> Starts([h][0], asked);
  }

  lemma {:induction false} BlocksStart(paths: seq<string>, file: string, asked: string)
    requires AllValid(paths) && ValidFile(file)
    ensures SomeStarts(Blocks(paths, file), asked) <==> asked in paths
  {
    if paths == [] {
    } else {
      BlockStarts(paths[0], file, asked);
      BlocksStart(paths[1..], file, asked);
      SomeStartsAppend(Block(paths[0], file), Blocks(paths[1..], file), asked);
      hide SomeStarts, Block, ValidPath, ValidFile;
      assert paths == [paths[0]] + paths[1..];
    }
  }

  lemma {:induction false} BlocksSnoc(paths: seq<string>, path: string, file: string)
    ensures Blocks(paths + [path], file) == Blocks(paths, file) + Block(path, file)
  {
    hide Block;
    if paths == [] {
      assert paths + [path] == [path] && [path][1..] == [];
      assert Block(path, file) + [] == Block(path, file);
    } else {
      assert (paths + [path])[1..] == paths[1..] + [path];
      BlocksSnoc(paths[1..], path, file);
    }
  }

  /** Protecting a path appends its block just when the path is new. */
  lemma {:induction false} AdditionExactly(paths: seq<string>, file: string, path: string)
    requires AllValid(paths) && ValidFile(file)
    ensures Protect(FileText(paths, file), path, file) == FileText(PathsAfter(paths, Add(path)), file)
  {
    var p := Normal(path);
    if ValidPath(p) {
      StartIsPlain(p);
      LineByLine(Blocks(paths, file), p);
      BlocksStart(paths, file, p);
      BlocksSnoc(paths, p, file);
      hide Starts, Contains, Blocks, Block, Normal, Start, ValidPath, ValidFile, Unlines;
      UnlinesAppend(Blocks(paths, file), Block(p, file));
    }
  }

  lemma DistinctCons(path: string, paths: seq<string>)
    ensures Distinct([path] + paths) <==> path !in paths && Distinct(paths)
  {
    var s := [path] + paths;
    assert forall i | 0 <= i < |paths| :: s[i + 1] == paths[i];
    if Distinct(s) {
      forall i, j | 0 <= i < j < |paths|
        ensures paths[i] != paths[j]
      {
        assert s[i + 1] != s[j + 1];
      }
      forall j | 0 <= j < |paths|
        ensures path != paths[j]
      {
        assert s[0] != s[j + 1];
      }
    }
  }

  lemma {:induction false} WithoutKeeps(paths: seq<string>, asked: string)
    ensures AllValid(paths) ==> AllValid(Without(paths, asked))
    ensures forall p :: p in Without(paths, asked) <==> p in paths && p != asked
    ensures Distinct(paths) ==> Distinct(Without(paths, asked))
  {
    if paths == [] {
    } else {
      WithoutKeeps(paths[1..], asked);
      assert paths == [paths[0]] + paths[1..];
      hide ValidPath, Distinct;
      DistinctCons(paths[0], paths[1..]);
      DistinctCons(paths[0], Without(paths[1..], asked));
    }
  }

  lemma StepKeeps(paths: seq<string>, op: Op)
    requires AllValid(paths) && Distinct(paths)
    ensures AllValid(PathsAfter(paths, op)) && Distinct(PathsAfter(paths, op))
  {
    hide ValidPath, Without;
    match op
    case Add(path) =>
    case Remove(path) => WithoutKeeps(paths, path);
  }

  /**
   Over every run of additions and removals, of valid and invalid paths alike, the auth file is byte
   for byte the blocks of the paths that the same run makes of the list, no path twice.
   */
  lemma {:induction false} RunRefinesPaths(paths: seq<string>, file: string, ops: seq<Op>)
    requires AllValid(paths) && Distinct(paths) && ValidFile(file)
    ensures var after := PathsAfterAll(paths, ops);
            && ApplyAll(FileText(paths, file), ops, file) == FileText(after, file)
            && AllValid(after) && Distinct(after)
            && ListProtected(ApplyAll(FileText(paths, file), ops, file)) == ShownPaths(after)
    decreases |ops|
  {
    if ops == [] {
      BlocksClean(paths, file);
      LinesOfUnlines(Blocks(paths, file));
      ListBlocks(paths, file);
    } else {
      hide FileText, AllValid, Distinct, ValidFile, PathsAfter, ListProtected, ShownPaths, Protect, Unprotect;
      StepKeeps(paths, ops[0]);
      match ops[0] {
        case Add(path) => AdditionExactly(paths, file, path);
        case Remove(path) =>
          RemovalExactly(paths, file, path);
          RemoveIs(paths, path);
      }
      RunRefinesPaths(PathsAfter(paths, ops[0]), file, ops[1..]);
    }
  }

  lemma RemoveIs(paths: seq<string>, path: string)
    ensures PathsAfter(paths, Remove(path)) == Without(paths, path)
  {
  }

  // ---- A block, written out -----------------------------------------------------------------------------------

  /** The lines of a protected path. */
  lemma BlockWritten(path: string, file: string)
    ensures Block(path, file) ==
              ["location " + path + " {",
               "    auth_basic \"Restricted\";",
               "    auth_basic_user_file " + file + ";",
               "    try_files $uri $uri/ =404;",
               "}"]
  {
    var ls := Block(path, file);
    HeaderWritten(path);
    RealmWritten();
    UserFileWritten(file);
    TryFilesWritten();
    assert |ls| == 5 && ls[0] == Header(path) && ls[1] == INDENT + REALM;
    assert ls[2] == INDENT + USER_FILE + (" " + file + ";") && ls[3] == INDENT + TRY_FILES && ls[4] == "}";
    hide *;
    assert ls == [ls[0], ls[1], ls[2], ls[3], ls[4]];
  }

  lemma HeaderWritten(path: string)
    ensures Header(path) == "location " + path + " {"
  {
  }

  lemma RealmWritten()
    ensures INDENT + REALM == "    auth_basic \"Restricted\";"
  {
  }

  lemma UserFileWritten(file: string)
    ensures INDENT + USER_FILE + (" " + file + ";") == "    auth_basic_user_file " + file + ";"
  {
  }

  lemma TryFilesWritten()
    ensures INDENT + TRY_FILES == "    try_files $uri $uri/ =404;"
  {
  }

  lemma RootIsValid()
    ensures ValidPath("/") && Start("/") == "location / " && Normal("") == "/" && Normal("/") == "/"
  {
  }

  /** Protecting the empty path protects the whole site. */
  lemma EmptyPathIsRoot(content: string, file: string)
    ensures Protect(content, "", file) == Protect(content, "/", file)
    ensures Protect(content, "", file) ==
              if Contains(content, "location / ") then content else content + Unlines(Block("/", file))
  {
    RootIsValid();
    hide ValidPath, Block, Unlines, Contains, Start, Normal;
  }

  /**
   A path is accepted if and only if it is empty, or starts with a slash and has no whitespace, semicolon or brace; if
   accepted it is protected unless the file holds `location `, the path and a space.
   */
  lemma ProtectedExactly(content: string, path: string, file: string)
    requires path != ""
    ensures Protect(content, path, file) != content <==>
              && path[0] as int == 47
              && (forall i | 0 <= i < |path| :: path[i] as int !in {59, 123, 125} && !IsSpace(path[i]))
              && !Contains(content, "location " + path + " ")
  {
    PathByCode(path);
    assert Start(path) == "location " + path + " " && Normal(path) == path;
    assert |Unlines(Block(path, file))| > 0;
    assert Protect(content, path, file) != content <==> ValidPath(path) && !Contains(content, Start(path)) by {
      hide ValidPath, Contains, Block;
      assert |content + Unlines(Block(path, file))| > |content|;
    }
    hide Contains, Unlines, Block, IsSpace;
  }

  lemma PathByCode(path: string)
    requires path != ""
    ensures ValidPath(path) <==>
              && path[0] as int == 47
              && forall i | 0 <= i < |path| :: path[i] as int !in {59, 123, 125} && !IsSpace(path[i])
  {
    assert IsSpace('\n') && IsSpace('\r');
    hide IsSpace;
  }
}
