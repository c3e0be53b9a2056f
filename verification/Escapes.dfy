/**
 Text quoted by chains of `replace`: the terminal recorder's JSON strings (escapes as in
 section 7 of RFC 8259) and the password literals of `ALTER USER` statements.
 */
module Escapes {
  import opened Text

  /** `str::replace` of one character. */
  function Replace(s: string, c: char, with: string): string {
    if s == "" then "" else (if s[0] == c then with else [s[0]]) + Replace(s[1..], c, with)
  }

  lemma {:induction false} ReplaceAppend(a: string, b: string, c: char, with: string)
    ensures Replace(a + b, c, with) == Replace(a, c, with) + Replace(b, c, with)
  {
    if a == "" {
      assert a + b == b;
    } else {
      assert (a + b)[1..] == a[1..] + b;
      ReplaceAppend(a[1..], b, c, with);
    }
  }

  lemma {:induction false} ReplaceAbsent(s: string, c: char, with: string)
    requires c !in s
    ensures Replace(s, c, with) == s
  {
    if s == "" {
    } else {
      ReplaceAbsent(s[1..], c, with);
    }
  }

  // ---- Asciicast ------------------------------------------------------------

  /** The recorder's four replacements, in its order. */
  function EscapeEvent(s: string): string {
    Replace(Replace(Replace(Replace(s, '\\', "\\\\"), '"', "\\\""), '\n', "\\n"), '\r', "\\r")
  }

  /** One pass over the characters. */
  function EscapeChar(c: char): string {
    match c
    case '\\' => "\\\\"
    case '"' => "\\\""
    case '\n' => "\\n"
    case '\r' => "\\r"
    case _ => [c]
  }

  function EscapeOnce(s: string): string {
    if s == "" then "" else EscapeChar(s[0]) + EscapeOnce(s[1..])
  }

  /** No later replacement touches what an earlier one wrote: the four passes are one. */
  lemma {:induction false} FourPassesAreOne(s: string)
    ensures EscapeEvent(s) == EscapeOnce(s)
  {
    if s == "" {
    } else {
      FourPassesAreOne(s[1..]);
      EscapeEventStep([s[0]], s[1..]);
      assert [s[0]] + s[1..] == s;
      SingleEscape(s[0]);
    }
  }

  lemma EscapeEventStep(a: string, b: string)
    ensures EscapeEvent(a + b) == EscapeEvent(a) + EscapeEvent(b)
  {
    hide Replace;
    var a1, b1 := Replace(a, '\\', "\\\\"), Replace(b, '\\', "\\\\");
    var a2, b2 := Replace(a1, '"', "\\\""), Replace(b1, '"', "\\\"");
    ReplaceAppend(a, b, '\\', "\\\\");
    ReplaceAppend(a1, b1, '"', "\\\"");
    ReplaceAppend(a2, b2, '\n', "\\n");
    ReplaceAppend(Replace(a2, '\n', "\\n"), Replace(b2, '\n', "\\n"), '\r', "\\r");
  }

  lemma ReplaceOne(c: char, d: char, with: string)
    ensures Replace([c], d, with) == if c == d then with else [c]
  {
    assert [c][1..] == "";
    assert Replace([c], d, with) == (if c == d then with else [c]) + Replace("", d, with);
  }

  lemma SingleEscape(c: char)
    ensures EscapeEvent([c]) == EscapeChar(c)
  {
    ReplaceOne(c, '\\', "\\\\");
    ReplaceOne(c, '"', "\\\"");
    ReplaceOne(c, '\n', "\\n");
    ReplaceOne(c, '\r', "\\r");
    ReplaceAbsent("\\\\", '"', "\\\"");
    ReplaceAbsent("\\\\", '\n', "\\n");
    ReplaceAbsent("\\\\", '\r', "\\r");
    ReplaceAbsent("\\\"", '\n', "\\n");
    ReplaceAbsent("\\\"", '\r', "\\r");
    ReplaceAbsent("\\n", '\r', "\\r");
  }

  /** A character that RFC 8259 forbids inside a string. */
  predicate IsRawControl(c: char) {
    c as int < 0x20
  }

  /**
   Reading a JSON string after its opening quote: the text and what follows the closing quote.
   A strict reader refuses control characters; the escape with `u` is not read.
   */
  function ReadJson(s: string, strict: bool): Option<(string, string)>
    decreases |s|
  {
    if s == "" then None
    else if s[0] == '"' then Some(("", s[1..]))
    else if s[0] == '\\' then
      if |s| == 1 || Unescaped(s[1]) == None then None
      else Push(Unescaped(s[1]).value, ReadJson(s[2..], strict))
    else if strict && IsRawControl(s[0]) then None
    else Push(s[0], ReadJson(s[1..], strict))
  }

  function Unescaped(c: char): Option<char> {
    match c
    case '"' => Some('"')
    case '\\' => Some('\\')
    case '/' => Some('/')
    case 'b' => Some('\U{0008}')
    case 'f' => Some('\U{000C}')
    case 'n' => Some('\n')
    case 'r' => Some('\r')
    case 't' => Some('\t')
    case _ => None
  }

  function Push(c: char, r: Option<(string, string)>): Option<(string, string)> {
    match r
    case None => None
    case Some((text, rest)) => Some(([c] + text, rest))
  }

  /** A control character other than LF and CR, which the recorder leaves as it is. */
  predicate LeftRaw(c: char) {
    IsRawControl(c) && c != '\n' && c != '\r'
  }

  lemma ReadEscapedChar(c: char, more: string, strict: bool)
    ensures ReadJson(EscapeChar(c) + more, strict) ==
            if strict && LeftRaw(c) then None else Push(c, ReadJson(more, strict))
  {
    var e := EscapeChar(c);
    assert (e + more)[|e|..] == more;
    assert (e + more)[0] == e[0] && (|e| == 2 ==> (e + more)[1] == e[1]);
  }

  predicate SomeLeftRaw(s: string) {
    exists c <- s :: LeftRaw(c)
  }

  lemma SomeLeftRawStep(s: string)
    requires s != ""
    ensures SomeLeftRaw(s) <==> LeftRaw(s[0]) || SomeLeftRaw(s[1..])
  {
    hide LeftRaw;
    assert s == [s[0]] + s[1..];
  }

  lemma ReadQuote(rest: string, strict: bool)
    ensures ReadJson("\"" + rest, strict) == Some(("", rest))
  {
    assert ("\"" + rest)[1..] == rest;
  }

  lemma {:induction false} ReadEscapedOnce(s: string, rest: string, strict: bool)
    ensures ReadJson(EscapeOnce(s) + "\"" + rest, strict) == if strict && SomeLeftRaw(s) then None else Some((s, rest))
  {
    hide EscapeChar, ReadJson, LeftRaw, SomeLeftRaw;
    if s == "" {
      ReadQuote(rest, strict);
      assert EscapeOnce(s) + "\"" + rest == "\"" + rest;
      assert !SomeLeftRaw("") by { NoneLeftRaw(); }
    } else {
      var e, more := EscapeChar(s[0]), EscapeOnce(s[1..]) + "\"" + rest;
      assert EscapeOnce(s) + "\"" + rest == e + more;
      ReadEscapedChar(s[0], more, strict);
      ReadEscapedOnce(s[1..], rest, strict);
      SomeLeftRawStep(s);
      assert s == [s[0]] + s[1..];
    }
  }

  lemma NoneLeftRaw()
    ensures !SomeLeftRaw("")
  {
  }

  /** Recorded output is never lost: unescaping gives it back and stops at the closing quote. */
  lemma EscapeInverts(s: string, rest: string)
    ensures ReadJson(EscapeEvent(s) + "\"" + rest, false) == Some((s, rest))
  {
    FourPassesAreOne(s);
    ReadEscapedOnce(s, rest, false);
  }

  /** The recorded string is valid JSON if and only if the output has no control character but LF and CR. */
  lemma ValidJsonExactly(s: string, rest: string)
    ensures ReadJson(EscapeEvent(s) + "\"" + rest, true) == Some((s, rest)) <==> !SomeLeftRaw(s)
    ensures SomeLeftRaw(s) <==> exists i | 0 <= i < |s| :: s[i] as int < 32 && s[i] as int !in {10, 13}
  {
    FourPassesAreOne(s);
    ReadEscapedOnce(s, rest, true);
    hide ReadJson, EscapeEvent;
    LeftRawByCode(s);
  }

  lemma LeftRawByCode(s: string)
    ensures SomeLeftRaw(s) <==> exists i | 0 <= i < |s| :: s[i] as int < 32 && s[i] as int !in {10, 13}
  {
    forall i | 0 <= i < |s|
      ensures LeftRaw(s[i]) <==> s[i] as int < 32 && s[i] as int !in {10, 13}
    {
    }
  }

  /** What is recorded for one character, and that characters are recorded one by one. */
  lemma {:induction false} RecordedOneByOne(c: char, s: string)
    ensures EscapeEvent([c]) ==
              if c as int == 92 then [92 as char, 92 as char]
              else if c as int == 34 then [92 as char, 34 as char]
              else if c as int == 10 then [92 as char, 'n']
              else if c as int == 13 then [92 as char, 'r']
              else [c]
    ensures EscapeEvent([c] + s) == EscapeEvent([c]) + EscapeEvent(s)
  {
    FourPassesAreOne([c]);
    FourPassesAreOne(s);
    FourPassesAreOne([c] + s);
    assert [c][1..] == "" && ([c] + s)[1..] == s;
    assert EscapeOnce("") == "" && EscapeChar(c) + "" == EscapeChar(c);
    hide EscapeEvent;
  }

  /** An escape character in the output is left as it is, and a strict reader refuses it. */
  lemma EscapeCharExample(rest: string)
    ensures ReadJson(EscapeEvent("\U{001B}[0m") + "\"" + rest, true) != Some(("\U{001B}[0m", rest))
  {
    var s := "\U{001B}[0m";
    assert LeftRaw(s[0]);
    assert SomeLeftRaw(s);
    hide *;
    ValidJsonExactly(s, rest);
  }

  // ---- SQL literals -----------------------------------------------------------

  function MysqlBody(s: string): string {
    Replace(Replace(s, '\'', "''"), '\\', "\\\\")
  }

  function PostgresBody(s: string): string {
    Replace(s, '\'', "''")
  }

  /** The escape sequences of MySQL string literals; any other character stands for itself. */
  function MysqlEscape(c: char): char {
    match c
    case '0' => '\0'
    case 'b' => '\U{0008}'
    case 'n' => '\n'
    case 'r' => '\r'
    case 't' => '\t'
    case 'Z' => '\U{001A}'
    case _ => c
  }

  /**
   Reading a string literal after its opening quote; `backslash` says whether backslash escapes (MySQL) or not
   (PostgreSQL).
   */
  function ReadLiteral(s: string, backslash: bool): Option<(string, string)>
    decreases |s|
  {
    if s == "" then None
    else if s[0] == '\'' then
      if |s| > 1 && s[1] == '\'' then Push('\'', ReadLiteral(s[2..], backslash)) else Some(("", s[1..]))
    else if backslash && s[0] == '\\' then
      if |s| == 1 then None else Push(MysqlEscape(s[1]), ReadLiteral(s[2..], backslash))
    else Push(s[0], ReadLiteral(s[1..], backslash))
  }

  function LiteralChar(c: char, backslash: bool): string {
    if c == '\'' then "''" else if backslash && c == '\\' then "\\\\" else [c]
  }

  function LiteralOnce(s: string, backslash: bool): string {
    if s == "" then "" else LiteralChar(s[0], backslash) + LiteralOnce(s[1..], backslash)
  }

  lemma {:induction false} MysqlPassesAreOne(s: string)
    ensures MysqlBody(s) == LiteralOnce(s, true) && PostgresBody(s) == LiteralOnce(s, false)
  {
    if s == "" {
    } else {
      var q := if s[0] == '\'' then "''" else [s[0]];
      MysqlPassesAreOne(s[1..]);
      ReplaceAppend(q, Replace(s[1..], '\'', "''"), '\\', "\\\\");
      ReplaceAbsent("''", '\\', "\\\\");
      assert Replace([s[0]], '\\', "\\\\") == if s[0] == '\\' then "\\\\" else [s[0]];
    }
  }

  lemma ReadLiteralChar(c: char, more: string, backslash: bool)
    ensures ReadLiteral(LiteralChar(c, backslash) + more, backslash) == Push(c, ReadLiteral(more, backslash))
  {
    var e := LiteralChar(c, backslash);
    assert (e + more)[|e|..] == more;
    assert (e + more)[0] == e[0] && (|e| == 2 ==> (e + more)[1] == e[1]);
  }

  lemma ReadClosing(rest: string, backslash: bool)
    requires rest == "" || rest[0] != '\''
    ensures ReadLiteral("'" + rest, backslash) == Some(("", rest))
  {
    assert ("'" + rest)[1..] == rest;
  }

  lemma {:induction false} ReadLiteralOnce(s: string, rest: string, backslash: bool)
    requires rest == "" || rest[0] != '\''
    ensures ReadLiteral(LiteralOnce(s, backslash) + "'" + rest, backslash) == Some((s, rest))
  {
    hide LiteralChar, ReadLiteral;
    if s == "" {
      ReadClosing(rest, backslash);
      assert LiteralOnce(s, backslash) + "'" + rest == "'" + rest;
    } else {
      var e, more := LiteralChar(s[0], backslash), LiteralOnce(s[1..], backslash) + "'" + rest;
      assert LiteralOnce(s, backslash) + "'" + rest == e + more;
      ReadLiteralChar(s[0], more, backslash);
      ReadLiteralOnce(s[1..], rest, backslash);
      assert s == [s[0]] + s[1..];
    }
  }

  /**
   Every password, quoted for either engine, reads back as itself, and its literal ends exactly at the closing
   quote.
   */
  lemma PasswordReadsBack(password: string, rest: string)
    requires rest == "" || rest[0] != '\''
    ensures ReadLiteral(MysqlBody(password) + "'" + rest, true) == Some((password, rest))
    ensures ReadLiteral(PostgresBody(password) + "'" + rest, false) == Some((password, rest))
  {
    MysqlPassesAreOne(password);
    ReadLiteralOnce(password, rest, true);
    ReadLiteralOnce(password, rest, false);
  }

  const BEFORE_USER := "ALTER USER '"
  const BEFORE_PASSWORD := "@'%' IDENTIFIED " + "BY '"

  /** The statement sent to MariaDB. */
  function AlterUser(user: string, password: string): string {
    BEFORE_USER + (MysqlBody(user) + "'" + (BEFORE_PASSWORD + (MysqlBody(password) + "'" + ";")))
  }

  function Expect(prefix: string, s: string): Option<string> {
    if prefix <= s then Some(s[|prefix|..]) else None
  }

  function ReadPassword(s: string): Option<string> {
    match ReadLiteral(s, true)
    case None => None
    case Some((password, rest)) => if rest == ";" then Some(password) else None
  }

  /** A reader of that statement: the user and the password it names. */
  function ReadAlterUser(s: string): Option<(string, string)> {
    match Expect(BEFORE_USER, s)
    case None => None
    case Some(s1) =>
      match ReadLiteral(s1, true)
      case None => None
      case Some((user, s2)) =>
        match Expect(BEFORE_PASSWORD, s2)
        case None => None
        case Some(s3) =>
          match ReadPassword(s3)
          case None => None
          case Some(password) => Some((user, password))
  }

  lemma ExpectReads(prefix: string, s: string)
    ensures Expect(prefix, prefix + s) == Some(s)
  {
  }

  lemma AlterUserReadsBack(user: string, password: string)
    ensures ReadAlterUser(AlterUser(user, password)) == Some((user, password))
  {
    assert BEFORE_PASSWORD[0] == '@';
    hide MysqlBody, ReadLiteral, Expect, BEFORE_USER, BEFORE_PASSWORD;
    var tail := MysqlBody(password) + "'" + ";";
    PasswordReadsBack(password, ";");
    PasswordReadsBack(user, BEFORE_PASSWORD + tail);
    ExpectReads(BEFORE_PASSWORD, tail);
    ExpectReads(BEFORE_USER, MysqlBody(user) + "'" + (BEFORE_PASSWORD + tail));
  }

  // ---- The statement for PostgreSQL ---------------------------------------------------

  const BEFORE_NAME := "ALTER USER \""
  const BEFORE_SECRET := " WITH PASSWORD '"

  /** The statement sent to PostgreSQL. */
  function AlterRole(user: string, password: string): string {
    BEFORE_NAME + (Replace(user, '"', "\\\"") + "\"" + (BEFORE_SECRET + (PostgresBody(password) + "'" + ";")))
  }

  /** Reading a quoted identifier after its opening quote: only a doubled quote stands for a quote. */
  function ReadIdentifier(s: string): Option<(string, string)>
    decreases |s|
  {
    if s == "" then None
    else if s[0] == '"' then
      if |s| > 1 && s[1] == '"' then Push('"', ReadIdentifier(s[2..])) else Some(("", s[1..]))
    else Push(s[0], ReadIdentifier(s[1..]))
  }

  function ReadSecret(s: string): Option<string> {
    match ReadLiteral(s, false)
    case None => None
    case Some((password, rest)) => if rest == ";" then Some(password) else None
  }

  /** A reader of that statement; an identifier is not empty. */
  function ReadAlterRole(s: string): Option<(string, string)> {
    match Expect(BEFORE_NAME, s)
    case None => None
    case Some(s1) =>
      match ReadIdentifier(s1)
      case None => None
      case Some((user, s2)) =>
        match Expect(BEFORE_SECRET, s2)
        case None => None
        case Some(s3) =>
          match ReadSecret(s3)
          case None => None
          case Some(password) => if user == "" then None else Some((user, password))
  }

  lemma {:induction false} ReadPlainName(a: string, rest: string)
    requires '"' !in a
    ensures ReadIdentifier(a + rest) ==
            match ReadIdentifier(rest) { case None => None case Some((x, more)) => Some((a + x, more)) }
  {
    if a == "" {
      assert a + rest == rest;
      assert forall x: string :: "" + x == x;
    } else {
      assert (a + rest)[1..] == a[1..] + rest && (a + rest)[0] == a[0];
      ReadPlainName(a[1..], rest);
      assert forall x: string :: [a[0]] + (a[1..] + x) == a + x;
    }
  }

  lemma ReadClosingQuote(rest: string)
    requires rest == "" || rest[0] != '"'
    ensures ReadIdentifier("\"" + rest) == Some(("", rest))
  {
    assert ("\"" + rest)[1..] == rest;
  }

  lemma {:induction false} FirstQuote(user: string) returns (a: string, b: string)
    requires '"' in user
    ensures '"' !in a && user == a + "\"" + b
  {
    if user[0] == '"' {
      a, b := "", user[1..];
    } else {
      a, b := FirstQuote(user[1..]);
      a := [user[0]] + a;
    }
  }

  lemma ReadAlterRoleIs(user: string, text: string)
    ensures var s := BEFORE_NAME + text;
            match ReadIdentifier(text)
            case None => ReadAlterRole(s) == None
            case Some((name, _)) => ReadAlterRole(s).Some? ==> ReadAlterRole(s).value.0 == name
  {
    ExpectReads(BEFORE_NAME, text);
    hide ReadIdentifier, Expect, ReadSecret;
  }

  lemma EscapedQuote(a: string, b: string)
    requires '"' !in a
    ensures Replace(a + "\"" + b, '"', "\\\"") == a + "\\" + ("\"" + Replace(b, '"', "\\\""))
  {
    ReplaceAppend(a + "\"", b, '"', "\\\"");
    ReplaceAppend(a, "\"", '"', "\\\"");
    ReplaceAbsent(a, '"', "\\\"");
    assert Replace("\"", '"', "\\\"") == "\\\"";
  }

  /** A user with a quote is never read back: where the quote was, the identifier has a backslash. */
  lemma QuoteLost(a: string, b: string, password: string)
    requires '"' !in a
    ensures var r := ReadAlterRole(AlterRole(a + "\"" + b, password)); r.Some? ==> r.value.0 != a + "\"" + b
  {
    var user := a + "\"" + b;
    var after := BEFORE_SECRET + (PostgresBody(password) + "'" + ";");
    var rest := "\"" + Replace(b, '"', "\\\"") + "\"" + after;
    EscapedQuote(a, b);
    var text := Replace(user, '"', "\\\"") + "\"" + after;
    assert text == a + "\\" + rest;
    hide ReadAlterRole, ReadIdentifier, PostgresBody, Replace, BEFORE_SECRET, BEFORE_NAME;
    ReadPlainName(a + "\\", rest);
    ReadAlterRoleIs(user, text);
    assert user[|a|] == '"' && forall x: string :: (a + "\\" + x)[|a|] == '\\';
  }

  lemma SecretReads(password: string)
    ensures ReadSecret(PostgresBody(password) + "'" + ";") == Some(password)
  {
    PasswordReadsBack(password, ";");
    hide ReadLiteral, PostgresBody, MysqlBody;
  }

  lemma PlainRoleReads(user: string, password: string)
    requires '"' !in user
    ensures ReadAlterRole(AlterRole(user, password)) == if user == "" then None else Some((user, password))
  {
    assert BEFORE_SECRET[0] == ' ';
    ReplaceAbsent(user, '"', "\\\"");
    hide ReadIdentifier, Expect, ReadSecret, PostgresBody, Replace, BEFORE_NAME, BEFORE_SECRET;
    var secret := PostgresBody(password) + "'" + ";";
    assert user + "\"" + (BEFORE_SECRET + secret) == user + ("\"" + (BEFORE_SECRET + secret));
    SecretReads(password);
    assert user + "" == user;
    ReadPlainName(user, "\"" + (BEFORE_SECRET + secret));
    ReadClosingQuote(BEFORE_SECRET + secret);
    ExpectReads(BEFORE_SECRET, secret);
    ExpectReads(BEFORE_NAME, user + "\"" + (BEFORE_SECRET + secret));
  }

  /** The statement for PostgreSQL names its user and password if and only if the user is not empty and has no quote. */
  lemma AlterRoleExactly(user: string, password: string)
    ensures ReadAlterRole(AlterRole(user, password)) == Some((user, password)) <==> user != "" && '"' !in user
  {
    if '"' in user {
      var a, b := FirstQuote(user);
      QuoteLost(a, b, password);
    } else {
      PlainRoleReads(user, password);
    }
  }

  // ---- The statements, written out ----------------------------------------------------

  /** The two statements for a user and a password without quotes and backslashes. */
  lemma StatementsWritten(user: string, password: string)
    requires forall c <- user + password :: c != '\'' && c != '"' && c != '\\'
    ensures AlterUser(user, password) == "ALTER USER '" + user + "'@'%' IDENTIFIED BY '" + password + "';"
    ensures AlterRole(user, password) == "ALTER USER \"" + user + "\" WITH PASSWORD '" + password + "';"
  {
    assert forall c <- user :: c in user + password;
    assert forall c <- password :: c in user + password;
    assert '\'' !in user && '"' !in user && '\\' !in user && '\'' !in password && '\\' !in password;
    ReplaceAbsent(user, '\'', "''");
    ReplaceAbsent(user, '\\', "\\\\");
    ReplaceAbsent(user, '"', "\\\"");
    ReplaceAbsent(password, '\'', "''");
    ReplaceAbsent(password, '\\', "\\\\");
    hide Replace;
    MysqlText(user, password);
    PostgresText(user, password);
  }

  lemma MysqlText(user: string, password: string)
    ensures BEFORE_USER + (user + "'" + (BEFORE_PASSWORD + (password + "'" + ";")))
         == "ALTER USER '" + user + "'@'%' IDENTIFIED BY '" + password + "';"
  {
  }

  lemma PostgresText(user: string, password: string)
    ensures BEFORE_NAME + (user + "\"" + (BEFORE_SECRET + (password + "'" + ";")))
         == "ALTER USER \"" + user + "\" WITH PASSWORD '" + password + "';"
  {
  }
}
