/**
 ShellEscape and BuildShellCommand (yacul/system/popen_wrapper.cc), and the shell that reads
 their output: token recognition and quote removal of the POSIX.1-2017 Shell Command Language.
 */
module ShellCommand {
  import opened Options

  // ---------------------------------------------------------------- the shell's side

  /** Where the reader is: between words, or in a word after an unquoted, single- or double-quoted character. */
  datatype Mode = Blank | Plain(word: string) | Single(word: string) | Double(word: string)

  predicate IsBlank(c: char)
  {
    c == ' ' || c == '\t'
  }

  /** Unquoted, these end a word list or call for an expansion, a comment, an assignment or a reserved word. */
  predicate IsSpecial(c: char)
  {
    c in "|&;<>()$`*?[]#~=%{}!\n"
  }

  function WordSoFar(mode: Mode): string
  {
    if mode.Blank? then "" else mode.word
  }

  /**
   The words of s with their quotes removed, after words and a partial word in the given mode; None if s is
   not a plain list of words.  Sections 2.2.1 to 2.2.3 (backslash, single quotes, double quotes), 2.3 (a blank
   delimits a token) and 2.6.7 (quote removal).
   */
  function Scan(s: string, mode: Mode, words: seq<string>): Option<seq<string>>
    decreases |s|
  {
    if |s| == 0 then
      match mode
      case Blank => Some(words)
      case Plain(w) => Some(words + [w])
      case _ => None
    else
      var c, rest, w := s[0], s[1..], WordSoFar(mode);
      match mode
      case Single(_) =>
        if c == '\'' then Scan(rest, Plain(w), words) else Scan(rest, Single(w + [c]), words)
      case Double(_) =>
        if c == '"' then Scan(rest, Plain(w), words)
        else if c == '$' || c == '`' then None
        else if c == '\\' && |rest| > 0 && rest[0] == '\n' then Scan(rest[1..], Double(w), words)
        else if c == '\\' && |rest| > 0 && rest[0] in "$`\"\\" then Scan(rest[1..], Double(w + [rest[0]]), words)
        else Scan(rest, Double(w + [c]), words)
      case _ =>
        if IsBlank(c) then Scan(rest, Blank, if mode.Blank? then words else words + [w])
        else if c == '\'' then Scan(rest, Single(w), words)
        else if c == '"' then Scan(rest, Double(w), words)
        else if c == '\\' then
          if |rest| == 0 then None
          else if rest[0] == '\n' then Scan(rest[1..], mode, words)
          else Scan(rest[1..], Plain(w + [rest[0]]), words)
        else if IsSpecial(c) then None
        else Scan(rest, Plain(w + [c]), words)
  }

  function Tokenize(s: string): Option<seq<string>>
  {
    Scan(s, Blank, [])
  }

  // ---------------------------------------------------------------- the wrapper's side

  function EscapeChar(c: char): string
  {
    if c == '\'' then "'\"'\"'" else [c]
  }

  function Inner(token: string): string
  {
    if |token| == 0 then "" else EscapeChar(token[0]) + Inner(token[1..])
  }

  function Quoted(token: string): string
  {
    "'" + Inner(token) + "'"
  }

  function Joined(argv: seq<string>): string
  {
    if |argv| == 0 then ""
    else if |argv| == 1 then Quoted(argv[0])
    else Joined(argv[..|argv| - 1]) + " " + Quoted(argv[|argv| - 1])
  }

  lemma {:induction false} InnerAppend(t: string, c: char)
    ensures Inner(t + [c]) == Inner(t) + EscapeChar(c)
  {
    if |t| == 0 {
      assert t + [c] == [c];
      assert Inner([c]) == EscapeChar(c) + Inner("");
    } else {
      InnerAppend(t[1..], c);
      assert (t + [c])[1..] == t[1..] + [c];
    }
  }

  method ShellEscape(token: string) returns (result: string)
    ensures result == Quoted(token)
  {
    result := "'";
    for i := 0 to |token|
      invariant result == "'" + Inner(token[..i])
    {
      InnerAppend(token[..i], token[i]);
      assert token[..i + 1] == token[..i] + [token[i]];
      if token[i] == '\'' {
        result := result + "'\"'\"'";
      } else {
        result := result + [token[i]];
      }
    }
    assert token[..|token|] == token;
    result := result + "'";
  }

  method BuildShellCommand(argv: seq<string>) returns (cmd: string)
    ensures cmd == Joined(argv)
    ensures Tokenize(cmd) == Some(argv)
  {
    cmd := "";
    for i := 0 to |argv|
      invariant cmd == Joined(argv[..i])
    {
      if i > 0 {
        cmd := cmd + " ";
      }
      var quoted := ShellEscape(argv[i]);
      cmd := cmd + quoted;
      assert argv[..i + 1][..i] == argv[..i];
    }
    assert argv[..|argv|] == argv;
    RoundTrip(argv);
  }

  // ---------------------------------------------------------------- what the shell reads

  /** The escaped text and the closing quote add exactly the token to the word. */
  lemma {:induction false} ScanInner(token: string, rest: string, w: string, words: seq<string>)
    ensures Scan(Inner(token) + "'" + rest, Single(w), words) == Scan(rest, Plain(w + token), words)
    decreases |token|
  {
    if |token| == 0 {
      assert Inner(token) + "'" + rest == "'" + rest;
      assert w + token == w;
    } else {
      var more := Inner(token[1..]) + "'" + rest;
      assert Inner(token) + "'" + rest == EscapeChar(token[0]) + more;
      if token[0] == '\'' {
        ScanApostrophe(more, w, words);
      } else {
        assert ([token[0]] + more)[1..] == more;
      }
      ScanInner(token[1..], rest, w + [token[0]], words);
      assert w + [token[0]] + token[1..] == w + token;
    }
  }

  /** The five characters for an apostrophe: close, open double, the apostrophe, close double, open single. */
  lemma ScanApostrophe(more: string, w: string, words: seq<string>)
    ensures Scan("'\"'\"'" + more, Single(w), words) == Scan(more, Single(w + "'"), words)
  {
    var s1, s2, s3, s4 := "\"'\"'" + more, "'\"'" + more, "\"'" + more, "'" + more;
    assert ("'\"'\"'" + more)[1..] == s1;
    assert s1[1..] == s2 && s2[1..] == s3 && s3[1..] == s4 && s4[1..] == more;
    assert Scan(s1, Plain(w), words) == Scan(s2, Double(w), words);
    assert Scan(s2, Double(w), words) == Scan(s3, Double(w + "'"), words);
    assert Scan(s3, Double(w + "'"), words) == Scan(s4, Plain(w + "'"), words);
    assert Scan(s4, Plain(w + "'"), words) == Scan(more, Single(w + "'"), words);
  }

  /** A quoted token between words becomes the word in progress. */
  lemma ScanQuoted(token: string, rest: string, words: seq<string>)
    ensures Scan(Quoted(token) + rest, Blank, words) == Scan(rest, Plain(token), words)
  {
    var s := Quoted(token) + rest;
    assert s[0] == '\'' && s[1..] == Inner(token) + "'" + rest;
    ScanInner(token, rest, "", words);
    assert "" + token == token;
  }

  lemma ScanSpace(rest: string, w: string, words: seq<string>)
    ensures Scan(" " + rest, Plain(w), words) == Scan(rest, Blank, words + [w])
  {
    assert (" " + rest)[1..] == rest;
  }

  lemma {:induction false} ScanJoined(argv: seq<string>, rest: string, words: seq<string>)
    requires |argv| > 0
    ensures Scan(Joined(argv) + rest, Blank, words) == Scan(rest, Plain(argv[|argv| - 1]), words + argv[..|argv| - 1])
    decreases |argv|
  {
    var n := |argv| - 1;
    var last := argv[n];
    if n == 0 {
      ScanQuoted(last, rest, words);
      assert words + argv[..0] == words;
    } else {
      var init := argv[..n];
      var tail := " " + (Quoted(last) + rest);
      assert Joined(argv) + rest == Joined(init) + tail;
      ScanJoined(init, tail, words);
      ScanSpace(Quoted(last) + rest, init[n - 1], words + init[..n - 1]);
      assert words + init[..n - 1] + [init[n - 1]] == words + init;
      ScanQuoted(last, rest, words + init);
    }
  }

  /** For every argument vector, the shell reads back exactly that vector. */
  lemma RoundTrip(argv: seq<string>)
    ensures Tokenize(Joined(argv)) == Some(argv)
  {
    if |argv| > 0 {
      ScanJoined(argv, "", []);
      assert Joined(argv) + "" == Joined(argv);
      assert [] + argv[..|argv| - 1] + [argv[|argv| - 1]] == argv;
    }
  }
}
