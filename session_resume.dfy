/** Resuming a session: the session-ID check, the command line handed to a
    terminal, and the escaping that embeds it in the AppleScript run on macOS. */

module SessionResume {
  import opened Wrappers
  import opened Text

  const InvalidSessionId: string := "Invalid session ID format"
  const ResumePrefix: string := "claude --resume "
  const UnsetPrefix: string := "unset CLAUDECODE; "
  const ScriptHead: string := "tell application \"Terminal\"\n  activate\n  do script \""
  const ScriptTail: string := "\"\nend tell"

  /** The session-ID pattern `^[A-Za-z0-9_-]+$`. */
  predicate IsSessionId(id: string) {
    MatchesSafeName(id)
  }

  /** `resume_session`: validate the ID, then build the command to run. */
  function ResumeCommand(sessionId: string): (r: Result<string, string>)
    ensures r.Ok? <==> IsSessionId(sessionId)
    ensures r.Err? ==> r.error == InvalidSessionId
    ensures r.Ok? ==> |r.value| > |ResumePrefix| && r.value[..|ResumePrefix|] == ResumePrefix
                      && r.value[|ResumePrefix|..] == sessionId
  {
    if sessionId == [] || !IsSessionId(sessionId) then Err(InvalidSessionId)
    else Ok(ResumePrefix + sessionId)
  }

  /** The command actually typed into the terminal, with the nested-session
      marker cleared first. */
  function FullCommand(cmd: string): string {
    UnsetPrefix + cmd
  }

  /** Backslashes doubled first, then each quote preceded by a backslash. */
  function Escape(s: string): string {
    ReplaceChar(ReplaceChar(s, '\\', "\\\\"), '"', "\\\"")
  }

  /** What one character becomes under `Escape`. */
  function EscapeChar(c: char): string {
    if c == '\\' then "\\\\" else if c == '"' then "\\\"" else [c]
  }

  /** The reading of a string literal body: `\\` and `\"` stand for one
      character each, anything else for itself. */
  function Unescape(t: string): string
    decreases |t|
  {
    if t == [] then []
    else if |t| >= 2 && t[0] == '\\' && (t[1] == '\\' || t[1] == '"') then [t[1]] + Unescape(t[2..])
    else [t[0]] + Unescape(t[1..])
  }

  /** A string that can sit between the quotes of a literal: every backslash
      starts an escape pair, and no bare quote ends the literal early. */
  predicate WellEscaped(t: string)
    decreases |t|
  {
    t == []
    || (|t| >= 2 && t[0] == '\\' && (t[1] == '\\' || t[1] == '"') && WellEscaped(t[2..]))
    || (t[0] != '\\' && t[0] != '"' && WellEscaped(t[1..]))
  }

  /** The AppleScript that opens Terminal and runs the command. */
  function MacScript(cmd: string): string {
    ScriptHead + Escape(FullCommand(cmd)) + ScriptTail
  }

  /** Escaping works character by character. */
  lemma EscapeCons(c: char, s: string)
    ensures Escape([c] + s) == EscapeChar(c) + Escape(s)
  {
    var once := ReplaceChar(s, '\\', "\\\\");
    var head := if c == '\\' then "\\\\" else [c];
    assert ([c] + s)[1..] == s;
    assert ReplaceChar([c] + s, '\\', "\\\\") == head + once;
    ReplaceCharAppend(head, once, '"', "\\\"");
    if c == '\\' {
      ReplaceCharAbsent(head, '"', "\\\"");
    } else {
      assert ReplaceChar(head, '"', "\\\"") == EscapeChar(c) by {
        assert head[1..] == [];
      }
    }
  }

  /** Escaping adds one character per backslash and per quote. */
  lemma {:induction false} EscapeLength(s: string)
    ensures |Escape(s)| == |s| + Count(s, '\\') + Count(s, '"')
  {
    if s != [] {
      EscapeLength(s[1..]);
      EscapeCons(s[0], s[1..]);
      assert s == [s[0]] + s[1..];
      assert multiset(s) == multiset{s[0]} + multiset(s[1..]);
    }
  }

  /** Reading the escaped text back gives the original string. */
  lemma {:induction false} UnescapeEscape(s: string)
    ensures Unescape(Escape(s)) == s
  {
    if s != [] {
      var c, rest := s[0], s[1..];
      assert s == [c] + rest;
      EscapeCons(c, rest);
      UnescapeEscape(rest);
      var t := EscapeChar(c) + Escape(rest);
      if c == '\\' || c == '"' {
        assert t[2..] == Escape(rest);
      } else {
        assert t[1..] == Escape(rest);
      }
    } else {
      assert Escape(s) == [];
    }
  }

  /** Escaped text never closes the literal it is placed in. */
  lemma {:induction false} EscapeWellEscaped(s: string)
    ensures WellEscaped(Escape(s))
  {
    if s != [] {
      var c, rest := s[0], s[1..];
      assert s == [c] + rest;
      EscapeCons(c, rest);
      EscapeWellEscaped(rest);
      var t := EscapeChar(c) + Escape(rest);
      if c == '\\' || c == '"' {
        assert t[2..] == Escape(rest);
      } else {
        assert t[1..] == Escape(rest);
      }
    } else {
      assert Escape(s) == [];
    }
  }

  /** Every well-escaped literal body is the escape of what it reads as, so
      `Escape` and `Unescape` are inverse bijections on these strings. */
  lemma {:induction false} EscapeUnescape(t: string)
    requires WellEscaped(t)
    ensures Escape(Unescape(t)) == t
    decreases |t|
  {
    if t != [] {
      if |t| >= 2 && t[0] == '\\' && (t[1] == '\\' || t[1] == '"') {
        EscapeUnescape(t[2..]);
        EscapeCons(t[1], Unescape(t[2..]));
        assert t == t[..2] + t[2..];
      } else {
        EscapeUnescape(t[1..]);
        EscapeCons(t[0], Unescape(t[1..]));
        assert t == [t[0]] + t[1..];
      }
    } else {
      assert Escape([]) == [];
    }
  }

  /** A string with no backslash and no quote is left as it is. */
  lemma EscapePlain(s: string)
    requires '\\' !in s && '"' !in s
    ensures Escape(s) == s
  {
    ReplaceCharAbsent(s, '\\', "\\\\");
    ReplaceCharAbsent(s, '"', "\\\"");
  }

  /** The script's quoted body reads back as exactly the full command. */
  lemma MacScriptCarriesCommand(cmd: string)
    ensures var script := MacScript(cmd);
      |script| >= |ScriptHead| + |ScriptTail|
      && var body := script[|ScriptHead|..|script| - |ScriptTail|];
      WellEscaped(body) && Unescape(body) == FullCommand(cmd)
  {
    var body := Escape(FullCommand(cmd));
    var script := MacScript(cmd);
    assert script[|ScriptHead|..|script| - |ScriptTail|] == body;
    EscapeWellEscaped(FullCommand(cmd));
    UnescapeEscape(FullCommand(cmd));
  }

  /** For an accepted ID the command is one word after the prefix: no space,
      no `;`, no backslash and no quote reach the shell. */
  lemma AcceptedCommandInert(sessionId: string)
    requires ResumeCommand(sessionId).Ok?
    ensures var tail := ResumeCommand(sessionId).value[|ResumePrefix|..];
      forall i :: 0 <= i < |tail| ==>
        tail[i] != ' ' && tail[i] != ';' && tail[i] != '\\' && tail[i] != '"'
  {
  }

  /** For an accepted ID, escaping changes nothing and the script carries the
      command verbatim. */
  lemma AcceptedScriptVerbatim(sessionId: string)
    requires IsSessionId(sessionId)
    ensures MacScript(ResumePrefix + sessionId)
         == ScriptHead + UnsetPrefix + ResumePrefix + sessionId + ScriptTail
  {
    var full := FullCommand(ResumePrefix + sessionId);
    assert full == (UnsetPrefix + ResumePrefix) + sessionId;
    assert forall i :: 0 <= i < |UnsetPrefix + ResumePrefix| ==>
      (UnsetPrefix + ResumePrefix)[i] != '\\' && (UnsetPrefix + ResumePrefix)[i] != '"';
    assert forall i :: 0 <= i < |full| ==> full[i] != '\\' && full[i] != '"' by {
      forall i | 0 <= i < |full|
        ensures full[i] != '\\' && full[i] != '"'
      {
        if i >= |UnsetPrefix + ResumePrefix| {
          assert full[i] == sessionId[i - |UnsetPrefix + ResumePrefix|];
        }
      }
    }
    EscapePlain(full);
  }

  /** The pattern's accept and reject cases the source documents. */
  lemma SessionIdExamples()
    ensures IsSessionId("2df568e6-f193-4037-a3ba-a8f901ebc722")
    ensures !IsSessionId("invalid session id")
    ensures !IsSessionId("test;rm -rf /")
    ensures ResumeCommand("") == Err(InvalidSessionId)
  {
    assert "invalid session id"[7] == ' ';
    assert "test;rm -rf /"[4] == ';';
  }
}
