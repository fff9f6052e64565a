/**
 * The command line launch_game hands to the shell, and the -k / -F flag
 * loop at the start of main (frotzl.c).
 */
module Launch {
  import opened CStrings
  import opened GameFiles

  /** Size of launch_game's command buffer, terminator included. */
  const COMMAND_LEN: nat := 1024
  const INTERPRETER: string := "./sfrotz"
  const KEYBOARD_FLAG: string := " -k"
  const FULLSCREEN_FLAG: string := " -F"

  /** What is launched: the game's path and the two pass-through flags. */
  datatype Request = Request(path: string, keyboard: bool, fullscreen: bool)

  /** The path as the shell sees it: wrapped in double quotes, nothing escaped. */
  function Quote(path: string): string
  {
    " \"" + path + "\""
  }

  /** The command: interpreter, optional -k, optional -F, then the quoted path. */
  function CommandLine(r: Request): string
  {
    INTERPRETER + (if r.keyboard then KEYBOARD_FLAG else "") + (if r.fullscreen then FULLSCREEN_FLAG else "")
      + Quote(r.path)
  }

  /** Removes flag from the front of s, saying whether it was there. */
  function StripFlag(s: string, flag: string): (bool, string)
  {
    if |flag| <= |s| && s[..|flag|] == flag then (true, s[|flag|..]) else (false, s)
  }

  /** The path inside a quoted tail: from after the opening quote to before the last character. */
  function Unquote(s: string): Option<string>
  {
    if |s| >= 3 && s[..2] == " \"" && s[|s| - 1] == '"' then Some(s[2..|s| - 1]) else None
  }

  /** Reads a command line back into the request it launches. */
  function ParseCommandLine(cmd: string): Option<Request>
  {
    var n := |INTERPRETER|;
    if |cmd| < n || cmd[..n] != INTERPRETER then None
    else
      var (keyboard, rest) := StripFlag(cmd[n..], KEYBOARD_FLAG);
      var (fullscreen, quoted) := StripFlag(rest, FULLSCREEN_FLAG);
      match Unquote(quoted)
      case None => None
      case Some(path) => Some(Request(path, keyboard, fullscreen))
  }

  /** Unquote undoes Quote, whatever the path holds. */
  lemma UnquoteQuote(path: string)
    ensures Unquote(Quote(path)) == Some(path)
  {
    var q := Quote(path);
    assert q[..2] == " \"" && q[2..|q| - 1] == path;
  }

  /** A flag at the front is found and removed. */
  lemma StripFlagPresent(flag: string, t: string)
    ensures StripFlag(flag + t, flag) == (true, t)
  {
    assert (flag + t)[..|flag|] == flag;
  }

  /** A string that differs from the flag at some position does not start with it. */
  lemma StripFlagAbsent(s: string, flag: string, k: nat)
    requires k < |flag| <= |s| && s[k] != flag[k]
    ensures StripFlag(s, flag) == (false, s)
  {
    assert s[..|flag|][k] == s[k];
  }

  /**
   * The command line determines the launch: the flags appear in the fixed
   * order and the path is everything between the first quote and the last
   * character, so reading it back gives the request.
   */
  lemma ParseCommandLineRoundTrip(r: Request)
    ensures ParseCommandLine(CommandLine(r)) == Some(r)
  {
    var quoted := Quote(r.path);
    var afterK := (if r.fullscreen then FULLSCREEN_FLAG else "") + quoted;
    var rest := (if r.keyboard then KEYBOARD_FLAG else "") + afterK;
    var cmd := CommandLine(r);
    assert cmd == INTERPRETER + rest;
    assert cmd[..|INTERPRETER|] == INTERPRETER && cmd[|INTERPRETER|..] == rest;
    if r.keyboard {
      StripFlagPresent(KEYBOARD_FLAG, afterK);
    } else if r.fullscreen {
      StripFlagAbsent(rest, KEYBOARD_FLAG, 2);
    } else {
      StripFlagAbsent(rest, KEYBOARD_FLAG, 1);
    }
    if r.fullscreen {
      StripFlagPresent(FULLSCREEN_FLAG, quoted);
    } else {
      StripFlagAbsent(afterK, FULLSCREEN_FLAG, 1);
    }
    UnquoteQuote(r.path);
  }

  /** Different launches never produce the same command line. */
  lemma CommandLineInjective(r1: Request, r2: Request)
    requires CommandLine(r1) == CommandLine(r2)
    ensures r1 == r2
  {
    ParseCommandLineRoundTrip(r1);
    ParseCommandLineRoundTrip(r2);
  }

  /**
   * snprintf(buf + offset, buf.Length - offset, "%s", piece) when piece fits:
   * the characters go at offset, a terminator after them, and the count
   * written comes back.
   */
  method Append(buf: array<char>, offset: nat, piece: string) returns (written: nat)
    requires offset + |piece| < buf.Length
    modifies buf
    ensures written == |piece|
    ensures buf[..offset + |piece|] == old(buf[..offset]) + piece
    ensures buf[offset + |piece|] == '\0'
  {
    var i := 0;
    while i < |piece|
      invariant 0 <= i <= |piece|
      invariant buf[..offset + i] == old(buf[..offset]) + piece[..i]
    {
      buf[offset + i] := piece[i];
      assert buf[..offset + i + 1] == buf[..offset + i] + [piece[i]];
      i := i + 1;
    }
    buf[offset + |piece|] := '\0';
    written := |piece|;
  }

  /**
   * launch_game's construction of the command in a 1024-byte buffer. The path
   * comes from a MAX_PATH_LEN buffer, so the command never has to be cut.
   */
  method BuildCommand(path: string, keyboard: bool, fullscreen: bool) returns (command: string)
    requires |path| < MAX_PATH_LEN
    ensures command == CommandLine(Request(path, keyboard, fullscreen))
    ensures |command| < COMMAND_LEN
  {
    var buf := new char[COMMAND_LEN];
    var offset := 0;
    var n := Append(buf, offset, INTERPRETER);
    offset := offset + n;
    ghost var built := INTERPRETER;
    if keyboard {
      n := Append(buf, offset, KEYBOARD_FLAG);
      offset := offset + n;
      built := built + KEYBOARD_FLAG;
    }
    assert buf[..offset] == built;
    if fullscreen {
      n := Append(buf, offset, FULLSCREEN_FLAG);
      offset := offset + n;
      built := built + FULLSCREEN_FLAG;
    }
    assert buf[..offset] == built;
    var tail := Quote(path);
    n := Append(buf, offset, tail);
    built := built + tail;
    command := buf[..offset + n];
    assert command == built;
  }

  /** A flag is set when some argument after the program name is exactly that flag. */
  predicate HasArg(argv: seq<string>, flag: string)
  {
    exists i :: 1 <= i < |argv| && argv[i] == flag
  }

  /** The flag loop of main: exact "-k" sets keyboard mode, exact "-F" fullscreen, the rest is ignored. */
  method ParseFlags(argv: seq<string>) returns (keyboard: bool, fullscreen: bool)
    ensures keyboard == HasArg(argv, "-k")
    ensures fullscreen == HasArg(argv, "-F")
  {
    keyboard, fullscreen := false, false;
    var i := 1;
    while i < |argv|
      invariant 1 <= i && (|argv| >= 1 ==> i <= |argv|)
      invariant keyboard == exists j :: 1 <= j < i && j < |argv| && argv[j] == "-k"
      invariant fullscreen == exists j :: 1 <= j < i && j < |argv| && argv[j] == "-F"
    {
      if argv[i] == "-k" {
        keyboard := true;
      } else if argv[i] == "-F" {
        fullscreen := true;
      }
      i := i + 1;
    }
  }

  /** Only which arguments occur matters, not their order or how often they repeat. */
  lemma FlagsIgnoreOrder(a: seq<string>, b: seq<string>, flag: string)
    requires |a| >= 1 && |b| >= 1
    requires forall x :: x in a[1..] <==> x in b[1..]
    ensures HasArg(a, flag) == HasArg(b, flag)
  {
    if HasArg(a, flag) {
      var i :| 1 <= i < |a| && a[i] == flag;
      assert a[1..][i - 1] == flag;
      assert flag in b[1..];
      var j :| 0 <= j < |b[1..]| && b[1..][j] == flag;
      assert b[j + 1] == flag;
    }
    if HasArg(b, flag) {
      var i :| 1 <= i < |b| && b[i] == flag;
      assert b[1..][i - 1] == flag;
      assert flag in a[1..];
      var j :| 0 <= j < |a[1..]| && a[1..][j] == flag;
      assert a[j + 1] == flag;
    }
  }
}
