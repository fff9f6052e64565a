/**
 * The control flow of main in frotzl.c: flags, initialisation, scan, then
 * polling passes until a game is confirmed or the user quits. The main loop
 * runs until a terminal event; here it is given a finite list of passes.
 */
module Session {
  import opened CStrings
  import opened GameFiles
  import opened Navigation
  import opened Launch
  import opened Frotzl

  /** How a run ends: an exit status, a launched command (main then returns 0), or still polling. */
  datatype Status = Exited(code: int) | Launched(command: string) | StillRunning(position: Cursor)

  /** The main loop over the given polling passes, from cursor c. */
  function RunPasses(c: Cursor, passes: seq<seq<Event>>, games: seq<GameEntry>,
                     keyboard: bool, fullscreen: bool, visible: int): Status
    requires 0 <= c.selected < |games| && 0 <= c.scrollOffset
    decreases |passes|
  {
    if |passes| == 0 then StillRunning(c)
    else
      var (o, c') := Poll(c, passes[0], |games|, visible);
      PollKeepsSelection(c, passes[0], |games|, visible);
      match o
      case Confirm => Launched(CommandLine(Request(games[c'.selected].path, keyboard, fullscreen)))
      case Quit => Exited(0)
      case Continue => RunPasses(c', passes[1..], games, keyboard, fullscreen, visible)
  }

  /**
   * main: exit 1 when initialisation fails or no game is found, otherwise
   * navigate from the first game until a launch or a quit.
   */
  function MainFlow(argv: seq<string>, initOk: bool, dir: Option<seq<string>>,
                passes: seq<seq<Event>>, height: int): Status
  {
    if !initOk || dir.None? || |Scan(dir.value)| == 0 then Exited(1)
    else RunPasses(Cursor(0, 0), passes, Scan(dir.value), HasArg(argv, "-k"), HasArg(argv, "-F"),
                   VisibleItems(height))
  }

  /**
   * main as a program: it owns one Launcher and drives it through the
   * methods that model the C functions. initOk stands for launcher_init's
   * result and dir for opendir/readdir.
   */
  method Run(argv: seq<string>, initOk: bool, dir: Option<seq<string>>,
             passes: seq<seq<Event>>, height: int) returns (status: Status)
    ensures status == MainFlow(argv, initOk, dir, passes, height)
  {
    var keyboard, fullscreen := ParseFlags(argv);
    var launcher := new Launcher();
    if !initOk {
      return Exited(1);
    }
    var count := launcher.ScanGames(dir);
    if count <= 0 {
      return Exited(1);
    }
    ScanPathsFit(dir.value);
    status := Drive(launcher, passes, keyboard, fullscreen, height);
  }

  /**
   * The main loop of main: one handle_input pass per element of passes,
   * launching the selected game on confirm and stopping on quit.
   */
  method Drive(launcher: Launcher, passes: seq<seq<Event>>, keyboard: bool, fullscreen: bool, height: int)
    returns (status: Status)
    requires launcher.Valid() && 0 <= launcher.selected < launcher.gameCount
    requires forall i :: 0 <= i < launcher.gameCount ==> |launcher.games[i].path| < MAX_PATH_LEN
    modifies launcher`selected, launcher`scrollOffset
    ensures status == RunPasses(old(launcher.Position()), passes, old(launcher.Contents()), keyboard, fullscreen,
                                VisibleItems(height))
  {
    ghost var games := launcher.Contents();
    ghost var visible := VisibleItems(height);
    var p := 0;
    while p < |passes|
      invariant 0 <= p <= |passes|
      invariant launcher.Valid() && launcher.Contents() == games
      invariant 0 <= launcher.selected < launcher.gameCount
      invariant RunPasses(old(launcher.Position()), passes, games, keyboard, fullscreen, visible) ==
        RunPasses(launcher.Position(), passes[p..], games, keyboard, fullscreen, visible)
    {
      assert passes[p..][0] == passes[p] && passes[p..][1..] == passes[p + 1..];
      PollKeepsSelection(launcher.Position(), passes[p], |games|, visible);
      var result := launcher.HandleInput(passes[p], height);
      if result == 1 {
        var path := launcher.games[launcher.selected].path;
        assert path == games[launcher.selected].path;
        var command := BuildCommand(path, keyboard, fullscreen);
        return Launched(command);
      } else if result == -1 {
        return Exited(0);
      }
      p := p + 1;
    }
    return StillRunning(Cursor(launcher.selected, launcher.scrollOffset));
  }

  /** Without a readable directory holding a game, main exits with status 1. */
  lemma NoGamesExitsWithOne(argv: seq<string>, dir: Option<seq<string>>, passes: seq<seq<Event>>, height: int)
    requires dir.None? || Scan(dir.value) == []
    ensures MainFlow(argv, true, dir, passes, height) == Exited(1)
  {
  }

  /** A launched command always runs one of the scanned games with the flags given on the command line. */
  lemma {:induction false} RunPassesLaunchesAGame(c: Cursor, passes: seq<seq<Event>>, games: seq<GameEntry>,
                                                  keyboard: bool, fullscreen: bool, visible: int)
    requires 0 <= c.selected < |games| && 0 <= c.scrollOffset
    ensures var s := RunPasses(c, passes, games, keyboard, fullscreen, visible);
      s.Launched? ==>
        (exists i :: 0 <= i < |games| && s.command == CommandLine(Request(games[i].path, keyboard, fullscreen)))
    decreases |passes|
  {
    if |passes| > 0 {
      var (o, c') := Poll(c, passes[0], |games|, visible);
      PollKeepsSelection(c, passes[0], |games|, visible);
      if o.Continue? {
        RunPassesLaunchesAGame(c', passes[1..], games, keyboard, fullscreen, visible);
      } else if o.Confirm? {
        assert RunPasses(c, passes, games, keyboard, fullscreen, visible).command ==
          CommandLine(Request(games[c'.selected].path, keyboard, fullscreen));
      }
    }
  }

  /** A still-running session keeps the navigation invariant when at least one row fits. */
  lemma {:induction false} RunPassesKeepsInView(c: Cursor, passes: seq<seq<Event>>, games: seq<GameEntry>,
                                                keyboard: bool, fullscreen: bool, visible: int)
    requires visible >= 1 && InView(c, |games|, visible)
    ensures var s := RunPasses(c, passes, games, keyboard, fullscreen, visible);
      s.StillRunning? ==> InView(s.position, |games|, visible)
    decreases |passes|
  {
    if |passes| > 0 {
      PollKeepsInView(c, passes[0], |games|, visible);
      PollKeepsSelection(c, passes[0], |games|, visible);
      var (o, c') := Poll(c, passes[0], |games|, visible);
      if o.Continue? {
        RunPassesKeepsInView(c', passes[1..], games, keyboard, fullscreen, visible);
      }
    }
  }

  /** main launches only scanned games, with exactly the -k and -F flags found in argv. */
  lemma MainLaunchesAScannedGame(argv: seq<string>, initOk: bool, dir: Option<seq<string>>,
                                 passes: seq<seq<Event>>, height: int)
    ensures var s := MainFlow(argv, initOk, dir, passes, height);
      s.Launched? ==>
        dir.Some? &&
        (exists i :: 0 <= i < |Scan(dir.value)| &&
           s.command == CommandLine(Request(Scan(dir.value)[i].path, HasArg(argv, "-k"), HasArg(argv, "-F"))))
  {
    if initOk && dir.Some? && |Scan(dir.value)| > 0 {
      RunPassesLaunchesAGame(Cursor(0, 0), passes, Scan(dir.value), HasArg(argv, "-k"), HasArg(argv, "-F"),
                             VisibleItems(height));
    }
  }

  /**
   * From main's starting cursor, a session still polling keeps the selection
   * on a scanned game and inside the visible window, when at least one row fits.
   */
  lemma MainKeepsInView(argv: seq<string>, initOk: bool, dir: Option<seq<string>>,
                        passes: seq<seq<Event>>, height: int)
    requires VisibleItems(height) >= 1
    ensures var s := MainFlow(argv, initOk, dir, passes, height);
      s.StillRunning? ==> dir.Some? && InView(s.position, |Scan(dir.value)|, VisibleItems(height))
  {
    if initOk && dir.Some? && |Scan(dir.value)| > 0 {
      InitialInView(|Scan(dir.value)|, VisibleItems(height));
      RunPassesKeepsInView(Cursor(0, 0), passes, Scan(dir.value), HasArg(argv, "-k"), HasArg(argv, "-F"),
                           VisibleItems(height));
    }
  }
}
