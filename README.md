# frotzl: a Dafny model of the game launcher's logic

frotzl is a small SDL front end for the Frotz interpreter. It lists the game
files in a local `games` directory, shows them as a scrollable list, and runs
`./sfrotz` on the game the user picks. This project models the rule-governed
part of `frotzl.c` and proves properties of it:

- **Game-file filter and entries** (`games.dfy`, module `GameFiles`). `is_game_file`
  looks at the part of the name from the last `.` and compares it, ignoring ASCII
  case, with `.z3 .z4 .z5 .z8 .zblorb .zlb .dat`. `scan_games` skips names that
  start with `.`. It records `games/<file>` and the file name cut at its last `.`,
  and stops after `MAX_GAMES` (256) entries. `Scan` is the pure specification:
  the entries of all accepted names, in directory order, cut to the first 256.
  The `strncpy`/`snprintf` bounds (255-character names, 511-character paths) are
  modelled exactly.
- **Navigation** (`navigation.dfy`, module `Navigation`). The pair `Cursor(selected,
  scrollOffset)`, `MoveUp`, `MoveDown`, and `Poll`. `Poll` is the event drain of
  `handle_input`: it returns `Confirm` (1) at the first RETURN/SPACE and `Quit` (-1)
  at the first ESCAPE or window close, and otherwise `Continue` (0). `visible_items`
  is C's truncating `(h - 160) / 26`.
- **List layout** (`layout.dfy`, module `Layout`). The rows `render_launcher` draws:
  the window is `[scroll_offset, min(scroll_offset + visible_items, game_count))`,
  row `k` is drawn at `y = 100 + 26*k`, the text is `"> "` or `"  "` followed by
  the name, and only the selected row gets its highlight bar.
- **Command line and flags** (`launch.dfy`, module `Launch`). `CommandLine` is
  `./sfrotz[ -k][ -F] "<path>"`. `BuildCommand` builds it the way `launch_game`
  does, appending into a 1024-character buffer at a moving offset. `ParseFlags`
  is `main`'s argv loop.
- **The launcher object** (`launcher.dfy`, module `Frotzl`). A class `Launcher`
  with the fields of the C record: the 256-slot `games` array, `gameCount`,
  `selected` and `scrollOffset`. `ScanGames` (with its loop body `AddIfGame`), `HandleInput` and `LayoutList` are
  its methods, each proved against the pure specification above.
- **main** (`session.dfy`, module `Session`). `Run` drives one `Launcher` through
  the flag loop, the scan and, through `Drive`, a sequence of polling passes. `MainFlow` is its
  specification.
- `scenarios.dfy` holds worked examples: display names, a four-file directory,
  and a run that launches `./sfrotz -k -F "games/b.zblorb"`.

External inputs are parameters. The directory listing is `Option<seq<string>>`,
with `None` meaning `opendir` failed. The SDL event queue is one `seq<Event>`
per polling pass. The renderer's output size is `width`/`height`. Whether
`launcher_init` succeeded is `initOk`.

Two details follow the code rather than what one might expect:
- `visible_items` is not clamped at 0, so it is negative for windows lower than
  135 pixels.
- Within one pass, the first terminal event decides the outcome, not the last.

## Model

| member | source | states |
|---|---|---|
| CStrings.LastIndexOf | frotzl.c:44 | strrchr: the index found holds the character and none follows it; None exactly when the character does not occur |
| CStrings.Prefix | frotzl.c:71-76 | a bounded copy is a prefix of the source of at most n characters, and the whole source whenever it is shorter than n |
| CStrings.LastIndexAt | frotzl.c:77 | an index holding the character with none after it is what strrchr returns |
| GameFiles.KnownExtension | frotzl.c:47-53 | the seven case-insensitive comparisons of the part from the last '.' with .z3 .z4 .z5 .z8 .zblorb .zlb .dat |
| GameFiles.IsGameFile | frotzl.c:43-54 | no '.' in the name rejects it; otherwise the part from the last '.' must be a known extension |
| GameFiles.IsHidden | frotzl.c:68-70 | a name whose first character is '.' is skipped |
| GameFiles.Accepted | frotzl.c:68-70 | the scan stores a name exactly when it is not hidden and is a game file |
| GameFiles.StripExtension | frotzl.c:77-78 | a dot-free name is unchanged; otherwise the result is the prefix before the last '.', and no '.' follows that point, so earlier dots are kept |
| GameFiles.EntryFor | frotzl.c:71-78 | path and name always fit their buffers; for a name under 256 characters the path is "games/" + name and the name is the display name |
| GameFiles.Entries | frotzl.c:67-82 | the entries of every accepted name of the listing, in listing order, without the 256 cap |
| GameFiles.Scan | frotzl.c:64-82 | at most MAX_GAMES entries, a prefix of all accepted entries in directory order, and all of them when fewer than MAX_GAMES are accepted |
| GameFiles.ExtensionShape | frotzl.c:47-53 | each recognised extension is a '.' followed by non-dot characters, already in lower case |
| GameFiles.KnownExtensionIff | frotzl.c:47-53 | the seven strcasecmp tests hold exactly when the lower-cased part is one of the extensions |
| GameFiles.LastDotOfSuffix | frotzl.c:44-53 | a name ending in an extension, ignoring case, has its last '.' where that extension starts |
| GameFiles.GameFileEndsWithExtension | frotzl.c:43-54 | an accepted name ends, ignoring case, with a recognised extension |
| GameFiles.EndsWithExtensionIsGameFile | frotzl.c:43-54 | a name ending, ignoring case, with a recognised extension is accepted |
| GameFiles.IsGameFileIff | frotzl.c:43-54 | is_game_file holds if and only if the name ends, ignoring ASCII case, with one of the seven extensions |
| GameFiles.NoDotIsNotGameFile | frotzl.c:44-45 | a name with no '.' is rejected |
| GameFiles.StripExtensionOfGameFile | frotzl.c:77-78 | for a game file, display name + tested extension is the file name, and that extension passes the seven tests |
| GameFiles.EntriesAppend | frotzl.c:67-82 | the entries of a concatenated listing are the concatenated entries: directory order is kept |
| GameFiles.EntriesSingle | frotzl.c:68-81 | one name yields its entry exactly when it is not hidden and is a game file |
| GameFiles.EntryHasSource | frotzl.c:67-82 | every entry comes from an accepted name in the listing |
| GameFiles.SourceHasEntry | frotzl.c:67-82 | every accepted name in the listing yields an entry |
| GameFiles.EntriesMember | frotzl.c:67-82 | an entry is listed if and only if some accepted name produces it |
| GameFiles.ScanIgnoresLater | frotzl.c:67 | once MAX_GAMES entries are collected, further directory entries change nothing |
| GameFiles.ScanStopsWhenFull | frotzl.c:67-82 | reading the listing to its end, or until the table is full, leaves exactly the scan's table |
| GameFiles.EntriesStep | frotzl.c:68-81 | reading one more name appends its entry exactly when it is accepted |
| GameFiles.ScanEntryShape | frotzl.c:70-78 | each scanned entry comes from an accepted name, with path "games/" + name and the stripped name when the name fits |
| GameFiles.ScanPathsFit | frotzl.c:71-72 | every scanned path is shorter than MAX_PATH_LEN |
| Navigation.VisibleItems | frotzl.c:207 | (h - 160) / 26 with C's truncating division, not clamped at 0 |
| Navigation.MoveUp | frotzl.c:258-265 | above index 0, the selection moves up one and the offset follows it when it leaves the window at the top; at 0 nothing changes |
| Navigation.MoveDown | frotzl.c:267-274 | below the last game, the selection moves down one and the offset becomes selected - visible + 1 when it leaves the window at the bottom; at the last game nothing changes |
| Navigation.Poll | frotzl.c:253-289 | the events in order: UP and DOWN move, other keys and events are skipped, RETURN/SPACE gives Confirm and ESCAPE/window close gives Quit at once, an empty queue gives Continue |
| Navigation.CDiv | frotzl.c:251 | C division truncates toward zero: the quotient brackets the dividend from below for non-negative and from above for negative operands |
| Navigation.VisibleItemsPositive | frotzl.c:251 | at least one row is visible exactly when the height is at least 186, and the rows fit below the 160 pixels of chrome |
| Navigation.TerminalOutcome | frotzl.c:276-281 | RETURN and SPACE confirm; ESCAPE and window close quit |
| Navigation.MoveUpAtTop | frotzl.c:259 | UP at the first game changes neither selection nor scroll offset |
| Navigation.MoveDownAtBottom | frotzl.c:268 | DOWN at the last game changes neither selection nor scroll offset |
| Navigation.MoveBy | frotzl.c:259-273 | UP and DOWN move the selection by exactly one, except at the ends |
| Navigation.StepIgnoresOthers | frotzl.c:283-284 | any other key or event changes nothing |
| Navigation.InitialInView | frotzl.c:142-143 | the starting cursor (0, 0) satisfies the scroll invariant once there is a game and a visible row |
| Navigation.StepKeepsInView | frotzl.c:259-273 | UP and DOWN preserve 0 <= scroll_offset <= selected < scroll_offset + visible_items and selected < game_count |
| Navigation.StepKeepsSelection | frotzl.c:259-273 | whatever visible_items is, UP and DOWN keep selected a valid index and the offset non-negative |
| Navigation.PollWithoutTerminal | frotzl.c:253-289 | a pass with no terminal event applies all navigation and returns 0 |
| Navigation.PollStopsAtTerminal | frotzl.c:253-289 | the first terminal event decides the result, navigation before it is kept, events after it are not looked at |
| Navigation.PollKeepsInView | frotzl.c:253-289 | a whole pass preserves the scroll invariant |
| Navigation.PollKeepsSelection | frotzl.c:253-289 | a whole pass keeps selected within the game table |
| Layout.Rows | frotzl.c:206-233 | one row per index from scroll_offset up to the capped end, 26 pixels apart from y = 100, "> " and the highlight bar for the selected game, "  " for the others |
| Layout.RowsAreTheWindow | frotzl.c:206-233 | the rows are the indices scroll_offset, scroll_offset+1, ... up to min(scroll_offset + visible_items, game_count), row k at y = 100 + 26k |
| Layout.RowsFit | frotzl.c:207-210 | never more rows than max(visible_items, 0) |
| Layout.RowsHighlightSelected | frotzl.c:213-229 | a row has the highlight bar iff it is the selected game; its text is "> " + name then, "  " + name otherwise |
| Layout.SelectedIsDrawn | frotzl.c:206-233 | under the scroll invariant the selected game is drawn, highlighted, and is the only highlighted row |
| Launch.CommandLine | frotzl.c:303-317 | "./sfrotz", then " -k" if keyboard, then " -F" if fullscreen, then a space and the path in double quotes |
| Launch.ParseCommandLineRoundTrip | frotzl.c:303-317 | the command line reads back to the path and the two flags it was built from |
| Launch.CommandLineInjective | frotzl.c:303-317 | different launches never give the same command |
| Launch.Append | frotzl.c:307 | snprintf of a piece that fits: the buffer before the offset is kept, the piece follows, then a terminator |
| Launch.BuildCommand | frotzl.c:303-317 | the buffer holds "./sfrotz", then " -k" if keyboard, then " -F" if fullscreen, then the quoted path, within 1024 characters |
| Launch.HasArg | frotzl.c:331-337 | some argument after argv[0] is exactly the flag |
| Launch.ParseFlags | frotzl.c:331-337 | keyboard is set iff some argument after argv[0] is exactly "-k", fullscreen iff some is exactly "-F" |
| Launch.FlagsIgnoreOrder | frotzl.c:331-337 | argument lists with the same arguments give the same flags, whatever the order or repetition |
| Frotzl.Launcher.constructor | frotzl.c:142-143 | a zeroed launcher: empty table, selection and scroll offset 0 |
| Frotzl.Launcher.AddIfGame | frotzl.c:68-81 | a visible game file is stored with its path and display name after the games already found; any other name leaves the table as it was |
| Frotzl.Launcher.ScanGames | frotzl.c:57-86 | the table holds Scan of the listing and the count is returned; -1 and nothing changed when the directory cannot be opened; the cursor is untouched |
| Frotzl.Launcher.HandleInput | frotzl.c:247-290 | result and new cursor are those of Poll over the queued events; the table is untouched |
| Frotzl.Launcher.LayoutList | frotzl.c:205-233 | the draw loop emits exactly the rows of the layout specification |
| Session.MainFlow | frotzl.c:323-373 | exit 1 when init fails, the directory cannot be read or holds no game; otherwise RunPasses from cursor (0, 0) with argv's flags and the window's visible_items |
| Session.RunPasses | frotzl.c:351-369 | one Poll per pass: Confirm launches the selected game's command line, Quit exits with 0, Continue goes on to the next pass; StillRunning when the passes run out |
| Session.Run | frotzl.c:323-373 | the run ends as MainFlow says: exit 1 on init failure or no games, command of the selected game on confirm, exit 0 on quit |
| Session.Drive | frotzl.c:351-369 | the imperative main loop ends as RunPasses says from the launcher's cursor and table: the selected game's command on confirm, exit 0 on quit, still running when the passes run out |
| Session.NoGamesExitsWithOne | frotzl.c:344-349 | an unreadable directory or one without games makes main exit with status 1 |
| Session.RunPassesLaunchesAGame | frotzl.c:351-369 | a launch always runs one of the table's games with the given flags |
| Session.RunPassesKeepsInView | frotzl.c:351-369 | between passes the scroll invariant holds when at least one row fits |
| Session.MainKeepsInView | frotzl.c:323-373 | from main's start at the first game, a session still polling has its selection on a scanned game inside the visible window, when at least one row fits |
| Session.MainLaunchesAScannedGame | frotzl.c:323-373 | main only ever launches a scanned game, with exactly the -k/-F flags given in argv |
| Scenarios.DisplayNames | frotzl.c:74-78 | "Zork.z5" shows as "Zork", "my.game.dat" as "my.game", "noext" unchanged |
| Scenarios.ScanExample | frotzl.c:64-82 | a.z5, b.zblorb, readme.txt, .hidden.z5 scan to exactly the entries for a and b |
| Scenarios.LaunchExample | frotzl.c:323-373 | with -k -F, DOWN then RETURN launches ./sfrotz -k -F "games/b.zblorb" |

## Left out

- SDL and TTF initialisation, window, renderer and font loading, including the font-path probing loop (frotzl.c:89-141), and `launcher_cleanup`: foreign library calls. Their success is the `initOk` parameter of `Run`.
- All drawing: colours, clearing, the title, the "N games found" line, the help footer, text rendering and `SDL_RenderPresent`. Only the list's integer and text layout is modelled.
- `opendir`/`readdir`/`closedir`: the listing is a given sequence of names in whatever order it holds, or None when the directory cannot be opened.
- `SDL_PollEvent` and `SDL_GetRendererOutputSize`: the events of a pass and the output size are parameters.
- `printf`, `system()`, `SDL_Delay` and process exit: I/O. The stderr messages are not modelled either: "Cannot open games directory" (frotzl.c:60), "Failed to initialize launcher" (frotzl.c:340), and "No games found in games directory" with the "Supported formats" hint (frotzl.c:345-346); only the exit status that follows each is. A launch ends the model with the command string; its exit status is not inspected, as in the source.
- Session.Run, Session.Drive: the main loop (in Drive) runs for a given finite list of polling passes and reports StillRunning when they are used up. The per-frame `render_launcher` call has no effect on state (LayoutList changes nothing), so Run does not call it. One output height is used for the whole run, so a resize between passes is not modelled.
- Launch.BuildCommand: requires the path to be shorter than MAX_PATH_LEN, which every table path is (ScanPathsFit). `snprintf` truncation of the 1024-character command would need a longer path, so it is not modelled.
- The 280-character `display` buffer of render_launcher is not modelled. Names are shorter than 256, so it never truncates.
- Characters: a Dafny string stands for the bytes before the C terminator, and `tolower`/`strcasecmp` fold only ASCII 'A'..'Z', as in the C locale. A name containing NUL cannot come from `readdir`.
- The path is wrapped in double quotes with no escaping, as in the source. A name containing `"` still reads back correctly with ParseCommandLine, but the shell would misparse it. The model keeps the unescaped form.
- C `int` width: selection, offset, count and layout arithmetic use unbounded integers. No 32-bit overflow is reachable, since the count is at most 256 and the output size comes from the renderer.
