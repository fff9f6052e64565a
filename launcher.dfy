/**
 * The Launcher record of frotzl.c as an object: the game table filled by
 * scan_games, the selection and scroll offset updated by handle_input, the
 * list layout read by render_launcher, and main's control flow from the
 * flag loop to the launch or exit.
 */
module Frotzl {
  import opened CStrings
  import opened GameFiles
  import opened Navigation
  import opened Layout
  import opened Launch

  class Launcher {
    var games: array<GameEntry>
    var gameCount: int
    var selected: int
    var scrollOffset: int

    ghost predicate Valid()
      reads this
    {
      games.Length == MAX_GAMES && 0 <= gameCount <= MAX_GAMES && 0 <= selected && 0 <= scrollOffset
    }

    /** The games found so far, in table order. */
    ghost function Contents(): seq<GameEntry>
      reads this, games
      requires Valid()
    {
      games[..gameCount]
    }

    /** The navigation state as a value. */
    function Position(): Cursor
      reads this
    {
      Cursor(selected, scrollOffset)
    }

    /** The zeroed record of main, with the selection reset as launcher_init leaves it. */
    constructor ()
      ensures Valid() && fresh(games)
      ensures Contents() == [] && Position() == Cursor(0, 0)
    {
      games := new GameEntry[MAX_GAMES];
      gameCount := 0;
      selected := 0;
      scrollOffset := 0;
    }

    /**
     * scan_games over the names the "games" directory lists, in listing
     * order; None when the directory cannot be opened.
     */
    method ScanGames(dir: Option<seq<string>>) returns (count: int)
      requires Valid()
      modifies this`gameCount, games
      ensures Valid() && games == old(games) && Position() == old(Position())
      ensures dir.None? ==> count == -1 && gameCount == old(gameCount) && games[..] == old(games[..])
      ensures dir.Some? ==> Contents() == Scan(dir.value) && count == gameCount
    {
      if dir.None? {
        return -1;
      }
      var names := dir.value;
      gameCount := 0;
      var i := 0;
      while i < |names| && gameCount < MAX_GAMES
        invariant 0 <= i <= |names|
        invariant Valid() && Position() == old(Position())
        invariant Contents() == Entries(names[..i])
      {
        EntriesStep(names, i);
        AddIfGame(names[i]);
        i := i + 1;
      }
      ScanStopsWhenFull(names, i);
      count := gameCount;
    }

    /**
     * One pass of scan_games' loop body: a visible game file is stored, with
     * its path and display name, after the games already found.
     */
    method AddIfGame(file: string)
      requires Valid() && gameCount < MAX_GAMES
      modifies this`gameCount, games
      ensures Valid() && Position() == old(Position())
      ensures Contents() == old(Contents()) + if Accepted(file) then [EntryFor(file)] else []
    {
      if !IsHidden(file) && IsGameFile(file) {
        games[gameCount] := EntryFor(file);
        gameCount := gameCount + 1;
      }
    }

    /**
     * handle_input: drains the queued events in order, moving the selection
     * on UP and DOWN, and returns 1 at the first RETURN or SPACE, -1 at the
     * first ESCAPE or window close, 0 when the queue runs dry.
     */
    method HandleInput(events: seq<Event>, height: int) returns (result: int)
      requires Valid()
      modifies this`selected, this`scrollOffset
      ensures Valid()
      ensures var (o, c) := Poll(old(Position()), events, gameCount, VisibleItems(height));
        result == Code(o) && Position() == c
    {
      var visible := VisibleItems(height);
      var i := 0;
      while i < |events|
        invariant 0 <= i <= |events|
        invariant Valid()
        invariant Poll(old(Position()), events, gameCount, visible) == Poll(Position(), events[i..], gameCount, visible)
      {
        assert events[i..][0] == events[i] && events[i..][1..] == events[i + 1..];
        match events[i] {
        case QuitEvent =>
          return -1;
        case KeyDown(key) =>
          match key {
          case Up =>
            if selected > 0 {
              selected := selected - 1;
              if selected < scrollOffset {
                scrollOffset := selected;
              }
            }
          case Down =>
            if selected < gameCount - 1 {
              selected := selected + 1;
              if selected >= scrollOffset + visible {
                scrollOffset := selected - visible + 1;
              }
            }
          case Return =>
            return 1;
          case Space =>
            return 1;
          case Escape =>
            return -1;
          case OtherKey(_) =>
          }
        case OtherEvent =>
        }
        i := i + 1;
      }
      return 0;
    }

    /**
     * The list part of render_launcher: the games from scroll_offset on, as
     * many as fit, each one row lower, the selected one highlighted.
     */
    method LayoutList(width: int, height: int) returns (rows: seq<Row>)
      requires Valid()
      ensures rows == Rows(Contents(), selected, scrollOffset, VisibleItems(height), width)
    {
      ghost var spec := Rows(Contents(), selected, scrollOffset, VisibleItems(height), width);
      var y := LIST_TOP;
      var visible := VisibleItems(height);
      var start := scrollOffset;
      var end := start + visible;
      if end > gameCount {
        end := gameCount;
      }
      assert |spec| == if end <= start then 0 else end - start;
      rows := [];
      var i := start;
      while i < end
        invariant start <= i && (start < end ==> i <= end)
        invariant i - start <= |spec|
        invariant y == LIST_TOP + ROW_HEIGHT * (i - start)
        invariant |rows| == i - start
        invariant forall k :: 0 <= k < |rows| ==> rows[k] == spec[k]
      {
        var name := games[i].name;
        var row;
        if i == selected {
          row := Row(i, TEXT_X, y, SELECTED_PREFIX + name, Some(Rect(BAR_X, y - 2, width - 2 * BAR_X, BAR_HEIGHT)));
        } else {
          row := Row(i, TEXT_X, y, PLAIN_PREFIX + name, None);
        }
        assert row == spec[i - start];
        rows := rows + [row];
        y := y + ROW_HEIGHT;
        i := i + 1;
      }
    }
  }

}
