/**
 * The list-navigation state machine of handle_input in frotzl.c: the
 * selection and the scroll offset, UP and DOWN, and the drain of the event
 * queue that stops at the first confirm or quit.
 */
module Navigation {

  /** The keys handle_input distinguishes; every other key code is OtherKey. */
  datatype Key = Up | Down | Return | Space | Escape | OtherKey(code: int)

  /** A queued SDL event: window close, a key press, or anything else. */
  datatype Event = QuitEvent | KeyDown(key: Key) | OtherEvent

  /** The result of one polling pass: handle_input returns 0, 1 or -1. */
  datatype Outcome = Continue | Confirm | Quit

  /** The selection and the index of the first visible row. */
  datatype Cursor = Cursor(selected: int, scrollOffset: int)

  const TOP_CHROME: int := 160
  const ROW_HEIGHT: int := 26

  /** The int handle_input returns for an outcome. */
  function Code(o: Outcome): (r: int)
    ensures -1 <= r <= 1
    ensures (r == 0) == o.Continue? && (r == 1) == o.Confirm? && (r == -1) == o.Quit?
  {
    match o
    case Continue => 0
    case Confirm => 1
    case Quit => -1
  }

  /** C's int division, which truncates toward zero, for a positive divisor. */
  function CDiv(a: int, b: int): (q: int)
    requires b > 0
    ensures a >= 0 ==> q * b <= a < q * b + b
    ensures a < 0 ==> q * b - b < a <= q * b
  {
    if a >= 0 then a / b else -((-a) / b)
  }

  /** visible_items = (h - 160) / 26 in C. */
  function VisibleItems(height: int): int
  {
    CDiv(height - TOP_CHROME, ROW_HEIGHT)
  }

  /** At least one row fits exactly when the output is at least 186 pixels high. */
  lemma VisibleItemsPositive(height: int)
    ensures VisibleItems(height) >= 1 <==> height >= TOP_CHROME + ROW_HEIGHT
    ensures height >= TOP_CHROME ==> 0 <= ROW_HEIGHT * VisibleItems(height) <= height - TOP_CHROME
  {
  }

  /** SDLK_UP: step up unless at the top; scroll up to keep the selection visible. */
  function MoveUp(c: Cursor): Cursor
  {
    if c.selected > 0 then
      var s := c.selected - 1;
      Cursor(s, if s < c.scrollOffset then s else c.scrollOffset)
    else
      c
  }

  /** SDLK_DOWN: step down unless at the last game; scroll down to keep the selection visible. */
  function MoveDown(c: Cursor, count: int, visible: int): Cursor
  {
    if c.selected < count - 1 then
      var s := c.selected + 1;
      Cursor(s, if s >= c.scrollOffset + visible then s - visible + 1 else c.scrollOffset)
    else
      c
  }

  /** A confirm or quit event, which ends the pass. */
  predicate Terminal(ev: Event)
  {
    ev.QuitEvent? || (ev.KeyDown? && ev.key in {Return, Space, Escape})
  }

  /** The outcome a terminal event produces. */
  function TerminalOutcome(ev: Event): (o: Outcome)
    requires Terminal(ev)
    ensures o.Confirm? <==> ev.KeyDown? && (ev.key.Return? || ev.key.Space?)
    ensures o.Quit? <==> ev.QuitEvent? || ev == KeyDown(Escape)
  {
    if ev.KeyDown? && (ev.key.Return? || ev.key.Space?) then Confirm else Quit
  }

  /** What a non-terminal event does to the cursor. */
  function Step(c: Cursor, ev: Event, count: int, visible: int): Cursor
  {
    match ev
    case KeyDown(Up) => MoveUp(c)
    case KeyDown(Down) => MoveDown(c, count, visible)
    case _ => c
  }

  /** The cursor after the navigation events evs, one after the other. */
  function Navigate(c: Cursor, evs: seq<Event>, count: int, visible: int): Cursor
    decreases |evs|
  {
    if |evs| == 0 then c
    else Navigate(Step(c, evs[0], count, visible), evs[1..], count, visible)
  }

  /** The polling loop of handle_input over the queued events. */
  function Poll(c: Cursor, events: seq<Event>, count: int, visible: int): (Outcome, Cursor)
    decreases |events|
  {
    if |events| == 0 then (Continue, c)
    else match events[0]
      case QuitEvent => (Quit, c)
      case KeyDown(Up) => Poll(MoveUp(c), events[1..], count, visible)
      case KeyDown(Down) => Poll(MoveDown(c, count, visible), events[1..], count, visible)
      case KeyDown(Return) => (Confirm, c)
      case KeyDown(Space) => (Confirm, c)
      case KeyDown(Escape) => (Quit, c)
      case KeyDown(OtherKey(_)) => Poll(c, events[1..], count, visible)
      case OtherEvent => Poll(c, events[1..], count, visible)
  }

  /** The navigation invariant: the selection is a game and lies in the visible window. */
  predicate InView(c: Cursor, count: int, visible: int)
  {
    0 <= c.scrollOffset <= c.selected < c.scrollOffset + visible && c.selected < count
  }

  /** UP at the top changes nothing. */
  lemma MoveUpAtTop(c: Cursor)
    requires c.selected == 0
    ensures MoveUp(c) == c
  {
  }

  /** DOWN at the last game changes nothing. */
  lemma MoveDownAtBottom(c: Cursor, count: int, visible: int)
    requires c.selected == count - 1
    ensures MoveDown(c, count, visible) == c
  {
  }

  /** UP and DOWN move the selection by exactly one, or not at all at the ends. */
  lemma MoveBy(c: Cursor, count: int, visible: int)
    requires 0 <= c.selected < count
    ensures MoveUp(c).selected == if c.selected > 0 then c.selected - 1 else c.selected
    ensures MoveDown(c, count, visible).selected == if c.selected < count - 1 then c.selected + 1 else c.selected
  {
  }

  /** Keys other than the arrows and events other than key presses change nothing. */
  lemma StepIgnoresOthers(c: Cursor, ev: Event, count: int, visible: int)
    requires !Terminal(ev) && ev != KeyDown(Up) && ev != KeyDown(Down)
    ensures Step(c, ev, count, visible) == c
  {
  }

  /** The starting cursor satisfies the invariant once there is a game and a row. */
  lemma InitialInView(count: int, visible: int)
    requires count >= 1 && visible >= 1
    ensures InView(Cursor(0, 0), count, visible)
  {
  }

  /** Each navigation step keeps the invariant, for a fixed window of at least one row. */
  lemma StepKeepsInView(c: Cursor, ev: Event, count: int, visible: int)
    requires visible >= 1 && InView(c, count, visible)
    ensures InView(Step(c, ev, count, visible), count, visible)
  {
  }

  /** Whatever the window, the selection stays a valid index into the table. */
  lemma StepKeepsSelection(c: Cursor, ev: Event, count: int, visible: int)
    requires 0 <= c.selected < count && 0 <= c.scrollOffset
    ensures var c' := Step(c, ev, count, visible);
      0 <= c'.selected < count && 0 <= c'.scrollOffset
  {
  }

  /** A pass with no terminal event applies every navigation event and continues. */
  lemma {:induction false} PollWithoutTerminal(c: Cursor, events: seq<Event>, count: int, visible: int)
    requires forall i :: 0 <= i < |events| ==> !Terminal(events[i])
    ensures Poll(c, events, count, visible) == (Continue, Navigate(c, events, count, visible))
    decreases |events|
  {
    if |events| > 0 {
      PollWithoutTerminal(Step(c, events[0], count, visible), events[1..], count, visible);
    }
  }

  /**
   * The first terminal event decides the pass: the navigation before it is
   * kept and whatever follows it is not looked at.
   */
  lemma {:induction false} PollStopsAtTerminal(c: Cursor, before: seq<Event>, t: Event, after: seq<Event>,
                                               count: int, visible: int)
    requires forall i :: 0 <= i < |before| ==> !Terminal(before[i])
    requires Terminal(t)
    ensures Poll(c, before + [t] + after, count, visible) ==
      (TerminalOutcome(t), Navigate(c, before, count, visible))
    decreases |before|
  {
    var events := before + [t] + after;
    if |before| == 0 {
      assert events[0] == t;
    } else {
      assert events[0] == before[0];
      assert events[1..] == before[1..] + [t] + after;
      PollStopsAtTerminal(Step(c, before[0], count, visible), before[1..], t, after, count, visible);
    }
  }

  /** A whole pass keeps the navigation invariant. */
  lemma {:induction false} PollKeepsInView(c: Cursor, events: seq<Event>, count: int, visible: int)
    requires visible >= 1 && InView(c, count, visible)
    ensures InView(Poll(c, events, count, visible).1, count, visible)
    decreases |events|
  {
    if |events| > 0 && !Terminal(events[0]) {
      StepKeepsInView(c, events[0], count, visible);
      PollKeepsInView(Step(c, events[0], count, visible), events[1..], count, visible);
    }
  }

  /** A whole pass keeps the selection a valid index, whatever the window. */
  lemma {:induction false} PollKeepsSelection(c: Cursor, events: seq<Event>, count: int, visible: int)
    requires 0 <= c.selected < count && 0 <= c.scrollOffset
    ensures var c' := Poll(c, events, count, visible).1;
      0 <= c'.selected < count && 0 <= c'.scrollOffset
    decreases |events|
  {
    if |events| > 0 && !Terminal(events[0]) {
      StepKeepsSelection(c, events[0], count, visible);
      PollKeepsSelection(Step(c, events[0], count, visible), events[1..], count, visible);
    }
  }
}
