/**
 * The integer and text layout of the game list drawn by render_launcher in
 * frotzl.c: which rows are drawn, where, with which prefix, and which one
 * carries the highlight bar.
 */
module Layout {
  import opened CStrings
  import opened GameFiles
  import opened Navigation

  const LIST_TOP: int := 100
  const TEXT_X: int := 40
  const BAR_X: int := 30
  const BAR_HEIGHT: int := 24
  const SELECTED_PREFIX: string := "> "
  const PLAIN_PREFIX: string := "  "

  datatype Rect = Rect(x: int, y: int, w: int, h: int)

  /** One drawn row: the game index, where its text goes, the text, and the bar behind it if any. */
  datatype Row = Row(index: int, x: int, y: int, text: string, bar: Option<Rect>)

  /** The row for game i drawn at height y in an output of the given width. */
  function RowFor(games: seq<GameEntry>, selected: int, width: int, i: int, y: int): Row
    requires 0 <= i < |games|
  {
    if i == selected then
      Row(i, TEXT_X, y, SELECTED_PREFIX + games[i].name, Some(Rect(BAR_X, y - 2, width - 2 * BAR_X, BAR_HEIGHT)))
    else
      Row(i, TEXT_X, y, PLAIN_PREFIX + games[i].name, None)
  }

  /** The end of the drawn index range: scroll_offset + visible_items, capped at the game count. */
  function WindowEnd(count: int, offset: int, visible: int): int
  {
    if offset + visible > count then count else offset + visible
  }

  /** The rows drawn in one frame, as the draw loop would emit them. */
  function Rows(games: seq<GameEntry>, selected: int, offset: int, visible: int, width: int): seq<Row>
    requires 0 <= offset
  {
    var end := WindowEnd(|games|, offset, visible);
    if end <= offset then []
    else seq(end - offset, k requires 0 <= k < end - offset =>
               RowFor(games, selected, width, offset + k, LIST_TOP + ROW_HEIGHT * k))
  }

  /**
   * The drawn rows are exactly the indices of the half-open window
   * [offset, min(offset + visible, count)), in order, one row height apart.
   */
  lemma RowsAreTheWindow(games: seq<GameEntry>, selected: int, offset: int, visible: int, width: int)
    requires 0 <= offset
    ensures var rows := Rows(games, selected, offset, visible, width);
      var end := if offset + visible < |games| then offset + visible else |games|;
      |rows| == (if end <= offset then 0 else end - offset) &&
      forall k :: 0 <= k < |rows| ==> rows[k].index == offset + k && rows[k].y == LIST_TOP + ROW_HEIGHT * k
  {
  }

  /** Never more rows than fit in the window. */
  lemma RowsFit(games: seq<GameEntry>, selected: int, offset: int, visible: int, width: int)
    requires 0 <= offset
    ensures |Rows(games, selected, offset, visible, width)| <= if visible < 0 then 0 else visible
  {
  }

  /**
   * Only the selected game is highlighted and gets the "> " prefix; every
   * other row is plain with "  ".
   */
  lemma RowsHighlightSelected(games: seq<GameEntry>, selected: int, offset: int, visible: int, width: int, k: nat)
    requires 0 <= offset && k < |Rows(games, selected, offset, visible, width)|
    ensures var row := Rows(games, selected, offset, visible, width)[k];
      0 <= row.index < |games| &&
      (row.bar.Some? <==> row.index == selected) &&
      row.text == (if row.index == selected then SELECTED_PREFIX else PLAIN_PREFIX) + games[row.index].name &&
      (row.bar.Some? ==> row.bar.value == Rect(BAR_X, row.y - 2, width - 2 * BAR_X, BAR_HEIGHT))
  {
  }

  /** Under the navigation invariant exactly one row is highlighted: the selected game's. */
  lemma SelectedIsDrawn(games: seq<GameEntry>, c: Cursor, visible: int, width: int)
    requires InView(c, |games|, visible)
    ensures var rows := Rows(games, c.selected, c.scrollOffset, visible, width);
      var k := c.selected - c.scrollOffset;
      0 <= k < |rows| && rows[k].index == c.selected && rows[k].bar.Some? &&
      rows[k].text == SELECTED_PREFIX + games[c.selected].name &&
      forall k' :: 0 <= k' < |rows| && k' != k ==> rows[k'].bar.None?
  {
  }
}
