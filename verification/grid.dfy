/** The hat grid of `HatCollectionTab` (HatChallenge/ModEntry.cs): `Draw` lays the
    catalogue out eight icons to a row, and `PerformHoverAction` finds the icon
    under the mouse. Both walk the catalogue with the same incremental cursor. */
module HatGrid {
  import opened Basics
  import opened Geometry
  import opened HatCatalogue

  /** `ICON_SIZE`: icons are drawn 64 pixels square. */
  const IconSize: int := 64
  /** `ICONS_PER_ROW`. */
  const IconsPerRow: int := 8
  /** Gap between neighbouring icons. */
  const IconGap: int := 8
  /** Distance between the corners of neighbouring icons. */
  const Pitch: int := IconSize + IconGap
  /** The grid's top-left corner relative to the active menu's position. */
  const GridOffsetX: int := 320
  const GridOffsetY: int := 128

  /** Suffix of the hover text of a collected hat. */
  const CollectedSuffix: string := " (Collected)"

  /** Draw colour of an icon. */
  datatype Tint = White | DarkGray

  /** One `SpriteBatch.Draw` of a hat icon: destination, hat and colour. */
  datatype IconDraw = IconDraw(dest: Rect, hatId: int, tint: Tint)

  /** What a `Draw` call puts on screen: the icons in order, then the hover text
      if there is one. */
  datatype Frame = Frame(icons: seq<IconDraw>, tooltip: Option<string>)

  /** The tab's `hoverRect` and `hoverText` fields. */
  datatype Hover = Hover(rect: Rect, text: string)

  /** The hover state when the mouse is over no icon. */
  const NoHover: Hover := Hover(Empty, "")

  /** Closed-form position of the k-th icon (0-based) of a grid whose first icon
      sits at (ox, oy). */
  function Cell(ox: int, oy: int, k: nat): (r: Rect) {
    Rect(ox + Pitch * (k % IconsPerRow), oy + Pitch * (k / IconsPerRow), IconSize, IconSize)
  }

  /** A point lies in the k-th cell exactly when its offset from the grid corner
      falls, column- and row-wise, in the first 64 of the 72 pixels of k's column
      and row. */
  lemma CellContains(ox: int, oy: int, k: nat, x: int, y: int)
    ensures Cell(ox, oy, k).Contains(x, y)
        <==> && 0 <= x - ox && (x - ox) / Pitch == k % IconsPerRow && (x - ox) % Pitch < IconSize
             && 0 <= y - oy && (y - oy) / Pitch == k / IconsPerRow && (y - oy) % Pitch < IconSize
  {
    SlotOf(x - ox, k % IconsPerRow);
    SlotOf(y - oy, k / IconsPerRow);
  }

  /** An offset d lies in the first IconSize pixels of slot s exactly when
      d / Pitch is s and d % Pitch is below IconSize. */
  lemma SlotOf(d: int, s: nat)
    ensures Pitch * s <= d < Pitch * s + IconSize
        <==> 0 <= d && d / Pitch == s && d % Pitch < IconSize
  {
    if Pitch * s <= d < Pitch * s + IconSize {
      assert d == Pitch * s + (d - Pitch * s);
    }
    if 0 <= d && d / Pitch == s && d % Pitch < IconSize {
      assert d == Pitch * (d / Pitch) + d % Pitch;
    }
  }

  /** Distinct cells do not overlap, since icons are smaller than the pitch;
      so at most one cell contains any point. */
  lemma CellsDisjoint(ox: int, oy: int, j: nat, k: nat, x: int, y: int)
    requires Cell(ox, oy, j).Contains(x, y) && Cell(ox, oy, k).Contains(x, y)
    ensures j == k
  {
    CellContains(ox, oy, j, x, y);
    CellContains(ox, oy, k, x, y);
    assert j == IconsPerRow * (j / IconsPerRow) + j % IconsPerRow;
    assert k == IconsPerRow * (k / IconsPerRow) + k % IconsPerRow;
  }

  /** The index of the cell among the first n that contains (x, y), computed
      directly from the point's column and row rather than by walking the grid. */
  function HitIndex(ox: int, oy: int, n: nat, x: int, y: int): (r: Option<nat>) {
    var dx, dy := x - ox, y - oy;
    if dx < 0 || dy < 0 then None
    else
      var column, row := dx / Pitch, dy / Pitch;
      var k := row * IconsPerRow + column;
      if column < IconsPerRow && dx % Pitch < IconSize && dy % Pitch < IconSize && k < n
      then Some(k)
      else None
  }

  /** The closed-form hit test names cell k exactly when k is one of the first
      n cells and contains the point. */
  lemma HitIndexCorrect(ox: int, oy: int, n: nat, x: int, y: int, k: nat)
    ensures HitIndex(ox, oy, n, x, y) == Some(k) <==> k < n && Cell(ox, oy, k).Contains(x, y)
  {
    CellContains(ox, oy, k, x, y);
    assert k == IconsPerRow * (k / IconsPerRow) + k % IconsPerRow;
    var dx, dy := x - ox, y - oy;
    if HitIndex(ox, oy, n, x, y) == Some(k) {
      var column, row := dx / Pitch, dy / Pitch;
      assert k == row * IconsPerRow + column && 0 <= column < IconsPerRow;
      assert k % IconsPerRow == column && k / IconsPerRow == row;
    }
  }

  /** The cursor step shared by `Draw` and `PerformHoverAction`: after the
      count-th icon (count already incremented) the cursor returns to the left
      edge and moves down a row when count is a multiple of eight, and moves one
      icon to the right otherwise. Stepping from cell k's corner reaches cell k+1's. */
  lemma CursorStep(ox: int, oy: int, k: nat)
    ensures (k + 1) % IconsPerRow == 0 ==>
              Cell(ox, oy, k + 1).x == ox && Cell(ox, oy, k + 1).y == Cell(ox, oy, k).y + IconSize + IconGap
    ensures (k + 1) % IconsPerRow != 0 ==>
              Cell(ox, oy, k + 1).x == Cell(ox, oy, k).x + IconSize + IconGap && Cell(ox, oy, k + 1).y == Cell(ox, oy, k).y
  {
  }

  /** The layout and colour loop of `Draw`. Nothing is drawn when the hat
      texture failed to load, nor when building the catalogue from the raw
      "Data/hats" table throws (two keys parse to the same id): the exception
      leaves `Draw` before any icon or the hover text. Otherwise the k-th
      catalogue entry is drawn in cell k, white when collected and dark grey
      otherwise, followed by the hover text whenever the hover rectangle is not
      empty. */
  method Draw(collected: set<int>, hover: Hover, textureLoaded: bool, menuX: int, menuY: int,
              raw: seq<(string, string)>, parse: string -> Option<int>) returns (f: Frame)
    ensures !textureLoaded || !UniqueIds(ParsedEntries(raw, parse)) ==> f.icons == [] && f.tooltip == None
    ensures textureLoaded && UniqueIds(ParsedEntries(raw, parse)) ==>
              var hats := ParsedEntries(raw, parse);
              && |f.icons| == |hats|
              && (forall k :: 0 <= k < |hats| ==>
                    && f.icons[k].dest == Cell(menuX + GridOffsetX, menuY + GridOffsetY, k)
                    && f.icons[k].hatId == hats[k].id
                    && (f.icons[k].tint == White <==> hats[k].id in collected))
              && (f.tooltip.Some? <==> hover.rect != Empty)
    ensures f.tooltip.Some? ==> f.tooltip.value == hover.text
  {
    if !textureLoaded {
      return Frame([], None);
    }
    var ox, oy := menuX + GridOffsetX, menuY + GridOffsetY;
    var x, y := ox, oy;
    var count := 0;
    var catalogue := ToHatData(raw, parse);
    if catalogue.Failure? {
      return Frame([], None);
    }
    var hats := catalogue.value;
    var icons: seq<IconDraw> := [];
    while count < |hats|
      invariant 0 <= count <= |hats|
      invariant |icons| == count
      invariant Rect(x, y, IconSize, IconSize) == Cell(ox, oy, count)
      invariant forall k :: 0 <= k < count ==>
                  && icons[k].dest == Cell(ox, oy, k)
                  && icons[k].hatId == hats[k].id
                  && (icons[k].tint == White <==> hats[k].id in collected)
    {
      var hat := hats[count];
      var tint := if hat.id in collected then White else DarkGray;
      icons := icons + [IconDraw(Rect(x, y, IconSize, IconSize), hat.id, tint)];
      CursorStep(ox, oy, count);
      count := count + 1;
      if count % IconsPerRow == 0 {
        x := ox;
        y := y + IconSize + IconGap;
      } else {
        x := x + IconSize + IconGap;
      }
    }
    var tooltip := if hover.rect != Empty then Some(hover.text) else None;
    f := Frame(icons, tooltip);
  }

  /** `PerformHoverAction`: walk the grid and stop at the first cell containing
      the mouse. The hover rectangle becomes that cell and the hover text the
      entry's text, with the collected suffix exactly when the hat is collected.
      When no cell contains the mouse the hover state is cleared. The cell
      found is the one the closed-form `HitIndex` computes. When building the
      catalogue throws, the method is left before touching the hover state. */
  method PerformHoverAction(collected: set<int>, hover: Hover, menuX: int, menuY: int,
                            raw: seq<(string, string)>, parse: string -> Option<int>,
                            x: int, y: int) returns (h: Hover)
    ensures !UniqueIds(ParsedEntries(raw, parse)) ==> h == hover
    ensures UniqueIds(ParsedEntries(raw, parse)) ==>
              var hats := ParsedEntries(raw, parse);
              var ox, oy := menuX + GridOffsetX, menuY + GridOffsetY;
              h == NoHover <==> forall k :: 0 <= k < |hats| ==> !Cell(ox, oy, k).Contains(x, y)
    ensures UniqueIds(ParsedEntries(raw, parse)) ==>
              var hats := ParsedEntries(raw, parse);
              var ox, oy := menuX + GridOffsetX, menuY + GridOffsetY;
              match HitIndex(ox, oy, |hats|, x, y)
              case None => h == NoHover
              case Some(k) =>
                && h.rect == Cell(ox, oy, k)
                && (hats[k].id in collected ==> h.text == hats[k].data + CollectedSuffix)
                && (hats[k].id !in collected ==> h.text == hats[k].data)
  {
    var ox, oy := menuX + GridOffsetX, menuY + GridOffsetY;
    var cx, cy := ox, oy;
    var count := 0;
    var catalogue := ToHatData(raw, parse);
    if catalogue.Failure? {
      return hover;
    }
    var hats := catalogue.value;
    while count < |hats|
      invariant 0 <= count <= |hats|
      invariant Rect(cx, cy, IconSize, IconSize) == Cell(ox, oy, count)
      invariant forall k :: 0 <= k < count ==> !Cell(ox, oy, k).Contains(x, y)
    {
      var hat := hats[count];
      var hatRect := Rect(cx, cy, IconSize, IconSize);
      if hatRect.Contains(x, y) {
        var text := hat.data;
        if hat.id in collected {
          text := text + CollectedSuffix;
        }
        HitIndexCorrect(ox, oy, |hats|, x, y, count);
        return Hover(hatRect, text);
      }
      CursorStep(ox, oy, count);
      count := count + 1;
      if count % IconsPerRow == 0 {
        cx := ox;
        cy := cy + IconSize + IconGap;
      } else {
        cx := cx + IconSize + IconGap;
      }
    }
    if hit: nat :| HitIndex(ox, oy, |hats|, x, y) == Some(hit) {
      HitIndexCorrect(ox, oy, |hats|, x, y, hit);
      assert false;
    }
    h := NoHover;
  }
}
