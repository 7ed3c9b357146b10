# Hat collection tab: a Dafny model

HatChallenge is a Stardew Valley mod. It adds a "Hat Collection" tab to the
game's Collections menu. This project models the two pieces of behaviour of
`HatChallenge/ModEntry.cs` that stand apart from the game engine:

- **The collected-hat tracker** (`HatCollectionTab.collectedHats`). It is a set
  of integer hat ids. It is loaded from the save-data record "CollectedHats",
  written back as a list, and grown by `UpdateCollectedHats`. The inventory
  handler `ModEntry.OnInventoryChanged` feeds it one id per hat picked up.
- **The hat grid** (`HatCollectionTab.Draw` and `PerformHoverAction`). Both walk
  the hat catalogue with the same incremental cursor, eight 64-pixel icons to a
  row with a 72-pixel pitch. `Draw` tints collected hats white and the others
  dark grey. `PerformHoverAction` finds the icon under the mouse and sets the
  hover text, adding " (Collected)" for a collected hat.

Modules, one per concern:

| file | module | models |
|---|---|---|
| basics.dfy | `Basics` | `Option`, `Result`, the set of a sequence's elements, duplicate-freedom |
| geometry.dfy | `Geometry` | XNA `Rectangle`, its half-open `Contains`, `Rectangle.Empty` |
| tracker.dfy | `CollectionTracker` | `LoadCollectedHats`, `SaveCollectedHats`, `UpdateCollectedHats` |
| inventory.dfy | `InventoryEvents` | `OnInventoryChanged`, `GetHatId` |
| catalogue.dfy | `HatCatalogue` | the int-key filter and `ToDictionary` over "Data/hats" |
| grid.dfy | `HatGrid` | grid layout, `Draw`'s icon loop, `PerformHoverAction` |

The tracker state is an immutable value. `Tracker(collected, stored, writes)`
holds the in-memory set, the "CollectedHats" record as the host would return it
(`None` when the save has no such record), and the number of writes to that
record. Save-data I/O becomes reads and updates of `stored` and `writes`.
`Save` is a method because `HashSet.ToList` fixes no order. The model picks the
elements in an arbitrary order, and every contract holds whatever the order.

The grid takes the active menu's position `(menuX, menuY)` as a parameter. The
grid corner is `(menuX + 320, menuY + 128)`. `Cell(ox, oy, k)` is the closed form
of the k-th icon's rectangle, `(ox + 72*(k%8), oy + 72*(k/8), 64, 64)`. Both loops
carry the invariant that the incremental cursor equals `Cell` of the current
count. `HitIndex` is an independent closed-form hit test. It works out the
column and row of the mouse directly. `PerformHoverAction` is proved to agree
with it.

## Model

| member | source | states |
|---|---|---|
| CollectionTracker.Load | HatChallenge/ModEntry.cs:173-177 | an id is collected after loading iff it occurs in the stored list; a missing record gives the empty set; the record and write count are untouched |
| CollectionTracker.LoadCollapsesDuplicates | HatChallenge/ModEntry.cs:175-176 | loading never yields more ids than the stored list has entries, and yields as many exactly when the list has no duplicates |
| CollectionTracker.Save | HatChallenge/ModEntry.cs:179-182 | one write; the stored list is duplicate-free, has exactly the collected ids as elements and as many entries as the set; the set is unchanged; loading the result reproduces it |
| CollectionTracker.SaveLoadRoundTrip | HatChallenge/ModEntry.cs:173-182 | once the record matches the set, a later load restores exactly that set, whatever the set held before the load |
| CollectionTracker.Update | HatChallenge/ModEntry.cs:268-275 | the set becomes old set plus the id; an id already present changes nothing and writes nothing; a new id causes exactly one write, which stores the new set |
| InventoryEvents.AddedHatIdsMembers | HatChallenge/ModEntry.cs:60-66 | an id is contributed by the added items iff some added item is a hat with that id; other items contribute nothing |
| InventoryEvents.GetHatIdOrder | HatChallenge/ModEntry.cs:70-97 | the `which` property's int value comes first; failing that, the `ParentSheetIndex` value; when neither yields an int, the fallback id -1 |
| InventoryEvents.OnInventoryChanged | HatChallenge/ModEntry.cs:56-68 | the set grows by exactly the ids of the added hats; there is one write per such id not collected before; when nothing is written, the record is left as it was; after any write, the record matches the set |
| HatCatalogue.ParsedEntriesMembers | HatChallenge/ModEntry.cs:194-197 | the filtered catalogue holds exactly the raw entries whose key parses, paired with their parsed id, and is no longer than the raw table |
| HatCatalogue.ToHatData | HatChallenge/ModEntry.cs:194-197 | succeeds iff no two kept keys parse to the same id, and then yields the filtered entries in order; a failure names an id that two kept keys share |
| HatGrid.CellContains | HatChallenge/ModEntry.cs:240-241 | a point is in cell k iff its offset from the grid corner lies within the first 64 pixels of k's column and of k's row |
| HatGrid.CellsDisjoint | HatChallenge/ModEntry.cs:238-250 | two cells that share a point are the same cell, so at most one icon matches any mouse position |
| HatGrid.HitIndexCorrect | HatChallenge/ModEntry.cs:238-265 | the closed-form hit test names cell k iff k is within the catalogue and cell k contains the point |
| HatGrid.CursorStep | HatChallenge/ModEntry.cs:209-218 | the cursor update (back to the left edge one row down after every eighth icon, otherwise one pitch right) moves from cell k to cell k+1 |
| HatGrid.Draw | HatChallenge/ModEntry.cs:184-225 | without the hat texture, or when two "Data/hats" keys parse to the same id (the dictionary build throws), nothing is drawn; otherwise one icon per catalogue entry, entry k in cell k, white iff collected; the hover text is shown iff the hover rectangle is not empty |
| HatGrid.PerformHoverAction | HatChallenge/ModEntry.cs:227-266 | when two "Data/hats" keys parse to the same id (the dictionary build throws) the hover state is left as it was; otherwise it is cleared iff no cell contains the mouse, and when one does, the hover rectangle is the cell the closed-form hit test names, and the text is that entry's text, with " (Collected)" appended iff the hat is collected |

## Left out

- Harmony patching of `CollectionsPage.draw` and the `DrawHatCollectionTab` postfix (lines 31-35, 120-137). This is host-engine interception. Its only logic is "draw when the last tab is active", plus two texture boxes and a title.
- `AddHatCollectionTab` and `OnMenuChanged` (lines 38-44, 99-118). They read and write a private field of the host menu through reflection and place a tab icon.
- `LoadAssets` and all `Game1.content.Load` calls. These are asset I/O. A failed texture load is modelled as `textureLoaded = false` in `Draw`. The "Data/hats" table is a parameter `raw` of `ToHatData`, `Draw` and `PerformHoverAction`. The last two build the catalogue with `ToHatData` and stop on its failure, as the thrown exception would stop them.
- `int.TryParse` / `int.Parse`. They are the parameter `parse : string -> Option<int>`. The model does not state the .NET parsing rules.
- `Dictionary` enumeration order. The catalogue is taken in insertion order, as the .NET implementation enumerates a dictionary that has had no removals. The language does not promise that order.
- Reflection in `GetHatId` (lines 70-97). Each reflective property read is the `which` / `parentSheetIndex` field of `Item.Hat`, `None` when the property is missing or not an int. Logging on the `-1` fallback, and the hat name it prints, are left out.
- The `hatCollectionTab == null` guards (lines 58, 101, 122). The tab is created in `Entry` before any event is subscribed, so the model always has one.
- Event wiring (lines 26-29). `OnSaveLoaded` and `OnSaving` only call `LoadCollectedHats` and `SaveCollectedHats`, which are `Load` and `Save` here.
- SpriteBatch drawing, source rectangles from `getSourceRectForStandardTileSheet`, and tooltip rendering. `Draw` returns the icon draws and the tooltip text instead of issuing calls.
- Number widths. The cursor is a float `Vector2` in the source and an int here. These agree while coordinates stay below 2^24. The 32-bit overflow of `X + Width` inside `Rectangle.Contains` is not modelled. Hat ids are unbounded ints, not `int`.
- `PerformHoverAction` has no caller anywhere in `ModEntry.cs`. As written, the hover state keeps its initial value, an empty rectangle, and `Draw` never shows a tooltip. The model states what the method would do if it were called.
- CollectionTracker.Load: reads and writes of the "CollectedHats" record are taken to succeed. `Load` always replaces the set, and `Save` and `Update` always write. Nothing in `LoadCollectedHats` or `SaveCollectedHats` (lines 173-182) catches an exception from `ReadSaveData` or `WriteSaveData`. So if the read throws, the code as written keeps the set that was in memory; it does not start empty. If the write in `UpdateCollectedHats` throws, the id is already in the set (line 272 runs before line 273) but not in the record.
- `Save`: `HashSet.ToList()` leaves the order of the written list unspecified, so the model promises no order, only which ids are written and that none repeats.
- The tracker records the fallback id `-1` when neither id property of a hat can be read, and `Load` accepts whatever ids the stored record holds. The model keeps both behaviours and promises nothing about which ids belong to real hats.
