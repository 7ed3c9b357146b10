/** `ModEntry.OnInventoryChanged` and `ModEntry.GetHatId` (HatChallenge/ModEntry.cs):
    every hat among the items just added to the inventory is recorded. */
module InventoryEvents {
  import opened Basics
  import opened CollectionTracker

  /** An inventory item. For a hat, `which` and `parentSheetIndex` are what the
      reflective reads of the `which` and `ParentSheetIndex` properties yield
      (None when the property is missing or its value is not an int). */
  datatype Item =
    | Hat(which: Option<int>, parentSheetIndex: Option<int>)
    | OtherItem

  /** Id used when neither property yields an int. */
  const UnknownHatId: int := -1

  /** `GetHatId`: the `which` value if there is one, else the `ParentSheetIndex`
      value, else the fallback id. */
  function GetHatId(h: Item): (id: int)
    requires h.Hat?
  {
    match h.which
    case Some(w) => w
    case None => h.parentSheetIndex.GetOr(UnknownHatId)
  }

  /** The two property reads are tried in order, `which` first, and the
      fallback id is used only when neither yields an int. */
  lemma GetHatIdOrder(h: Item)
    requires h.Hat?
    ensures h.which.Some? ==> GetHatId(h) == h.which.value
    ensures h.which.None? && h.parentSheetIndex.Some? ==> GetHatId(h) == h.parentSheetIndex.value
    ensures h.which.None? && h.parentSheetIndex.None? ==> GetHatId(h) == UnknownHatId
  {
  }

  /** The ids contributed by `added`, taken item by item: one per hat, none
      per other item. */
  function AddedHatIds(added: seq<Item>): (ids: set<int>)
    decreases |added|
  {
    if |added| == 0 then {}
    else
      var last := added[|added| - 1];
      AddedHatIds(added[..|added| - 1]) + (if last.Hat? then {GetHatId(last)} else {})
  }

  /** An id is contributed exactly when some added item is a hat with that id:
      every added hat counts, and nothing else does. */
  lemma {:induction false} AddedHatIdsMembers(added: seq<Item>, id: int)
    ensures id in AddedHatIds(added)
        <==> exists i :: 0 <= i < |added| && added[i].Hat? && GetHatId(added[i]) == id
    decreases |added|
  {
    if |added| > 0 {
      var n := |added| - 1;
      var prefix := added[..n];
      AddedHatIdsMembers(prefix, id);
      if id in AddedHatIds(prefix) {
        var i :| 0 <= i < |prefix| && prefix[i].Hat? && GetHatId(prefix[i]) == id;
        assert added[i] == prefix[i];
      }
      if exists i :: 0 <= i < |added| && added[i].Hat? && GetHatId(added[i]) == id {
        var i :| 0 <= i < |added| && added[i].Hat? && GetHatId(added[i]) == id;
        if i < n { assert prefix[i] == added[i]; }
      }
    }
  }

  /** One `UpdateCollectedHats(id)` keeps the books of `OnInventoryChanged`:
      if the set was `c` plus the ids seen so far, with one write per seen id not
      in `c`, then the same holds once `id` has been seen. */
  lemma UpdateKeepsAccount(c: set<int>, w: nat, ids: set<int>, before: Tracker, after: Tracker, id: int)
    requires before.collected == c + ids && before.writes == w + |ids - c|
    requires after.collected == before.collected + {id}
    requires id in before.collected ==> after.writes == before.writes
    requires id !in before.collected ==> after.writes == before.writes + 1
    ensures after.collected == c + (ids + {id})
    ensures after.writes == w + |(ids + {id}) - c|
  {
    if id in c + ids {
      assert (ids + {id}) - c == ids - c;
    } else {
      assert (ids + {id}) - c == (ids - c) + {id};
    }
  }

  /** `OnInventoryChanged`: feed the id of every added hat, in order, to
      `UpdateCollectedHats`. The set grows by exactly those ids, and there is one
      write per id that was not yet collected. */
  method OnInventoryChanged(t: Tracker, added: seq<Item>) returns (r: Tracker)
    ensures r.collected == t.collected + AddedHatIds(added)
    ensures r.writes == t.writes + |AddedHatIds(added) - t.collected|
    ensures r.writes == t.writes ==> r.stored == t.stored
    ensures r.writes != t.writes ==> Persisted(r)
  {
    r := t;
    var i := 0;
    ghost var ids: set<int> := {};
    while i < |added|
      invariant 0 <= i <= |added|
      invariant ids == AddedHatIds(added[..i])
      invariant r.collected == t.collected + ids
      invariant r.writes == t.writes + |ids - t.collected|
      invariant r.writes == t.writes ==> r.stored == t.stored
      invariant r.writes != t.writes ==> Persisted(r)
    {
      assert added[..i + 1][..i] == added[..i];
      if added[i].Hat? {
        var id := GetHatId(added[i]);
        ghost var before := r;
        r := Update(r, id);
        UpdateKeepsAccount(t.collected, t.writes, ids, before, r, id);
        ids := ids + {id};
      }
      i := i + 1;
    }
    assert added[..|added|] == added;
  }
}
