/** The collected-hat tracker of `HatCollectionTab` (HatChallenge/ModEntry.cs):
    a set of hat ids, the save-data record "CollectedHats" it is persisted to,
    and the number of writes made to that record. */
module CollectionTracker {
  import opened Basics

  /** `collected` is the in-memory `HashSet<int>`; `stored` is the "CollectedHats"
      save-data record as the host would return it (None when the save has none);
      `writes` counts calls of `WriteSaveData`. */
  datatype Tracker = Tracker(collected: set<int>, stored: Option<seq<int>>, writes: nat)

  /** The stored record exists, is duplicate-free and holds exactly the collected set. */
  predicate Persisted(t: Tracker) {
    t.stored.Some? && Distinct(t.stored.value) && Elements(t.stored.value) == t.collected
  }

  /** `LoadCollectedHats`: replace the set by the distinct ids of the stored list;
      a missing record reads as the empty list. The record itself is left alone. */
  function Load(t: Tracker): (r: Tracker)
    ensures forall id :: id in r.collected <==> t.stored.Some? && id in t.stored.value
    ensures t.stored.None? ==> r.collected == {}
    ensures r.stored == t.stored && r.writes == t.writes
  {
    t.(collected := Elements(t.stored.GetOr([])))
  }

  /** `SaveCollectedHats`: write the set out as a list. `HashSet.ToList` fixes no
      order, so the elements are taken in an arbitrary order. */
  method Save(t: Tracker) returns (r: Tracker)
    ensures r.collected == t.collected
    ensures Persisted(r)
    ensures |r.stored.value| == |t.collected|
    ensures r.writes == t.writes + 1
    ensures Load(r) == r
  {
    var list: seq<int> := [];
    var rest := t.collected;
    while |rest| > 0
      invariant Distinct(list)
      invariant Elements(list) !! rest
      invariant Elements(list) + rest == t.collected
      decreases |rest|
    {
      assert exists x :: x in rest by {
        if forall x :: x !in rest { assert false; }
      }
      var id :| id in rest;
      AppendFresh(list, id);
      list := list + [id];
      rest := rest - {id};
    }
    ElementsCardinality(list);
    r := t.(stored := Some(list), writes := t.writes + 1);
  }

  /** `UpdateCollectedHats`: add `id`; only a change to the set causes a write,
      and that write stores the new set. */
  method Update(t: Tracker, id: int) returns (r: Tracker)
    ensures r.collected == t.collected + {id}
    ensures id in t.collected ==> r.collected == t.collected && r.stored == t.stored && r.writes == t.writes
    ensures id !in t.collected ==> r.writes == t.writes + 1 && Persisted(r)
  {
    if id !in t.collected {
      r := Save(t.(collected := t.collected + {id}));
    } else {
      r := t;
    }
  }

  /** Loading right after a save restores exactly the saved set, whatever was
      in memory before the load. */
  lemma SaveLoadRoundTrip(t: Tracker, other: set<int>)
    requires Persisted(t)
    ensures Load(t.(collected := other)).collected == t.collected
  {
  }

  /** Loading collapses duplicates: the set is never larger than the stored
      list, and is as large exactly when the list has no duplicates. */
  lemma LoadCollapsesDuplicates(t: Tracker)
    requires t.stored.Some?
    ensures |Load(t).collected| <= |t.stored.value|
    ensures |Load(t).collected| == |t.stored.value| <==> Distinct(t.stored.value)
  {
    ElementsCardinality(t.stored.value);
  }
}
