/** The hat catalogue as `Draw` and `PerformHoverAction` build it from the game's
    "Data/hats" table (HatChallenge/ModEntry.cs): keep the entries whose key
    parses as an int, then key a dictionary by the parsed int. */
module HatCatalogue {
  import opened Basics

  /** One catalogue entry: the parsed id and the entry's raw data string from
      "Data/hats", which is also the text shown when hovering over the hat. */
  datatype HatEntry = HatEntry(id: int, data: string)

  /** `ToDictionary` throws when two kept keys parse to the same int. */
  datatype CatalogueError = DuplicateKey(id: int)

  /** No id occurs twice. */
  predicate UniqueIds(hats: seq<HatEntry>) {
    forall i, j :: 0 <= i < j < |hats| ==> hats[i].id != hats[j].id
  }

  /** The `Where(int.TryParse)` filter followed by the `int.Parse` of each kept key,
      in the order of `raw`. `parse` stands for `int.TryParse`: None when the key
      is not an int. */
  function ParsedEntries(raw: seq<(string, string)>, parse: string -> Option<int>): (r: seq<HatEntry>)
    decreases |raw|
  {
    if |raw| == 0 then []
    else
      var rest := ParsedEntries(raw[1..], parse);
      match parse(raw[0].0)
      case Some(id) => [HatEntry(id, raw[0].1)] + rest
      case None => rest
  }

  /** The filter keeps exactly the raw entries whose key parses, pairing the
      parsed id with the unchanged value, and keeps nothing else. */
  lemma {:induction false} ParsedEntriesMembers(raw: seq<(string, string)>, parse: string -> Option<int>, e: HatEntry)
    ensures e in ParsedEntries(raw, parse)
        <==> exists i :: 0 <= i < |raw| && parse(raw[i].0) == Some(e.id) && raw[i].1 == e.data
    ensures |ParsedEntries(raw, parse)| <= |raw|
    decreases |raw|
  {
    if |raw| > 0 {
      var rest := raw[1..];
      ParsedEntriesMembers(rest, parse, e);
      if e in ParsedEntries(rest, parse) {
        var i :| 0 <= i < |rest| && parse(rest[i].0) == Some(e.id) && rest[i].1 == e.data;
        assert raw[i + 1] == rest[i];
      }
      if exists i :: 0 <= i < |raw| && parse(raw[i].0) == Some(e.id) && raw[i].1 == e.data {
        var i :| 0 <= i < |raw| && parse(raw[i].0) == Some(e.id) && raw[i].1 == e.data;
        if i > 0 { assert rest[i - 1] == raw[i]; }
      }
    }
  }

  /** `ToDictionary(int.Parse(key), value)` over the filtered entries: the
      catalogue in insertion order, or the first key that parses to an id
      already taken. */
  method ToHatData(raw: seq<(string, string)>, parse: string -> Option<int>)
    returns (r: Result<seq<HatEntry>, CatalogueError>)
    ensures r.Success? <==> UniqueIds(ParsedEntries(raw, parse))
    ensures r.Success? ==> r.value == ParsedEntries(raw, parse)
    ensures r.Failure? ==> exists i, j :: 0 <= i < j < |ParsedEntries(raw, parse)|
                                && ParsedEntries(raw, parse)[i].id == r.error.id
                                && ParsedEntries(raw, parse)[j].id == r.error.id
  {
    var entries := ParsedEntries(raw, parse);
    var dict: seq<HatEntry> := [];
    var keys: set<int> := {};
    var k := 0;
    while k < |entries|
      invariant 0 <= k <= |entries|
      invariant dict == entries[..k]
      invariant UniqueIds(dict)
      invariant forall id :: id in keys <==> exists i :: 0 <= i < k && entries[i].id == id
    {
      var e := entries[k];
      if e.id in keys {
        ghost var i :| 0 <= i < k && entries[i].id == e.id;
        return Failure(DuplicateKey(e.id));
      }
      dict := dict + [e];
      keys := keys + {e.id};
      k := k + 1;
    }
    assert entries[..|entries|] == entries;
    r := Success(dict);
  }
}
