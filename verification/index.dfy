/** The date-keyed lookup objects the heatmap and the trend chart build with
    `entries.forEach(e => data[key(e)] = ...)`: one slot per key, and a later entry
    overwrites an earlier one with the same key. */
module EntryIndex {
  import opened Types

  /** The object after visiting `entries` in list order. */
  function LastWins(entries: seq<Entry>, key: Entry -> string): (r: map<string, Entry>)
    ensures forall k :: k in r <==> exists x :: x in entries && key(x) == k
    ensures forall k :: k in r ==> r[k] in entries && key(r[k]) == k
  {
    if |entries| == 0 then map[]
    else
      var init := entries[..|entries| - 1];
      var last := entries[|entries| - 1];
      assert forall x :: x in entries <==> x in init || x == last;
      LastWins(init, key)[key(last) := last]
  }

  /** No entry after position `i` shares its key. */
  predicate IsLastWithKey(entries: seq<Entry>, key: Entry -> string, i: int)
    requires 0 <= i < |entries|
  {
    forall j :: i < j < |entries| ==> key(entries[j]) != key(entries[i])
  }

  /** The slot of a key holds the last entry with that key. */
  lemma {:induction false} LastWinsPicksLast(entries: seq<Entry>, key: Entry -> string, i: int)
    requires 0 <= i < |entries| && IsLastWithKey(entries, key, i)
    ensures LastWins(entries, key)[key(entries[i])] == entries[i]
  {
    var n := |entries|;
    if i < n - 1 {
      var init := entries[..n - 1];
      assert init[i] == entries[i];
      assert IsLastWithKey(init, key, i);
      LastWinsPicksLast(init, key, i);
    }
  }
}
