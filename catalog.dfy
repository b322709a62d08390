/** The catalog of saved puzzles: an ordered list of records, persisted and
    read back as a whole, addressed by identifier. */
module Catalog {
  import opened Grids

  /** A saved puzzle, as stored. `cellWidth` and `cellHeight` are
      presentation hints. */
  datatype Puzzle = Puzzle(id: int, rows: int, cols: int, cellWidth: int, cellHeight: int,
                           grid: Grid, rule: string)

  /** `puzzles.find(p => p.id === id)`: the first entry with that identifier,
      or none when no entry has it. */
  function Lookup(catalog: seq<Puzzle>, id: int): (r: Option<Puzzle>)
    ensures r.Some? ==> exists k :: 0 <= k < |catalog| && catalog[k] == r.value && FirstWithId(catalog, id, k)
    ensures r.None? <==> forall k :: 0 <= k < |catalog| ==> catalog[k].id != id
  {
    if catalog == [] then None
    else if catalog[0].id == id then
      assert FirstWithId(catalog, id, 0);
      Some(catalog[0])
    else
      var r := Lookup(catalog[1..], id);
      assert r.Some? ==> exists k :: 0 <= k < |catalog| && catalog[k] == r.value && FirstWithId(catalog, id, k) by {
        if r.Some? {
          var k :| 0 <= k < |catalog[1..]| && catalog[1..][k] == r.value && FirstWithId(catalog[1..], id, k);
          assert catalog[k + 1] == r.value;
          assert FirstWithId(catalog, id, k + 1) by {
            forall j | 0 <= j < k + 1 ensures catalog[j].id != id {
              if j > 0 {
                assert catalog[j] == catalog[1..][j - 1];
              }
            }
          }
        }
      }
      assert r.None? <==> forall k :: 0 <= k < |catalog| ==> catalog[k].id != id by {
        assert forall k :: 1 <= k < |catalog| ==> catalog[k] == catalog[1..][k - 1];
      }
      r
  }

  /** Entry `k` has the identifier and no entry before it does. */
  predicate FirstWithId(catalog: seq<Puzzle>, id: int, k: nat) {
    k < |catalog| && catalog[k].id == id && forall j :: 0 <= j < k ==> catalog[j].id != id
  }

  /** Every stored grid has rows of equal length (the builder only writes
      such grids). */
  predicate WellShaped(catalog: seq<Puzzle>) {
    forall k :: 0 <= k < |catalog| ==> IsRectangular(catalog[k].grid)
  }
}
