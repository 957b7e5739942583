/** Concrete runs on small fields. */
module Scenarios {
  import opened Grid
  import opened Seqs
  import opened Chance
  import opened Field
  import opened Simulation
  import opened Placement

  /** The page's own field: 12 by 30 tiles, 36 holes and 36 players. */
  lemma IcefieldCounts()
    ensures Icefield.Valid() && Icefield.Size() == 360
    ensures NumHoles(Icefield) == 36 && NumPlayers(Icefield) == 36
  {
  }

  /** On a row of three tiles, player 0 on the left tile and player 1 on the
      right tile, and no holes. */
  function Row3(d: Dims): Board {
    Board(d, {}, map[0 := 0, 1 := 2], 2)
  }

  /** `Row3` after player 0 has moved to the middle tile. */
  function Row3Moved(d: Dims): Board {
    Row3(d).(at := map[0 := 1, 1 := 2])
  }

  lemma Row3Valid(d: Dims)
    requires d == Dims(1, 3)
    ensures Valid(Row3(d)) && Valid(Row3Moved(d))
  {
    assert d.Size() == 3;
  }

  /** In a row of three tiles, the only neighbour of either end tile is the
      middle tile. */
  lemma Row3EndAdjacent(d: Dims, t: nat)
    requires d == Dims(1, 3) && (t == 0 || t == 2)
    ensures d.Valid() && InBounds(d, t)
    ensures Adjacent(d, t) == [1]
  {
    assert d.Size() == 3;
    assert RowOf(d, t) == 0 && ColOf(d, t) == t;
  }

  /** The middle tile is free at the start, and moving player 0 there
      gives `Row3Moved`, where it is taken. */
  lemma Row3Middle(d: Dims)
    ensures !Occupied(Row3(d), 1)
    ensures Occupied(Row3Moved(d), 1)
    ensures Row3(d).(at := Row3(d).at[0 := 1]) == Row3Moved(d)
  {
    var at := Row3(d).at;
    assert forall p :: p in at ==> at[p] != 1;
    assert Row3Moved(d).at[0] == 1;
  }

  /** `Row3`'s players come in the order 0, 1: the snapshot lists both
      players, in ascending tile order. */
  lemma Row3Snapshot(d: Dims)
    requires d == Dims(1, 3)
    ensures Snapshot(Row3(d)) == [0, 1]
  {
    var b := Row3(d);
    assert Valid(b) && b.at.Keys == {0, 1} && b.at[0] < b.at[1] by {
      Row3Valid(d);
    }
    SnapshotOfTwo(b, 0, 1);
  }

  /** A field with exactly two live players lists them in tile order. */
  lemma SnapshotOfTwo(b: Board, p: nat, q: nat)
    requires Valid(b) && b.at.Keys == {p, q} && p in b.at && q in b.at && b.at[p] < b.at[q]
    ensures Snapshot(b) == [p, q]
  {
    SnapshotEnumerates(b);
    TwoKeys(b.at, p, q);
    var s := Snapshot(b);
    assert s[0] in s && s[1] in s;
  }

  /** A map whose keys are two distinct numbers has two entries. */
  lemma TwoKeys(m: map<nat, nat>, p: nat, q: nat)
    requires m.Keys == {p, q} && p != q
    ensures |m| == 2
  {
    assert |m.Keys| == |{p, q}|;
  }

  /** On `Row3` player 0 comes first in tile order and, whatever the draws,
      takes the middle tile; when player 1's turn comes its only neighbour
      is taken, so it stays put. The second turn sees the field as the first
      left it. */
  lemma LaterTurnSeesEarlierMove(d: Dims, draws: seq<real>)
    requires d == Dims(1, 3) && |draws| == 2 && AllDraws(draws)
    ensures Valid(Row3(d))
    ensures Step(Row3(d), draws) == Outcome(Row3Moved(d), [])
  {
    var b := Row3(d);
    var order := Snapshot(b);
    assert Valid(b) && 0 in b.at && 1 in b.at by {
      Row3Valid(d);
    }
    assert |order| == 2 && order[0] == 0 && order[1] == 1 by {
      Row3Snapshot(d);
    }
    assert Adjacent(b.dims, b.at[0]) == [1] && Adjacent(b.dims, b.at[1]) == [1] by {
      Row3EndAdjacent(d, 0);
      Row3EndAdjacent(d, 2);
    }
    assert !Occupied(b, 1) && b.(at := b.at[0 := 1]) == Row3Moved(d) by {
      Row3Middle(d);
    }
    ContendedTile(b, order, draws, 1);
  }
}
