/** The tile grid: numbering of tiles, decoding a tile number into a row and
    a column, and the orthogonal neighbours of a tile. */
module Grid {

  /** A field of `rows` rows with `columns` tiles each. Tiles are numbered
      row by row, starting at 0. */
  datatype Dims = Dims(rows: nat, columns: nat) {

    predicate Valid() {
      rows > 0 && columns > 0
    }

    /** Number of tiles. */
    function Size(): nat {
      rows * columns
    }
  }

  /** The field the page builds: 12 rows of 30 tiles. */
  const Icefield: Dims := Dims(12, 30)

  /** Holes placed at start: a tenth of the tiles, rounded down. */
  function NumHoles(d: Dims): nat {
    d.Size() / 10
  }

  /** Players placed at start: also a tenth of the tiles, rounded down. */
  function NumPlayers(d: Dims): nat {
    d.Size() / 10
  }

  predicate InBounds(d: Dims, t: int) {
    0 <= t < d.Size()
  }

  /** Row of tile `t` (floor division). */
  function RowOf(d: Dims, t: nat): nat
    requires d.Valid()
  {
    t / d.columns
  }

  /** Column of tile `t` (remainder). */
  function ColOf(d: Dims, t: nat): nat
    requires d.Valid()
  {
    t % d.columns
  }

  /** Number of the tile in column `col` of row `row`; decoding it gives
      back the same row and column. */
  function TileAt(d: Dims, col: nat, row: nat): (t: nat)
    requires d.Valid() && col < d.columns && row < d.rows
    ensures InBounds(d, t)
    ensures RowOf(d, t) == row && ColOf(d, t) == col
  {
    EncodeDecode(d.columns, col, row);
    EncodeBelow(d, col, row);
    row * d.columns + col
  }

  /** Decoding an in-bounds tile gives a row and column inside the field,
      and encoding them again gives back the tile. */
  lemma DecodeEncode(d: Dims, t: nat)
    requires d.Valid() && InBounds(d, t)
    ensures RowOf(d, t) < d.rows && ColOf(d, t) < d.columns
    ensures TileAt(d, ColOf(d, t), RowOf(d, t)) == t
  {
    var q, c := t / d.columns, d.columns;
    assert t == q * c + t % c;
    if q >= d.rows {
      MulMono(c, d.rows, q);
      assert false;
    }
  }

  lemma MulMono(c: nat, a: nat, b: nat)
    requires a <= b
    ensures a * c <= b * c
  {
  }

  lemma {:induction false} EncodeDecode(c: nat, col: nat, row: nat)
    requires 0 <= col < c
    ensures (row * c + col) / c == row
    ensures (row * c + col) % c == col
  {
    var t := row * c + col;
    var q, r := t / c, t % c;
    assert t == q * c + r;
    if q > row {
      MulMono(c, row + 1, q);
      assert false;
    } else if q < row {
      MulMono(c, q + 1, row);
      assert false;
    }
  }

  lemma EncodeBelow(d: Dims, col: nat, row: nat)
    requires d.Valid() && col < d.columns && row < d.rows
    ensures row * d.columns + col < d.Size()
  {
    MulMono(d.columns, row + 1, d.rows);
  }

  function Dist(a: nat, b: nat): nat {
    if a <= b then b - a else a - b
  }

  /** `u` is an orthogonal neighbour of `t`: the two differ in exactly one
      coordinate, by exactly one. */
  predicate Neighbours(d: Dims, t: nat, u: nat)
    requires d.Valid()
  {
    Dist(RowOf(d, t), RowOf(d, u)) + Dist(ColOf(d, t), ColOf(d, u)) == 1
  }

  /** Direction of neighbour `u` as seen from `t`: 0 left, 1 right, 2 up,
      3 down. */
  function Side(d: Dims, t: nat, u: nat): nat
    requires d.Valid()
  {
    if ColOf(d, u) < ColOf(d, t) then 0
    else if ColOf(d, u) > ColOf(d, t) then 1
    else if RowOf(d, u) < RowOf(d, t) then 2
    else 3
  }

  /** The in-bounds orthogonal neighbours of `t`, left, right, up, down,
      without wrapping around the ends of a row or column; `AdjacentSpec`
      states which tiles these are and in what order. */
  function Adjacent(d: Dims, t: nat): (r: seq<nat>)
    requires d.Valid() && InBounds(d, t)
    ensures |r| <= 4
    ensures forall i :: 0 <= i < |r| ==> InBounds(d, r[i]) && r[i] != t
  {
    CandidatesAreNeighbours(d, t);
    Neighbourhood(d, t)
  }

  /** `Adjacent` lists exactly the in-bounds orthogonal neighbours of `t`,
      each once, in the order left, right, up, down. */
  lemma AdjacentSpec(d: Dims, t: nat)
    requires d.Valid() && InBounds(d, t)
    ensures forall u :: u in Adjacent(d, t) <==> InBounds(d, u) && Neighbours(d, t, u)
    ensures var r := Adjacent(d, t);
      forall i, j :: 0 <= i < j < |r| ==> Side(d, t, r[i]) < Side(d, t, r[j])
  {
    NeighbourhoodMembers(d, t);
    NeighbourhoodOrder(d, t);
  }

  /** The four guarded candidates: the tile to the left unless `t` is in
      the first column, to the right unless in the last column, above
      unless in the first row, below unless in the last row. */
  function Neighbourhood(d: Dims, t: nat): seq<nat>
    requires d.Valid() && InBounds(d, t)
  {
    CandidatesAreNeighbours(d, t);
    var row, col := RowOf(d, t), ColOf(d, t);
    (if col != 0 then [t - 1] else [])
    + (if col != d.columns - 1 then [t + 1] else [])
    + (if row != 0 then [t - d.columns] else [])
    + (if row != d.rows - 1 then [t + d.columns] else [])
  }

  lemma NeighbourhoodMembers(d: Dims, t: nat)
    requires d.Valid() && InBounds(d, t)
    ensures forall u :: u in Neighbourhood(d, t) <==> InBounds(d, u) && Neighbours(d, t, u)
  {
    NeighbourhoodCandidates(d, t);
    AdjacentComplete(d, t);
    forall u: nat | IsCandidate(d, t, u)
      ensures InBounds(d, u) && Neighbours(d, t, u)
    {
      CandidateIsNeighbour(d, t, u);
    }
  }

  lemma NeighbourhoodCandidates(d: Dims, t: nat)
    requires d.Valid() && InBounds(d, t)
    ensures forall u :: u in Neighbourhood(d, t) <==> IsCandidate(d, t, u)
  {
  }

  lemma CandidateIsNeighbour(d: Dims, t: nat, u: nat)
    requires d.Valid() && InBounds(d, t) && IsCandidate(d, t, u)
    ensures InBounds(d, u) && Neighbours(d, t, u)
  {
    CandidatesAreNeighbours(d, t);
  }

  lemma NeighbourhoodOrder(d: Dims, t: nat)
    requires d.Valid() && InBounds(d, t)
    ensures var r := Neighbourhood(d, t);
      forall i, j :: 0 <= i < j < |r| ==> Side(d, t, r[i]) < Side(d, t, r[j])
  {
    CandidatesAreNeighbours(d, t);
  }

  /** The tile numbers `Adjacent` lists are exactly the tiles in the
      neighbouring column or row, each listed under the same guard. */
  lemma AdjacentByCoordinates(d: Dims, t: nat)
    requires d.Valid() && InBounds(d, t)
    ensures var row, col := RowOf(d, t), ColOf(d, t);
      row < d.rows && col < d.columns
      && Adjacent(d, t) ==
        (if col != 0 then [TileAt(d, col - 1, row)] else [])
        + (if col != d.columns - 1 then [TileAt(d, col + 1, row)] else [])
        + (if row != 0 then [TileAt(d, col, row - 1)] else [])
        + (if row != d.rows - 1 then [TileAt(d, col, row + 1)] else [])
  {
    NeighbourTiles(d, t);
  }

  /** Each guarded candidate of `Adjacent` is the tile one column or one
      row away, with the other coordinate unchanged. */
  lemma NeighbourTiles(d: Dims, t: nat)
    requires d.Valid() && InBounds(d, t)
    ensures RowOf(d, t) < d.rows && ColOf(d, t) < d.columns
    ensures var row, col := RowOf(d, t), ColOf(d, t);
      && (col != 0 ==> t >= 1 && t - 1 == TileAt(d, col - 1, row))
      && (col != d.columns - 1 ==> t + 1 == TileAt(d, col + 1, row))
      && (row != 0 ==> t >= d.columns && t - d.columns == TileAt(d, col, row - 1))
      && (row != d.rows - 1 ==> t + d.columns == TileAt(d, col, row + 1))
  {
    DecodeEncode(d, t);
    var row, c := RowOf(d, t), d.columns;
    if row != 0 {
      MulSucc(row - 1, c);
    }
    MulSucc(row, c);
  }

  lemma MulSucc(a: nat, c: nat)
    ensures (a + 1) * c == a * c + c
  {
  }

  /** Every in-bounds neighbour of `t` is one of the four candidates that
      the guards in `Adjacent` let through. */
  lemma AdjacentComplete(d: Dims, t: nat)
    requires d.Valid() && InBounds(d, t)
    ensures forall u :: InBounds(d, u) && Neighbours(d, t, u) ==> IsCandidate(d, t, u)
  {
    forall u | InBounds(d, u) && Neighbours(d, t, u)
      ensures IsCandidate(d, t, u)
    {
      NeighbourIsCandidate(d, t, u);
    }
  }

  /** `u` is one of the four tiles `Adjacent` considers for `t`, and its
      guard holds. */
  predicate IsCandidate(d: Dims, t: nat, u: nat)
    requires d.Valid()
  {
    var row, col := RowOf(d, t), ColOf(d, t);
    || (col != 0 && u == t - 1)
    || (col != d.columns - 1 && u == t + 1)
    || (row != 0 && u == t - d.columns)
    || (row != d.rows - 1 && u == t + d.columns)
  }

  lemma NeighbourIsCandidate(d: Dims, t: nat, u: nat)
    requires d.Valid() && InBounds(d, t) && InBounds(d, u) && Neighbours(d, t, u)
    ensures IsCandidate(d, t, u)
  {
    if RowOf(d, u) == RowOf(d, t) {
      RowNeighbourIsCandidate(d, t, u);
    } else {
      ColumnNeighbourIsCandidate(d, t, u);
    }
  }

  /** A neighbour in the same row is the tile just left or just right. */
  lemma RowNeighbourIsCandidate(d: Dims, t: nat, u: nat)
    requires d.Valid() && InBounds(d, t) && InBounds(d, u)
    requires RowOf(d, u) == RowOf(d, t) && Dist(ColOf(d, t), ColOf(d, u)) == 1
    ensures IsCandidate(d, t, u)
  {
    NeighbourTiles(d, t);
    DecodeEncode(d, u);
    var row, col := RowOf(d, t), ColOf(d, t);
    if ColOf(d, u) + 1 == col {
      assert u == TileAt(d, col - 1, row);
    } else {
      assert u == TileAt(d, col + 1, row);
    }
  }

  /** A neighbour in the same column is the tile just above or just below. */
  lemma ColumnNeighbourIsCandidate(d: Dims, t: nat, u: nat)
    requires d.Valid() && InBounds(d, t) && InBounds(d, u)
    requires ColOf(d, u) == ColOf(d, t) && Dist(RowOf(d, t), RowOf(d, u)) == 1
    ensures IsCandidate(d, t, u)
  {
    NeighbourTiles(d, t);
    DecodeEncode(d, u);
    var row, col := RowOf(d, t), ColOf(d, t);
    if RowOf(d, u) + 1 == row {
      assert u == TileAt(d, col, row - 1);
    } else {
      assert u == TileAt(d, col, row + 1);
    }
  }

  /** Each candidate `Adjacent` lists is an in-bounds neighbour lying on
      the side its position in the list names. */
  lemma CandidatesAreNeighbours(d: Dims, t: nat)
    requires d.Valid() && InBounds(d, t)
    ensures var row, col := RowOf(d, t), ColOf(d, t);
      && (col != 0 ==> t >= 1 && InBounds(d, t - 1) && Neighbours(d, t, t - 1) && Side(d, t, t - 1) == 0)
      && (col != d.columns - 1 ==>
            InBounds(d, t + 1) && Neighbours(d, t, t + 1) && Side(d, t, t + 1) == 1)
      && (row != 0 ==>
            t >= d.columns && InBounds(d, t - d.columns) && Neighbours(d, t, t - d.columns)
            && Side(d, t, t - d.columns) == 2)
      && (row != d.rows - 1 ==>
            InBounds(d, t + d.columns) && Neighbours(d, t, t + d.columns)
            && Side(d, t, t + d.columns) == 3)
  {
    NeighbourTiles(d, t);
  }

  /** A corner tile touches two borders of the field. */
  predicate IsCorner(d: Dims, t: nat)
    requires d.Valid()
  {
    (ColOf(d, t) == 0 || ColOf(d, t) == d.columns - 1)
    && (RowOf(d, t) == 0 || RowOf(d, t) == d.rows - 1)
  }

  /** An edge tile touches exactly one border of the field. */
  predicate IsEdge(d: Dims, t: nat)
    requires d.Valid()
  {
    (ColOf(d, t) == 0 || ColOf(d, t) == d.columns - 1)
    != (RowOf(d, t) == 0 || RowOf(d, t) == d.rows - 1)
  }

  /** On a field at least two tiles wide and high, corners have two
      neighbours, other border tiles three and interior tiles four. */
  lemma NeighbourCount(d: Dims, t: nat)
    requires d.Valid() && d.rows >= 2 && d.columns >= 2 && InBounds(d, t)
    ensures IsCorner(d, t) ==> |Adjacent(d, t)| == 2
    ensures IsEdge(d, t) ==> |Adjacent(d, t)| == 3
    ensures !IsCorner(d, t) && !IsEdge(d, t) ==> |Adjacent(d, t)| == 4
  {
  }

  /** Adjacency is symmetric. */
  lemma AdjacentSymmetric(d: Dims, t: nat, u: nat)
    requires d.Valid() && InBounds(d, t) && InBounds(d, u)
    ensures u in Adjacent(d, t) <==> t in Adjacent(d, u)
  {
    AdjacentSpec(d, t);
    AdjacentSpec(d, u);
    var a, b := Adjacent(d, t), Adjacent(d, u);
    assert u in a <==> Neighbours(d, t, u);
    assert t in b <==> Neighbours(d, u, t);
  }

  /** No tile is its own neighbour. */
  lemma NotSelfAdjacent(d: Dims, t: nat)
    requires d.Valid() && InBounds(d, t)
    ensures t !in Adjacent(d, t)
  {
    AdjacentSpec(d, t);
  }
}
