/** The state of the ice field between player turns: which tiles hold a
    hole, and which tile each live player stands on. */
module Field {
  import opened Grid
  import opened Seqs

  /** Something reported during a tick: the player with this number fell
      into a hole. */
  datatype Event = Fell(player: nat)

  /** `holes` are the tiles that hold a hole, `at` maps the number of each
      live player to its tile, and `created` is the number of players placed
      at start; player numbers are below it. */
  datatype Board = Board(dims: Dims, holes: set<nat>, at: map<nat, nat>, created: nat)

  predicate HolesInBounds(b: Board) {
    forall h :: h in b.holes ==> InBounds(b.dims, h)
  }

  predicate PlayersInBounds(b: Board) {
    forall p :: p in b.at ==> p < b.created && InBounds(b.dims, b.at[p])
  }

  /** No live player stands on a hole. */
  predicate NoPlayerOnHole(b: Board) {
    forall p :: p in b.at ==> b.at[p] !in b.holes
  }

  /** No two live players share a tile. */
  predicate OnePlayerPerTile(b: Board) {
    forall p, q :: p in b.at && q in b.at && p != q ==> b.at[p] != b.at[q]
  }

  /** The invariant of the field that placement establishes and every
      player turn keeps. */
  predicate Valid(b: Board) {
    && b.dims.Valid()
    && HolesInBounds(b)
    && PlayersInBounds(b)
    && NoPlayerOnHole(b)
    && OnePlayerPerTile(b)
  }

  /** Some live player stands on tile `t`. */
  predicate Occupied(b: Board, t: nat) {
    t in b.at.Values
  }

  /** The players on tile `t` whose numbers lie in `from .. created-1`, in
      ascending order. */
  function OnTile(b: Board, t: nat, from: nat): (s: seq<nat>)
    decreases b.created - from
    ensures forall p :: p in s <==> from <= p < b.created && p in b.at && b.at[p] == t
    ensures forall i :: 0 <= i < |s| ==> from <= s[i] && s[i] in b.at && b.at[s[i]] == t
    ensures forall i, j :: 0 <= i < j < |s| ==> s[i] < s[j]
  {
    if from >= b.created then []
    else
      var rest := OnTile(b, t, from + 1);
      (if from in b.at && b.at[from] == t then [from] else []) + rest
  }

  /** The players on tiles `t` and later, in tile order: the order in which
      the page's player elements appear in the document. */
  function SnapshotFrom(b: Board, t: nat): (s: seq<nat>)
    decreases b.dims.Size() - t
    ensures forall p :: p in s <==> p in b.at && p < b.created && t <= b.at[p] < b.dims.Size()
    ensures forall i :: 0 <= i < |s| ==> s[i] in b.at && t <= b.at[s[i]]
    ensures Distinct(s)
    ensures forall i, j :: 0 <= i < j < |s| ==> b.at[s[i]] <= b.at[s[j]]
  {
    if t >= b.dims.Size() then []
    else
      var here, later := OnTile(b, t, 0), SnapshotFrom(b, t + 1);
      here + later
  }

  /** The players in the order a tick processes them. */
  function Snapshot(b: Board): seq<nat> {
    SnapshotFrom(b, 0)
  }

  /** On a valid field the snapshot lists every live player exactly once,
      in strictly ascending tile order, and has at most `created` entries. */
  lemma SnapshotEnumerates(b: Board)
    requires Valid(b)
    ensures forall p :: p in Snapshot(b) <==> p in b.at
    ensures Distinct(Snapshot(b))
    ensures forall i, j :: 0 <= i < j < |Snapshot(b)| ==>
      b.at[Snapshot(b)[i]] < b.at[Snapshot(b)[j]]
    ensures |Snapshot(b)| == |b.at| <= b.created
  {
    var s := Snapshot(b);
    assert Elems(s) == b.at.Keys;
    DistinctCard(s);
    BoundedCard(b.at.Keys, b.created);
  }
}
