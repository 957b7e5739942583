/** Initial placement: holes, then players, are drawn without replacement
    from one shared list of candidate tiles, each drawn tile being spliced
    out of the list. */
module Placement {
  import opened Grid
  import opened Seqs
  import opened Chance
  import opened Field

  /** `s` without its element at index `i`, as `s.splice(i, 1)` leaves it. */
  function Splice(s: seq<nat>, i: nat): (r: seq<nat>)
    requires i < |s|
    ensures |r| == |s| - 1
    ensures forall k :: 0 <= k < |r| ==> r[k] == if k < i then s[k] else s[k + 1]
    ensures Elems(r) + {s[i]} == Elems(s)
    ensures Distinct(s) ==> Distinct(r) && s[i] !in r
  {
    var r := s[..i] + s[i + 1..];
    assert forall k :: 0 <= k < |r| ==> r[k] == if k < i then s[k] else s[k + 1];
    assert s == s[..i] + [s[i]] + s[i + 1..];
    r
  }

  /** Putting the spliced-out entry back at its index restores the list. */
  lemma SpliceRestores(s: seq<nat>, i: nat)
    requires i < |s|
    ensures var r := Splice(s, i);
      i <= |r| && r[..i] + [s[i]] + r[i..] == s
  {
    var r := Splice(s, i);
    assert r[..i] == s[..i];
    assert r[i..] == s[i + 1..];
    assert s == s[..i] + [s[i]] + s[i + 1..];
  }

  /** Draws `|draws|` tiles from `cands` one after the other: each draw
      picks an index into the tiles still left and splices that tile out.
      Returns the drawn tiles in drawing order and the tiles left. */
  function Place(cands: seq<nat>, draws: seq<real>): (r: (seq<nat>, seq<nat>))
    requires |draws| <= |cands| && AllDraws(draws)
    decreases |draws|
    ensures |r.0| == |draws| && |r.1| == |cands| - |draws|
    ensures Elems(r.0) + Elems(r.1) == Elems(cands)
    ensures Distinct(cands) ==> Distinct(r.0) && Distinct(r.1) && Elems(r.0) !! Elems(r.1)
  {
    if draws == [] then ([], cands)
    else
      var k := Pick(draws[0], |cands|);
      var left := Splice(cands, k);
      var (drawn, rest) := Place(left, draws[1..]);
      assert Elems([cands[k]] + drawn) == {cands[k]} + Elems(drawn);
      assert Distinct(cands) ==> Distinct([cands[k]] + drawn) by {
        if Distinct(cands) {
          var s := [cands[k]] + drawn;
          forall i, j | 0 <= i < j < |s| ensures s[i] != s[j] {
            assert s[j] == drawn[j - 1];
            if i > 0 {
              assert s[i] == drawn[i - 1];
            } else {
              assert s[j] in Elems(left);
            }
          }
        }
      }
      ([cands[k]] + drawn, rest)
  }

  /** Draws that pick the tiles of `want`, in that order, from `cands`: each
      draw selects the position of the next wanted tile among those left. */
  function DrawsFor(cands: seq<nat>, want: seq<nat>): (r: seq<real>)
    requires Distinct(want) && |want| <= |cands|
    requires forall x :: x in want ==> x in cands
    decreases |want|
    ensures |r| == |want| && AllDraws(r)
  {
    if want == [] then []
    else
      var k := IndexOf(cands, want[0]);
      var left := Splice(cands, k);
      assert Distinct(want[1..]) && |want[1..]| <= |left|
        && forall x :: x in want[1..] ==> x in left by {
        RestLeft(cands, want, k);
      }
      var u := k as real / |cands| as real;
      assert IsDraw(u) by {
        PickReaches(k, |cands|);
      }
      var more := DrawsFor(left, want[1..]);
      ConsDraws(u, more);
      [u] + more
  }

  lemma ConsDraws(u: real, more: seq<real>)
    requires IsDraw(u) && AllDraws(more)
    ensures AllDraws([u] + more)
  {
  }

  /** Any duplicate-free choice of candidates, in any order, is what some
      sequence of draws picks: placement can produce every arrangement. */
  lemma {:induction false} PlaceReaches(cands: seq<nat>, want: seq<nat>)
    requires Distinct(want) && |want| <= |cands|
    requires forall x :: x in want ==> x in cands
    ensures Place(cands, DrawsFor(cands, want)).0 == want
    decreases |want|
  {
    if want != [] {
      var k := IndexOf(cands, want[0]);
      RestLeft(cands, want, k);
      PlaceReaches(Splice(cands, k), want[1..]);
      PickReaches(k, |cands|);
      var more := DrawsFor(Splice(cands, k), want[1..]);
      PlaceFirst(cands, k as real / |cands| as real, more);
      assert want == [want[0]] + want[1..];
    }
  }

  /** After the first wanted tile is spliced out, the remaining wanted tiles
      are still duplicate-free and still among the candidates left. */
  lemma RestLeft(cands: seq<nat>, want: seq<nat>, k: nat)
    requires Distinct(want) && want != [] && k < |cands| && cands[k] == want[0]
    requires forall x :: x in want ==> x in cands
    ensures Distinct(want[1..])
    ensures forall x :: x in want[1..] ==> x in Splice(cands, k)
  {
    var rest, left := want[1..], Splice(cands, k);
    forall i, j | 0 <= i < j < |rest| ensures rest[i] != rest[j] {
      assert rest[i] == want[i + 1] && rest[j] == want[j + 1];
    }
    forall x | x in rest ensures x in left {
      var i :| 0 <= i < |rest| && rest[i] == x;
      assert want[i + 1] == x && x != want[0];
      assert x in Elems(cands);
    }
  }

  /** The first draw picks its tile from all candidates, and the later
      draws pick from the candidates left once it is spliced out. */
  lemma PlaceFirst(cands: seq<nat>, u: real, more: seq<real>)
    requires IsDraw(u) && AllDraws(more) && |more| < |cands|
    ensures AllDraws([u] + more)
    ensures var k := Pick(u, |cands|);
      Place(cands, [u] + more).0 == [cands[k]] + Place(Splice(cands, k), more).0
  {
    var draws := [u] + more;
    assert draws[0] == u && draws[1..] == more;
  }

  /** Builds the field: `NumHoles(d)` holes on distinct tiles, then
      `NumPlayers(d)` players, player `i` on the `i`-th tile drawn for
      players, on distinct tiles none of which holds a hole. */
  function MakeField(d: Dims, holeDraws: seq<real>, playerDraws: seq<real>): (b: Board)
    requires d.Valid()
    requires |holeDraws| == NumHoles(d) && AllDraws(holeDraws)
    requires |playerDraws| == NumPlayers(d) && AllDraws(playerDraws)
    ensures Valid(b) && b.dims == d
    ensures |b.holes| == NumHoles(d)
    ensures b.created == NumPlayers(d)
    ensures forall p: nat :: p in b.at <==> p < NumPlayers(d)
  {
    CountsFit(d);
    var (holes, rest) := Place(Range(d.Size()), holeDraws);
    var (players, left) := Place(rest, playerDraws);
    DrawnFit(d.Size(), holeDraws, playerDraws);
    Layout(d, holes, players)
  }

  /** Every arrangement of `NumHoles(d)` holes and `NumPlayers(d)` players
      on distinct in-bounds tiles, no player on a hole, is the field some
      draws build. */
  lemma MakeFieldReaches(d: Dims, holes: seq<nat>, players: seq<nat>)
    requires d.Valid() && |holes| == NumHoles(d) && |players| == NumPlayers(d)
    requires forall t :: t in holes ==> InBounds(d, t)
    requires forall t :: t in players ==> InBounds(d, t)
    requires Distinct(holes) && Distinct(players) && Elems(holes) !! Elems(players)
    ensures exists holeDraws, playerDraws ::
      && |holeDraws| == NumHoles(d) && AllDraws(holeDraws)
      && |playerDraws| == NumPlayers(d) && AllDraws(playerDraws)
      && MakeField(d, holeDraws, playerDraws) == Layout(d, holes, players)
  {
    CountsFit(d);
    var tiles := Range(d.Size());
    RangeElems(d.Size());
    assert forall t :: t in holes ==> t in tiles by {
      forall t | t in holes ensures t in tiles {
        assert t in Elems(tiles);
      }
    }
    PlaceReaches(tiles, holes);
    var holeDraws := DrawsFor(tiles, holes);
    var rest := Place(tiles, holeDraws).1;
    PlayersLeft(d, holes, players, rest);
    PlaceReaches(rest, players);
    var playerDraws := DrawsFor(rest, players);
    assert MakeField(d, holeDraws, playerDraws) == Layout(d, holes, players);
  }

  /** Once the holes are drawn, every tile meant for a player is still
      among the tiles left. */
  lemma PlayersLeft(d: Dims, holes: seq<nat>, players: seq<nat>, rest: seq<nat>)
    requires d.Valid()
    requires forall t :: t in players ==> InBounds(d, t)
    requires Elems(holes) !! Elems(players)
    requires Elems(holes) + Elems(rest) == Elems(Range(d.Size()))
    ensures forall t :: t in players ==> t in rest
  {
    RangeElems(d.Size());
    forall t | t in players ensures t in rest {
      assert t in Elems(players) && t in Elems(Range(d.Size()));
      assert t !in Elems(holes);
      assert t in Elems(rest);
    }
  }

  /** Drawing holes and then players from the tiles `0 .. n-1` gives tiles
      below `n`, distinct within each list and shared by neither. */
  lemma DrawnFit(n: nat, holeDraws: seq<real>, playerDraws: seq<real>)
    requires |holeDraws| + |playerDraws| <= n
    requires AllDraws(holeDraws) && AllDraws(playerDraws)
    ensures var (holes, rest) := Place(Range(n), holeDraws);
      var players := Place(rest, playerDraws).0;
      && |holes| == |holeDraws| && |players| == |playerDraws|
      && (forall t :: t in holes ==> t < n)
      && (forall t :: t in players ==> t < n)
      && Distinct(holes) && Distinct(players) && Elems(holes) !! Elems(players)
  {
    var tiles := Range(n);
    assert Distinct(tiles);
    var (holes, rest) := Place(tiles, holeDraws);
    var (players, left) := Place(rest, playerDraws);
    assert forall t :: t in Elems(tiles) ==> t < n;
    assert Elems(players) <= Elems(rest);
    forall t | t in players ensures t < n {
      assert t in Elems(players);
    }
    forall t | t in holes ensures t < n {
      assert t in Elems(holes);
    }
  }

  /** Holes and players together need at most every tile. */
  lemma CountsFit(d: Dims)
    ensures NumHoles(d) + NumPlayers(d) <= d.Size()
  {
    var n := d.Size();
    assert NumHoles(d) == n / 10 == NumPlayers(d);
  }

  /** The field with holes on `holes` and player `i` on `players[i]`. */
  function Layout(d: Dims, holes: seq<nat>, players: seq<nat>): (b: Board)
    requires d.Valid()
    requires forall t :: t in holes ==> InBounds(d, t)
    requires forall t :: t in players ==> InBounds(d, t)
    requires Distinct(holes) && Distinct(players) && Elems(holes) !! Elems(players)
    ensures Valid(b) && b.dims == d
    ensures |b.holes| == |holes|
    ensures b.created == |players|
    ensures forall p: nat :: p in b.at <==> p < |players|
  {
    DistinctCard(holes);
    assert forall i :: 0 <= i < |players| ==> players[i] in Elems(players);
    Board(d, Elems(holes), map i: nat | i < |players| :: players[i], |players|)
  }
}
