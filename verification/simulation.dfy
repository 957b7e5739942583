/** One tick of the simulation: every player present at the start of the
    tick takes one turn, in document (tile) order, and each turn sees the
    field as the earlier turns of the same tick left it. */
module Simulation {
  import opened Grid
  import opened Seqs
  import opened Chance
  import opened Field

  datatype Option<T> = None | Some(value: T)

  /** The field after some turns, with the events those turns reported. */
  datatype Outcome = Outcome(board: Board, events: seq<Event>)

  /** The tiles of `s` on which no live player stands, in their order in `s`. */
  function Free(b: Board, s: seq<nat>): (r: seq<nat>)
    ensures forall t :: t in r <==> t in s && !Occupied(b, t)
    ensures Subseq(r, s)
  {
    if s == [] then []
    else
      var rest := Free(b, s[1..]);
      if Occupied(b, s[0]) then rest
      else
        var r := [s[0]] + rest;
        assert r[0] == s[0] && r[1..] == rest;
        r
  }

  /** Every neighbouring tile of player `p` holds a player. */
  predicate Blocked(b: Board, p: nat)
    requires Valid(b) && p in b.at
  {
    forall t :: t in Adjacent(b.dims, b.at[p]) ==> Occupied(b, t)
  }

  /** The tile player `p` goes to with draw `u`: one of its free
      neighbouring tiles, or none when it is blocked. */
  function Destination(b: Board, p: nat, u: real): (o: Option<nat>)
    requires Valid(b) && p in b.at && IsDraw(u)
    ensures o.None? <==> Blocked(b, p)
    ensures o.Some? ==> o.value in Adjacent(b.dims, b.at[p]) && !Occupied(b, o.value)
  {
    var free := Free(b, Adjacent(b.dims, b.at[p]));
    if |free| == 0 then None
    else
      var k := Pick(u, |free|);
      assert free[k] in free;
      Some(free[k])
  }

  /** Every free neighbouring tile of player `p` is the destination for some
      draw. */
  lemma DestinationReaches(b: Board, p: nat, t: nat)
    requires Valid(b) && p in b.at
    requires t in Adjacent(b.dims, b.at[p]) && !Occupied(b, t)
    ensures exists u :: IsDraw(u) && Destination(b, p, u) == Some(t)
  {
    var free := Free(b, Adjacent(b.dims, b.at[p]));
    var k :| 0 <= k < |free| && free[k] == t;
    PickReaches(k, |free|);
    var u := k as real / |free| as real;
    assert Destination(b, p, u) == Some(t);
  }

  /** Player `p` takes its turn with draw `u`: it stays put when blocked,
      falls (and is removed) when the tile it picks holds a hole, and
      otherwise moves to that tile. The field stays valid and no other
      player is touched; `TurnSpec` states what happens to `p`. */
  function Turn(b: Board, p: nat, u: real): (o: Outcome)
    requires Valid(b) && p in b.at && IsDraw(u)
    ensures Valid(o.board)
    ensures o.board.dims == b.dims && o.board.holes == b.holes && o.board.created == b.created
    ensures forall q :: q in o.board.at ==> q in b.at
    ensures forall q :: q in b.at && q != p ==> q in o.board.at && o.board.at[q] == b.at[q]
  {
    match Destination(b, p, u)
    case None => Outcome(b, [])
    case Some(t) =>
      if t in b.holes then
        RemoveKeepsValid(b, p);
        Outcome(b.(at := b.at - {p}), [Fell(p)])
      else
        MoveKeepsValid(b, p, t);
        Outcome(b.(at := b.at[p := t]), [])
  }

  /** The turn of player `p`: a blocked player stays put and the field is
      unchanged; otherwise the player falls exactly when its destination
      holds a hole, reporting that fall and leaving one live player fewer,
      and else moves to its destination, a free neighbouring tile, and
      reports nothing. */
  lemma TurnSpec(b: Board, p: nat, u: real)
    requires Valid(b) && p in b.at && IsDraw(u)
    ensures var o := Turn(b, p, u);
      && (Blocked(b, p) <==> o == Outcome(b, []))
      && (p in o.board.at ==>
            o.board.at[p] == b.at[p]
            || (o.board.at[p] in Adjacent(b.dims, b.at[p]) && !Occupied(b, o.board.at[p])))
      && (p in o.board.at ==> o.events == [])
      && (p !in o.board.at <==> o.events == [Fell(p)])
      && (p !in o.board.at <==>
            Destination(b, p, u).Some? && Destination(b, p, u).value in b.holes)
      && (p in o.board.at && !Blocked(b, p) ==> o.board.at[p] == Destination(b, p, u).value)
      && (p !in o.board.at ==> |o.board.at| == |b.at| - 1)
  {
    var o := Turn(b, p, u);
    match Destination(b, p, u)
    case None =>
    case Some(t) =>
      if t in b.holes {
        RemoveKeepsValid(b, p);
      } else {
        MoveKeepsValid(b, p, t);
      }
  }

  /** Removing a player keeps the field valid and leaves one live player
      fewer. */
  lemma RemoveKeepsValid(b: Board, p: nat)
    requires Valid(b) && p in b.at
    ensures Valid(b.(at := b.at - {p}))
    ensures |b.at - {p}| == |b.at| - 1
  {
    assert (b.at - {p}).Keys == b.at.Keys - {p};
  }

  /** Moving a player to a free, hole-free neighbouring tile keeps the
      field valid, and the player does change tile. */
  lemma MoveKeepsValid(b: Board, p: nat, t: nat)
    requires Valid(b) && p in b.at
    requires t in Adjacent(b.dims, b.at[p]) && !Occupied(b, t) && t !in b.holes
    ensures Valid(b.(at := b.at[p := t]))
    ensures t != b.at[p]
  {
    NotSelfAdjacent(b.dims, b.at[p]);
  }

  /** A player whose only neighbouring tile is free and holds no hole moves
      there, whatever its draw. */
  lemma OnlyNeighbourFree(b: Board, p: nat, t: nat, u: real)
    requires Valid(b) && p in b.at && IsDraw(u)
    requires Adjacent(b.dims, b.at[p]) == [t] && !Occupied(b, t) && t !in b.holes
    ensures Turn(b, p, u) == Outcome(b.(at := b.at[p := t]), [])
  {
    assert Free(b, [t]) == [t];
  }

  /** A player whose only neighbouring tile holds a player stays put and
      reports nothing. */
  lemma OnlyNeighbourTaken(b: Board, p: nat, t: nat, u: real)
    requires Valid(b) && p in b.at && IsDraw(u)
    requires Adjacent(b.dims, b.at[p]) == [t] && Occupied(b, t)
    ensures Turn(b, p, u) == Outcome(b, [])
  {
  }

  /** Two players whose only neighbouring tile is the same free, hole-free
      tile, taking their turns in that order: the first moves there, and the
      second, seeing that move, stays put. */
  lemma ContendedTile(b: Board, order: seq<nat>, draws: seq<real>, t: nat)
    requires Valid(b) && |order| == 2 && |draws| == 2 && AllDraws(draws)
    requires order[0] in b.at && order[1] in b.at && Distinct(order)
    requires Adjacent(b.dims, b.at[order[0]]) == [t] && Adjacent(b.dims, b.at[order[1]]) == [t]
    requires !Occupied(b, t) && t !in b.holes
    ensures StepFrom(b, order, draws) == Outcome(b.(at := b.at[order[0] := t]), [])
  {
    var p, q := order[0], order[1];
    var b1 := b.(at := b.at[p := t]);
    PairFacts(order, draws);
    assert Turn(b, p, draws[0]) == Outcome(b1, []) && Valid(b1) && q in b1.at
      && StepFrom(b1, order[1..], draws[1..]) == Outcome(b1, []) by {
      ContendedTurns(b, p, q, t, draws[0], draws[1]);
      SingleTurn(b1, order[1..], draws[1..]);
    }
    FirstThen(b, order, draws, Outcome(b1, []), Outcome(b1, []));
  }

  /** Facts about an order of two distinct players and its two draws. */
  lemma PairFacts(order: seq<nat>, draws: seq<real>)
    requires |order| == 2 && order[0] != order[1] && |draws| == 2 && AllDraws(draws)
    ensures forall x :: x in order ==> x == order[0] || x == order[1]
    ensures |order[1..]| == 1 && order[1..][0] == order[1] && Distinct(order[1..])
    ensures forall x :: x in order[1..] ==> x == order[1]
    ensures |draws[1..]| == 1 && draws[1..][0] == draws[1]
    ensures IsDraw(draws[0]) && IsDraw(draws[1])
  {
  }

  /** Two players whose only neighbouring tile is the same free, hole-free
      tile: the first to take its turn moves there, and the second, taking
      its turn on the field the first left, finds that tile taken and stays
      put. */
  lemma ContendedTurns(b: Board, p: nat, q: nat, t: nat, u0: real, u1: real)
    requires Valid(b) && p in b.at && q in b.at && p != q && IsDraw(u0) && IsDraw(u1)
    requires Adjacent(b.dims, b.at[p]) == [t] && Adjacent(b.dims, b.at[q]) == [t]
    requires !Occupied(b, t) && t !in b.holes
    ensures var b1 := b.(at := b.at[p := t]);
      && Turn(b, p, u0) == Outcome(b1, [])
      && Valid(b1) && q in b1.at && Turn(b1, q, u1) == Outcome(b1, [])
  {
    var b1 := b.(at := b.at[p := t]);
    OnlyNeighbourFree(b, p, t, u0);
    assert b1.at[p] == t;
    OnlyNeighbourTaken(b1, q, t, u1);
  }

  /** A run whose first turn reports nothing is that turn followed by the
      run of the remaining players on the field it left. */
  lemma FirstThen(b: Board, order: seq<nat>, draws: seq<real>, first: Outcome, rest: Outcome)
    requires Valid(b) && order != [] && Distinct(order) && (forall p :: p in order ==> p in b.at)
    requires |draws| >= |order| && AllDraws(draws)
    requires Turn(b, order[0], draws[0]) == first && first.events == []
    requires Valid(first.board) && (forall p :: p in order[1..] ==> p in first.board.at)
    requires Distinct(order[1..])
    requires StepFrom(first.board, order[1..], draws[1..]) == rest
    ensures StepFrom(b, order, draws) == rest
  {
    assert [] + rest.events == rest.events;
  }

  /** A run of one turn is that turn. */
  lemma SingleTurn(b: Board, order: seq<nat>, draws: seq<real>)
    requires Valid(b) && |order| == 1 && |draws| == 1 && AllDraws(draws) && order[0] in b.at
    ensures Distinct(order)
    ensures StepFrom(b, order, draws) == Turn(b, order[0], draws[0])
  {
    assert order[1..] == [] && draws[1..] == [];
  }

  /** The players of `order` take their turns one after the other, player
      `order[k]` using draw `draws[k]`; each turn sees the field as the
      turns before it left it. */
  function StepFrom(b: Board, order: seq<nat>, draws: seq<real>): (o: Outcome)
    requires Valid(b)
    requires forall p :: p in order ==> p in b.at
    requires Distinct(order)
    requires |draws| >= |order| && AllDraws(draws)
    decreases |order|
    ensures Valid(o.board)
    ensures o.board.dims == b.dims && o.board.holes == b.holes && o.board.created == b.created
    ensures forall p :: p in o.board.at ==> p in b.at
  {
    if order == [] then Outcome(b, [])
    else
      var first := Turn(b, order[0], draws[0]);
      DistinctTail(order);
      var rest := StepFrom(first.board, order[1..], draws[1..]);
      Outcome(rest.board, first.events + rest.events)
  }

  /** Dropping the first element of a duplicate-free sequence leaves a
      duplicate-free sequence without that element. */
  lemma DistinctTail(s: seq<nat>)
    requires Distinct(s) && s != []
    ensures Distinct(s[1..]) && s[0] !in s[1..]
  {
    var t := s[1..];
    forall i, j | 0 <= i < j < |t| ensures t[i] != t[j] {
      assert t[i] == s[i + 1] && t[j] == s[j + 1];
    }
    forall k | 0 <= k < |t| ensures t[k] != s[0] {
      assert t[k] == s[k + 1];
    }
  }

  /** The run over `o1`, then the run over `o2` on the field it left, the
      events of both parts in that order. */
  function Then(b: Board, o1: seq<nat>, o2: seq<nat>, draws: seq<real>): Outcome
    requires Valid(b)
    requires forall p :: p in o1 ==> p in b.at
    requires forall p :: p in o2 ==> p in b.at && p !in o1
    requires Distinct(o1) && Distinct(o2)
    requires |draws| >= |o1| + |o2| && AllDraws(draws)
  {
    StepFromMovesOnce(b, o1, draws);
    var m := StepFrom(b, o1, draws);
    var r := StepFrom(m.board, o2, draws[|o1|..]);
    Outcome(r.board, m.events + r.events)
  }

  /** A run of turns over `o1 + o2` is the run over `o1` followed by the
      run over `o2` on the field that the first part left, with the events
      of both parts in that order: every turn sees the field as all earlier
      turns of the tick left it. */
  lemma {:induction false} StepFromAppend(b: Board, o1: seq<nat>, o2: seq<nat>, draws: seq<real>)
    requires Valid(b)
    requires forall p :: p in o1 ==> p in b.at
    requires forall p :: p in o2 ==> p in b.at && p !in o1
    requires Distinct(o1) && Distinct(o2) && Distinct(o1 + o2)
    requires |draws| >= |o1| + |o2| && AllDraws(draws)
    ensures StepFrom(b, o1 + o2, draws) == Then(b, o1, o2, draws)
    decreases |o1|
  {
    if o1 == [] {
      assert o1 + o2 == o2 && draws[|o1|..] == draws;
    } else {
      assert o1 + o2 == [o1[0]] + (o1[1..] + o2);
      StepFromFirst(b, o1[0], o1[1..] + o2, draws);
      TailDisjoint(o1, o2);
      var first := Turn(b, o1[0], draws[0]);
      StepFromAppend(first.board, o1[1..], o2, draws[1..]);
      ThenCons(b, o1, o2, draws);
    }
  }

  /** A run over `[p] + rest` is the turn of `p` followed by the run over
      `rest` on the field that turn left. */
  lemma StepFromFirst(b: Board, p: nat, rest: seq<nat>, draws: seq<real>)
    requires Valid(b) && p in b.at && forall q :: q in rest ==> q in b.at
    requires Distinct([p] + rest)
    requires |draws| >= 1 + |rest| && AllDraws(draws)
    ensures Distinct(rest) && p !in rest
    ensures var first := Turn(b, p, draws[0]);
      && (forall q :: q in rest ==> q in first.board.at)
      && var r := StepFrom(first.board, rest, draws[1..]);
         StepFrom(b, [p] + rest, draws) == Outcome(r.board, first.events + r.events)
  {
    var o := [p] + rest;
    assert o[0] == p && o[1..] == rest;
    DistinctTail(o);
    TurnKeeps(b, p, draws[0], rest);
  }

  /** Players of `o2` kept apart from `o1` are neither its first player nor
      any of the rest. */
  lemma TailDisjoint(o1: seq<nat>, o2: seq<nat>)
    requires o1 != [] && forall p :: p in o2 ==> p !in o1
    ensures forall p :: p in o2 ==> p != o1[0] && p !in o1[1..]
  {
    assert o1 == [o1[0]] + o1[1..];
  }

  /** A turn of player `p` leaves every other listed player alive. */
  lemma TurnKeeps(b: Board, p: nat, u: real, s: seq<nat>)
    requires Valid(b) && p in b.at && IsDraw(u)
    requires forall q :: q in s ==> q in b.at && q != p
    ensures forall q :: q in s ==> q in Turn(b, p, u).board.at
  {
  }

  /** Composing runs: a non-empty first part is its first turn followed by
      the composition of the rest. */
  lemma ThenCons(b: Board, o1: seq<nat>, o2: seq<nat>, draws: seq<real>)
    requires Valid(b) && o1 != []
    requires forall p :: p in o1 ==> p in b.at
    requires forall p :: p in o2 ==> p in b.at && p !in o1
    requires Distinct(o1) && Distinct(o2)
    requires |draws| >= |o1| + |o2| && AllDraws(draws)
    ensures Distinct(o1[1..])
    ensures var first := Turn(b, o1[0], draws[0]);
      && (forall p :: p in o1[1..] ==> p in first.board.at)
      && (forall p :: p in o2 ==> p in first.board.at && p !in o1[1..])
      && var t := Then(first.board, o1[1..], o2, draws[1..]);
         Then(b, o1, o2, draws) == Outcome(t.board, first.events + t.events)
  {
    StepFromCons(b, o1, draws);
    var first := Turn(b, o1[0], draws[0]);
    StepFromMovesOnce(first.board, o1[1..], draws[1..]);
    var m1 := StepFrom(first.board, o1[1..], draws[1..]);
    assert draws[1..][|o1| - 1..] == draws[|o1|..];
    var r := StepFrom(m1.board, o2, draws[|o1|..]);
    EventsAssociate(first.events, m1.events, r.events);
  }

  lemma EventsAssociate(a: seq<Event>, b: seq<Event>, c: seq<Event>)
    ensures a + (b + c) == (a + b) + c
  {
  }

  /** A non-empty run of turns is its first player's turn followed by the
      run of the others on the field that turn left. */
  lemma StepFromCons(b: Board, order: seq<nat>, draws: seq<real>)
    requires Valid(b) && order != []
    requires forall p :: p in order ==> p in b.at
    requires Distinct(order)
    requires |draws| >= |order| && AllDraws(draws)
    ensures Distinct(order[1..]) && order[0] !in order[1..]
    ensures var first := Turn(b, order[0], draws[0]);
      && (forall p :: p in order[1..] ==> p in first.board.at)
      && var rest := StepFrom(first.board, order[1..], draws[1..]);
         StepFrom(b, order, draws) == Outcome(rest.board, first.events + rest.events)
  {
    DistinctTail(order);
  }

  /** Within a run of turns, a player not in `order` keeps its tile, and a
      surviving player of `order` ends on its old tile or on a neighbour of
      it: each player moves at most once. */
  lemma {:induction false} StepFromMovesOnce(b: Board, order: seq<nat>, draws: seq<real>)
    requires Valid(b)
    requires forall p :: p in order ==> p in b.at
    requires Distinct(order)
    requires |draws| >= |order| && AllDraws(draws)
    ensures var o := StepFrom(b, order, draws);
      && (forall p :: p in b.at && p !in order ==> p in o.board.at && o.board.at[p] == b.at[p])
      && (forall p :: p in o.board.at ==>
            o.board.at[p] == b.at[p] || o.board.at[p] in Adjacent(b.dims, b.at[p]))
    decreases |order|
  {
    if order != [] {
      var first := Turn(b, order[0], draws[0]);
      DistinctTail(order);
      StepFromMovesOnce(first.board, order[1..], draws[1..]);
    }
  }

  /** Within a run of turns, a fall is reported for exactly the players
      that were removed, and the number of live players drops by the
      number of reports. */
  lemma {:induction false} StepFromFalls(b: Board, order: seq<nat>, draws: seq<real>)
    requires Valid(b)
    requires forall p :: p in order ==> p in b.at
    requires Distinct(order)
    requires |draws| >= |order| && AllDraws(draws)
    ensures var o := StepFrom(b, order, draws);
      && (forall p :: Fell(p) in o.events <==> p in b.at && p !in o.board.at)
      && |o.events| == |b.at| - |o.board.at|
    decreases |order|
  {
    if order != [] {
      var p := order[0];
      var first := Turn(b, p, draws[0]);
      DistinctTail(order);
      StepFromFalls(first.board, order[1..], draws[1..]);
      TurnFalls(b, p, draws[0]);
    }
  }

  /** A single turn reports a fall for its own player exactly when that
      player is removed, and the number of live players drops by the number
      of reports. */
  lemma TurnFalls(b: Board, p: nat, u: real)
    requires Valid(b) && p in b.at && IsDraw(u)
    ensures var o := Turn(b, p, u);
      && (forall q :: Fell(q) in o.events <==> q == p && p !in o.board.at)
      && |o.events| == |b.at| - |o.board.at|
  {
    var o := Turn(b, p, u);
    if p in o.board.at {
      assert o.board.at.Keys == b.at.Keys;
    }
  }

  /** One tick: every player present at its start, taken in snapshot order,
      takes one turn. `draws` supplies the draw of each turn. */
  function Step(b: Board, draws: seq<real>): (o: Outcome)
    requires Valid(b) && |draws| >= |b.at| && AllDraws(draws)
    ensures Valid(o.board)
    ensures o.board.dims == b.dims && o.board.holes == b.holes && o.board.created == b.created
    ensures forall p :: p in o.board.at ==>
      p in b.at && (o.board.at[p] == b.at[p] || o.board.at[p] in Adjacent(b.dims, b.at[p]))
    ensures forall p :: Fell(p) in o.events <==> p in b.at && p !in o.board.at
    ensures |o.events| == |b.at| - |o.board.at|
  {
    SnapshotEnumerates(b);
    StepFromMovesOnce(b, Snapshot(b), draws);
    StepFromFalls(b, Snapshot(b), draws);
    StepFrom(b, Snapshot(b), draws)
  }

  /** Ticks one after the other, as the step button or the timer drives
      them; `ticks[k]` supplies the draws of tick `k`. */
  function Run(b: Board, ticks: seq<seq<real>>): (r: Board)
    requires Valid(b)
    requires forall k :: 0 <= k < |ticks| ==> |ticks[k]| >= b.created && AllDraws(ticks[k])
    decreases |ticks|
    ensures Valid(r)
    ensures r.dims == b.dims && r.holes == b.holes && r.created == b.created
    ensures forall p :: p in r.at ==> p in b.at
  {
    if ticks == [] then b
    else
      SnapshotEnumerates(b);
      Run(Step(b, ticks[0]).board, ticks[1..])
  }
}
