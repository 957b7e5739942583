# Icefield simulation model

The page `script.js` simulates an ice field of 12 rows by 30 tiles. At start,
a tenth of the tiles receive a hole and a tenth receive a numbered player, each
drawn at random without replacement from one shared list of tiles. Each tick
(the step button, or a timer in auto mode) takes the players in the order
their elements appear in the document, which is tile order. Each player looks
at its left, right, upper and lower neighbouring tiles and keeps those without
a player. It stays put if none is left. Otherwise it picks one at random: if
that tile holds a hole the player falls and is removed, else it moves there.

This project models that simulation in Dafny:

- `Grid` (`grid.dfy`) covers tile numbering (row times columns plus column),
  decoding by floor division and remainder, and the ordered neighbour list of
  a tile. It is generic in the field's dimensions; `Grid.Icefield` is the
  page's 12 by 30 field.
- `Chance` (`chance.dfy`) turns a value of `Math.random()`, supplied by the
  caller as a real in [0, 1), into an index with `Math.floor(u * len)`.
- `Field` (`field.dfy`) holds the board: the hole tiles, a map from player
  number to tile, the invariants, and the snapshot of players in document
  (tile) order.
- `Placement` (`placement.dfy`) draws holes and then players by splicing
  drawn tiles out of one candidate list.
- `Simulation` (`simulation.dfy`) covers one player's turn, a run of turns
  over a list of players, one tick, and a sequence of ticks.
- `Scenarios` (`scenarios.dfy`) states the page's own counts and a concrete
  tick in which a later player sees an earlier player's move.
- `Seqs` (`seqs.dfy`) holds facts about duplicate-free sequences.

Players take their turns in tile order, the order their elements appear in
the document (script.js:76), not in player-number order (`Field.Snapshot`).

## Model

| member | source | states |
|---|---|---|
| Scenarios.IcefieldCounts | script.js:8-11 | The page's field has 360 tiles, 36 holes and 36 players: a tenth of the tiles, rounded down, for each. |
| Placement.CountsFit | script.js:10-11 | Holes and players together never need more tiles than the field has, so every draw has a tile to pick from. |
| Grid.TileAt | script.js:46-48 | The tile in column `col` of row `row` lies in the field, and decoding it by floor division and remainder gives back `row` and `col`. |
| Grid.DecodeEncode | script.js:50-53 | Decoding an in-bounds tile number gives a row below ROWS and a column below COLUMNS, and encoding them again gives the same tile. |
| Grid.Adjacent | script.js:50-71 | A tile has at most four neighbours; each is in the field and differs from the tile itself. |
| Grid.AdjacentSpec | script.js:57-68 | The neighbour list holds exactly the in-bounds tiles one step away in row or column, without wrapping across a row end. They are listed in the order left, right, up, down, each once. |
| Grid.AdjacentByCoordinates | script.js:55-70 | The neighbour list is the tile at column minus one, column plus one, row minus one and row plus one, each looked up by row and column and included under the same first/last column and row guards as the page. |
| Grid.NeighbourCount | script.js:57-68 | On a field at least two tiles wide and high, a corner tile has 2 neighbours, another border tile 3, and an interior tile 4. |
| Grid.AdjacentSymmetric | script.js:57-68 | `u` is a neighbour of `t` exactly when `t` is a neighbour of `u`. |
| Grid.NotSelfAdjacent | script.js:57-68 | No tile is listed among its own neighbours. |
| Chance.Pick | script.js:29 | `Math.floor(u * len)` for a random value `u` in [0, 1) is always a valid index into a list of length `len`. |
| Chance.PickReaches | script.js:85 | Every index of a non-empty list is chosen by some random value. |
| Placement.Splice | script.js:31 | Splicing out the entry at index `i` leaves the entries before it in place and shifts each later entry down by one, keeping their order. The list is one shorter and holds the same tiles minus that entry. A duplicate-free list stays duplicate-free and no longer contains the removed tile. |
| Placement.SpliceRestores | script.js:31 | Inserting the removed entry back at its index gives the original list: the splice loses exactly that one entry and nothing else. |
| Placement.Place | script.js:25-32 | Drawing `k` tiles by successive splices yields `k` tiles plus the tiles left. Together they are exactly the candidates. From duplicate-free candidates, the drawn tiles are distinct and none remains among those left. |
| Placement.PlaceReaches | script.js:29-31 | Any duplicate-free choice of candidates, in any order, is what some sequence of random values draws. |
| Placement.Layout | script.js:34-42 | Putting player `i` on the `i`-th drawn player tile gives a valid board. It holds as many holes as tiles were drawn for them, and exactly the players numbered below the count. |
| Placement.MakeField | script.js:25-43 | The initial board is valid: NumHoles holes on distinct tiles, and players 0 .. NumPlayers-1 on distinct tiles, none of which holds a hole. |
| Placement.DrawnFit | script.js:25-43 | Drawing holes and then players from all tiles gives the right number of each, all in the field, distinct within each list and disjoint between the lists. |
| Placement.MakeFieldReaches | script.js:25-43 | Every arrangement of NumHoles holes and NumPlayers players on distinct in-bounds tiles, with no player on a hole, is the board built from some random values. |
| Field.SnapshotEnumerates | script.js:76 | The tick's snapshot lists every live player exactly once and no one else. It is in strictly ascending tile order (document order) and has at most as many entries as players created. |
| Simulation.Free | script.js:79 | The tiles kept are exactly the neighbouring tiles on which no player stands, in their order in the neighbour list (a subsequence of it). |
| Simulation.Destination | script.js:81-85 | A player has no destination exactly when every neighbouring tile holds a player. Otherwise the destination is one of its neighbouring tiles and holds no player. |
| Simulation.DestinationReaches | script.js:85 | Each free neighbouring tile is the destination for some random value. |
| Simulation.Turn | script.js:77-94 | A turn keeps the board valid (one player per tile, no player on a hole), never changes the holes, and leaves every other player where it was. |
| Simulation.TurnSpec | script.js:78-93 | A blocked player's turn changes nothing and reports nothing. Otherwise the player falls exactly when its destination holds a hole, reporting that fall and leaving one live player fewer. Else it moves to its destination, a free neighbouring tile, and reports nothing. |
| Simulation.RemoveKeepsValid | script.js:87-89 | Removing a fallen player keeps the board valid and leaves exactly one live player fewer. |
| Simulation.MoveKeepsValid | script.js:91-92 | Moving a player to a free neighbouring tile without a hole keeps at most one player per tile and no player on a hole, and the player really changes tile. |
| Simulation.OnlyNeighbourFree | script.js:78-92 | A player whose only neighbouring tile is free and holds no hole moves there, whatever the random value. |
| Simulation.OnlyNeighbourTaken | script.js:79-83 | A player whose only neighbouring tile holds a player stays put and the board is unchanged. |
| Simulation.ContendedTile | script.js:76-94 | Two players whose only neighbouring tile is the same free tile: the first in order moves there, and the second sees it taken and stays put. |
| Simulation.StepFrom | script.js:77-94 | Any run of turns keeps the board valid, never changes the holes, and creates no players. |
| Simulation.StepFromAppend | script.js:77-94 | A run of turns over two consecutive groups of players is the run over the first group followed by the run over the second on the board the first left, with events in that order: later players see earlier players' moves. |
| Simulation.StepFromMovesOnce | script.js:77-94 | In a run of turns, a player outside the run keeps its tile, and a surviving player ends on its old tile or one of its neighbours: each player moves at most once. |
| Simulation.TurnFalls | script.js:87-90 | A turn reports a fall for its own player exactly when that player is removed, and the number of live players drops by the number of reports. |
| Simulation.StepFromFalls | script.js:87-90 | In a run of turns, a fall is reported for exactly the players removed, and the live player count drops by exactly the number of falls. |
| Simulation.Step | script.js:73-95 | A tick keeps the board valid and the holes unchanged. Every survivor was live before and stays put or ends on a neighbouring tile. A fall is reported for exactly the players removed, one per fall. |
| Simulation.Run | script.js:103-112 | Any number of ticks keeps the board valid and the holes unchanged, and creates no players. |
| Scenarios.Row3Snapshot | script.js:76 | On a row of three tiles with players 0 and 1 on the two ends, the snapshot is player 0 then player 1. |
| Scenarios.LaterTurnSeesEarlierMove | script.js:76-94 | On that row, whatever the random values, player 0 moves to the middle tile. Player 1 then finds its only neighbour taken and stays put, and no one falls. |

## Left out

- The DOM: tile, hole and player elements, CSS classes, `flexBasis` styling,
  the zero-padded player labels. The board is an immutable record instead.
- Message text and `AddMessage`: a tick returns a list of `Fell(player)`
  events instead of writing paragraphs, and the clearing of old messages is
  not modelled.
- `ToggleAuto`, `setInterval`/`clearInterval`, the speed slider and the event
  listeners. `Simulation.Run` applies a given sequence of ticks, which is what
  the button or the timer produces over time.
- `Math.random`: every random value is a caller-supplied real in [0, 1). A
  tick takes one value per snapshot entry; a blocked player's value is not
  used, where the page would not call `Math.random` at all.
- Math.floor on reals is exact in the model. Floating-point rounding of
  `Math.random() * len` is not modelled.
- Dimensions are a parameter (`Grid.Dims`). The page's 12 by 30 field is
  `Grid.Icefield`, and the neighbour count lemma asks for at least two rows
  and two columns, as a 1-wide field has no interior.
