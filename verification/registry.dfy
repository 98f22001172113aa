/** The player registry over the entity store. The world is a sequence of
    entities addressed by index (entities are never removed, so an index is
    a stable handle), and `players` maps a player identifier to the handle
    of its entity. */
module Registry {

  import opened Wrappers
  import opened Components

  datatype Game = Game(world: seq<Entity>, players: map<string, nat>)

  /** The lookup of `id` finds a live entity if `id` is mapped at all: what
      the entry lookup needs in order not to panic. */
  predicate Live(g: Game, id: string)
  {
    id in g.players ==> g.players[id] < |g.world|
  }

  /** Every mapped handle is live. */
  predicate Valid(g: Game)
  {
    forall id :: id in g.players ==> g.players[id] < |g.world|
  }

  /** Every mapped handle is live and names an entity tagged with that very
      player, so no two players share an entity. */
  predicate Consistent(g: Game)
  {
    forall id :: id in g.players ==> g.players[id] < |g.world| && g.world[g.players[id]].player == Some(id)
  }

  /** Appending entities without touching the map keeps both invariants. */
  lemma ExtendWorld(g: Game, r: Game)
    requires r.players == g.players
    requires |g.world| <= |r.world| && r.world[..|g.world|] == g.world
    ensures Valid(g) ==> Valid(r)
    ensures Consistent(g) ==> Consistent(r)
  {
    forall id | id in g.players && g.players[id] < |g.world|
      ensures r.world[g.players[id]] == g.world[g.players[id]]
    {
      assert r.world[..|g.world|][g.players[id]] == r.world[g.players[id]];
    }
  }

  /** A player's entity as `create_player` builds it: white `@` on black. */
  function PlayerEntity(id: string, pos: Position): Entity
  {
    Entity(pos, Renderable('@', White, Black), Some(id), false)
  }

  /** `create_player`: one new `@` entity at `pos`, tagged `id`, appended to
      the world; `id` now names it, whether or not `id` named an entity
      before. Every other entity and every other mapping is untouched. */
  function CreatePlayer(g: Game, id: string, pos: Position): (r: Game)
    ensures |r.world| == |g.world| + 1
    ensures r.world[..|g.world|] == g.world
    ensures r.world[|g.world|] == PlayerEntity(id, pos)
    ensures r.players.Keys == g.players.Keys + {id}
    ensures r.players[id] == |g.world|
    ensures forall other :: other in g.players && other != id ==> r.players[other] == g.players[other]
    ensures Valid(g) ==> Valid(r)
    ensures Consistent(g) ==> Consistent(r)
  {
    Game(g.world + [PlayerEntity(id, pos)], g.players[id := |g.world|])
  }

  /** Creating a player that is already registered orphans its old entity:
      the entity stays in the world with its position, but `id` no longer
      names it. */
  lemma CreateOrphansOld(g: Game, id: string, pos: Position)
    requires Valid(g) && id in g.players
    ensures var r := CreatePlayer(g, id, pos);
      && g.players[id] < |r.world|
      && r.world[g.players[id]] == g.world[g.players[id]]
      && r.players[id] != g.players[id]
  {
  }

  /** `get_player_entry`: the handle of `id`'s entity, `None` exactly when
      `id` is not registered. */
  function GetPlayerEntry(g: Game, id: string): (r: Option<nat>)
    requires Live(g, id)
    ensures r.None? <==> id !in g.players
    ensures r.Some? ==> r.value == g.players[id]
    ensures r.Some? ==> r.value < |g.world|
    ensures r.Some? && Consistent(g) ==> g.world[r.value].player == Some(id)
  {
    if id in g.players then Some(g.players[id]) else None
  }

  /** Where `id`'s entity stands, if `id` is registered. */
  function PositionOf(g: Game, id: string): Option<Position>
    requires Live(g, id)
  {
    match GetPlayerEntry(g, id)
    case Some(h) => Some(g.world[h].pos)
    case None => None
  }

  /** Replace the position of entity `h`, keeping its look and tags. */
  function SetPosition(g: Game, h: nat, pos: Position): Game
    requires h < |g.world|
  {
    Game(g.world[h := g.world[h].(pos := pos)], g.players)
  }

  /** `move_player`: a registered player's entity is moved to `(x, y)`;
      nothing else changes. An unregistered identifier changes nothing. */
  function MovePlayer(g: Game, id: string, x: i32, y: i32): (r: Game)
    requires Live(g, id)
    ensures r.players == g.players && |r.world| == |g.world|
    ensures id !in g.players ==> r == g
    ensures id in g.players ==> PositionOf(r, id) == Some(Position(x, y))
    ensures id in g.players ==>
      var h := g.players[id];
      r.world[h].look == g.world[h].look && r.world[h].player == g.world[h].player
        && r.world[h].ignore == g.world[h].ignore
    ensures forall h :: 0 <= h < |g.world| && (id !in g.players || h != g.players[id]) ==> r.world[h] == g.world[h]
    ensures Valid(g) ==> Valid(r)
    ensures Consistent(g) ==> Consistent(r)
  {
    match GetPlayerEntry(g, id)
    case Some(h) => SetPosition(g, h, Position(x, y))
    case None => g
  }

  /** Moving to a place twice is moving there once. */
  lemma MovePlayerIdempotent(g: Game, id: string, x: i32, y: i32)
    requires Live(g, id)
    ensures MovePlayer(MovePlayer(g, id, x, y), id, x, y) == MovePlayer(g, id, x, y)
  {
  }

  /** Moving one player leaves every other player where it was, provided
      no two players share an entity. */
  lemma MovePlayerFrame(g: Game, id: string, x: i32, y: i32, other: string)
    requires Consistent(g)
    requires other != id
    ensures PositionOf(MovePlayer(g, id, x, y), other) == PositionOf(g, other)
  {
  }

  /** The relative move fits in `i32` (no overflow panic). */
  predicate DeltaFits(g: Game, id: string, dx: i32, dy: i32)
    requires Live(g, id)
  {
    id in g.players ==>
      var p := g.world[g.players[id]].pos;
      InI32(p.x as int + dx as int) && InI32(p.y as int + dy as int)
  }

  /** `move_player_delta`: a registered player's entity moves by
      `(dx, dy)`, unclamped; an unregistered identifier changes nothing. */
  function MovePlayerDelta(g: Game, id: string, dx: i32, dy: i32): (r: Game)
    requires Live(g, id) && DeltaFits(g, id, dx, dy)
    ensures r.players == g.players && |r.world| == |g.world|
    ensures id !in g.players ==> r == g
    ensures id in g.players ==>
      var p := g.world[g.players[id]].pos;
      PositionOf(r, id) == Some(Position(p.x + dx, p.y + dy))
    ensures forall h :: 0 <= h < |g.world| && (id !in g.players || h != g.players[id]) ==> r.world[h] == g.world[h]
    ensures Valid(g) ==> Valid(r)
    ensures Consistent(g) ==> Consistent(r)
  {
    match GetPlayerEntry(g, id)
    case Some(h) =>
      var p := g.world[h].pos;
      SetPosition(g, h, Position(p.x + dx, p.y + dy))
    case None => g
  }

  /** A relative move is an absolute move to the shifted position. */
  lemma MoveDeltaIsMove(g: Game, id: string, dx: i32, dy: i32)
    requires Live(g, id) && DeltaFits(g, id, dx, dy) && id in g.players
    ensures var p := g.world[g.players[id]].pos;
      MovePlayerDelta(g, id, dx, dy) == MovePlayer(g, id, p.x + dx, p.y + dy)
  {
  }

  /** Moving by a delta and then by its opposite restores the state. */
  lemma MoveDeltaInverse(g: Game, id: string, dx: i32, dy: i32)
    requires Live(g, id) && DeltaFits(g, id, dx, dy)
    requires InI32(-(dx as int)) && InI32(-(dy as int))
    ensures var g1 := MovePlayerDelta(g, id, dx, dy);
      Live(g1, id) && DeltaFits(g1, id, -dx, -dy) && MovePlayerDelta(g1, id, -dx, -dy) == g
  {
  }
}
