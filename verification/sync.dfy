/** Applying server datagrams and local key presses to the client state.
    The client is the game state plus the log of commands sent to the
    server, in order. */
module Sync {

  import opened Wrappers
  import opened Text
  import opened Components
  import opened Protocol
  import opened Registry

  datatype Client = Client(game: Game, sent: seq<string>)

  /** The reserved identifier of the local player. */
  const Me: string := "me"

  /** The identifiers named in a roster. */
  function Ids(ps: seq<PlayerInfo>): set<string>
  {
    set k | 0 <= k < |ps| :: ps[k].id
  }

  lemma IdsSnoc(ps: seq<PlayerInfo>)
    requires |ps| > 0
    ensures Ids(ps) == Ids(ps[..|ps| - 1]) + {ps[|ps| - 1].id}
  {
  }

  /** Entry `k` is the last one in `ps` naming its identifier. */
  predicate LastOccurrence(ps: seq<PlayerInfo>, k: nat)
    requires k < |ps|
  {
    forall k' :: k < k' < |ps| ==> ps[k'].id != ps[k].id
  }

  /** Roster application: every player of the roster is created, in order,
      with no check for an existing registration. Each entry appends one
      entity; earlier entities are untouched; an identifier registered
      before or repeated in the roster ends up naming the entity of its
      last entry. */
  function ApplyRoster(g: Game, ps: seq<PlayerInfo>): (r: Game)
    ensures |r.world| == |g.world| + |ps|
    ensures r.world[..|g.world|] == g.world
    ensures Valid(g) ==> Valid(r)
    ensures Consistent(g) ==> Consistent(r)
    decreases |ps|
  {
    if |ps| == 0 then g
    else
      var init := ps[..|ps| - 1];
      var r0 := ApplyRoster(g, init);
      var r := CreatePlayer(r0, ps[|ps| - 1].id, ps[|ps| - 1].pos);
      assert r.world[..|g.world|] == r0.world[..|g.world|];
      r
  }

  /** Entry `k` of the roster becomes the player entity at `|g.world| + k`. */
  lemma {:induction false} RosterEntity(g: Game, ps: seq<PlayerInfo>, k: nat)
    requires k < |ps|
    ensures ApplyRoster(g, ps).world[|g.world| + k] == PlayerEntity(ps[k].id, ps[k].pos)
    decreases |ps|
  {
    var init := ps[..|ps| - 1];
    var last := ps[|ps| - 1];
    var r0 := ApplyRoster(g, init);
    var r := CreatePlayer(r0, last.id, last.pos);
    assert ApplyRoster(g, ps) == r;
    assert |r0.world| == |g.world| + |init|;
    assert r.world == r0.world + [PlayerEntity(last.id, last.pos)];
    if k < |init| {
      assert r.world[|g.world| + k] == r0.world[|g.world| + k];
      RosterEntity(g, init, k);
      assert init[k] == ps[k];
    } else {
      assert k == |init| && ps[k] == last;
      assert r.world[|r0.world|] == PlayerEntity(last.id, last.pos);
    }
  }

  /** The roster's identifiers are added to the registered ones. */
  lemma {:induction false} RosterKeys(g: Game, ps: seq<PlayerInfo>)
    ensures ApplyRoster(g, ps).players.Keys == g.players.Keys + Ids(ps)
    decreases |ps|
  {
    if |ps| > 0 {
      RosterKeys(g, ps[..|ps| - 1]);
      IdsSnoc(ps);
    }
  }

  /** An identifier the roster does not name keeps its entity. */
  lemma {:induction false} RosterKeepsOthers(g: Game, ps: seq<PlayerInfo>, id: string)
    requires id in g.players && id !in Ids(ps)
    ensures id in ApplyRoster(g, ps).players
    ensures ApplyRoster(g, ps).players[id] == g.players[id]
    decreases |ps|
  {
    if |ps| > 0 {
      IdsSnoc(ps);
      RosterKeepsOthers(g, ps[..|ps| - 1], id);
    }
  }

  /** An identifier the roster names, registered before or not, ends up
      naming the entity created for its last entry. */
  lemma {:induction false} RosterLastWins(g: Game, ps: seq<PlayerInfo>, k: nat)
    requires k < |ps| && LastOccurrence(ps, k)
    ensures ps[k].id in ApplyRoster(g, ps).players
    ensures ApplyRoster(g, ps).players[ps[k].id] == |g.world| + k
    decreases |ps|
  {
    var init := ps[..|ps| - 1];
    if k < |ps| - 1 {
      assert ps[k] == init[k];
      assert ps[|ps| - 1].id != ps[k].id;
      assert LastOccurrence(init, k);
      RosterLastWins(g, init, k);
    }
  }

  /** Update application: an already registered player is moved in place;
      an unregistered one is created. */
  function ApplyUpdate(g: Game, p: PlayerInfo): (r: Game)
    requires Live(g, p.id)
    ensures Live(r, p.id) && PositionOf(r, p.id) == Some(p.pos)
    ensures p.id in g.players ==> r.players == g.players && |r.world| == |g.world|
    ensures p.id in g.players ==> r.world[g.players[p.id]] == g.world[g.players[p.id]].(pos := p.pos)
    ensures p.id !in g.players ==> r.players[p.id] == |g.world| && r.world[|g.world|] == PlayerEntity(p.id, p.pos)
    ensures p.id !in g.players ==> |r.world| == |g.world| + 1 && r.players.Keys == g.players.Keys + {p.id}
    ensures forall other :: other in g.players && other != p.id ==> other in r.players && r.players[other] == g.players[other]
    ensures forall h :: 0 <= h < |g.world| && (p.id !in g.players || h != g.players[p.id]) ==> r.world[h] == g.world[h]
    ensures Valid(g) ==> Valid(r)
    ensures Consistent(g) ==> Consistent(r)
  {
    match GetPlayerEntry(g, p.id)
    case Some(_) => MovePlayer(g, p.id, p.pos.x, p.pos.y)
    case None => CreatePlayer(g, p.id, p.pos)
  }

  /** Applying the same update twice is applying it once. */
  lemma ApplyUpdateIdempotent(g: Game, p: PlayerInfo)
    requires Live(g, p.id)
    ensures ApplyUpdate(ApplyUpdate(g, p), p) == ApplyUpdate(g, p)
  {
  }

  /** An update leaves every other player where it was. */
  lemma ApplyUpdateFrame(g: Game, p: PlayerInfo, other: string)
    requires Consistent(g)
    requires other != p.id
    ensures Consistent(ApplyUpdate(g, p))
    ensures PositionOf(ApplyUpdate(g, p), other) == PositionOf(g, other)
  {
  }

  function Apply(g: Game, ev: ServerEvent): Game
    requires Valid(g)
  {
    match ev
    case Roster(ps) => ApplyRoster(g, ps)
    case Update(p) => ApplyUpdate(g, p)
    case Ignored => g
  }

  /** `process_server_data`: decode the datagram and apply it. An unknown
      op, or an update entry without three fields, changes nothing; the
      registry invariant is kept. */
  function ProcessServerData(g: Game, data: string): (r: Game)
    requires Valid(g) && Decodable(data)
    ensures Valid(r)
    ensures Consistent(g) ==> Consistent(r)
    ensures Op(data) != "c" && Op(data) != "u" ==> r == g
    ensures Op(data) == "u" && |Split(Payload(data), ',')| != 3 ==> r == g
    ensures Op(data) == "c" ==> |r.world| == |g.world| + |RosterEntries(Split(Payload(data), ';'))|
    ensures |g.world| <= |r.world|
    ensures Op(data) == "c" ==> r.world[..|g.world|] == g.world
    ensures Decode(data).Update? ==>
      Live(r, Decode(data).player.id) && PositionOf(r, Decode(data).player.id) == Some(Decode(data).player.pos)
  {
    Apply(g, Decode(data))
  }

  /** A roster naming an already registered player re-registers it: the
      player gets a new entity at the roster's position and its old entity
      is left in the world, unchanged and unnamed. */
  lemma RosterRemapsExisting(g: Game, p: PlayerInfo)
    requires Valid(g) && p.id in g.players
    ensures var r := ApplyRoster(g, [p]);
      && r.players[p.id] == |g.world| != g.players[p.id]
      && r.world[g.players[p.id]] == g.world[g.players[p.id]]
      && PositionOf(r, p.id) == Some(p.pos)
  {
  }

  /** Within one roster the last entry for an identifier decides where
      that player ends up. */
  lemma RosterLastPosition(g: Game, ps: seq<PlayerInfo>, k: nat)
    requires k < |ps| && LastOccurrence(ps, k)
    ensures var r := ApplyRoster(g, ps);
      Live(r, ps[k].id) && PositionOf(r, ps[k].id) == Some(ps[k].pos)
  {
    var r := ApplyRoster(g, ps);
    var id, h := ps[k].id, |g.world| + k;
    RosterLastWins(g, ps, k);
    RosterEntity(g, ps, k);
    assert id in r.players && r.players[id] == h < |r.world|;
    assert r.world[h].pos == ps[k].pos;
    assert GetPlayerEntry(r, id) == Some(h);
  }

  // ---------------------------------------------------------------
  // Local input

  /** The keys the client distinguishes; every other key is `Other`. */
  datatype Key = Left | Right | Up | Down | Other(code: nat)

  /** Unit step of a direction key. */
  function KeyDelta(k: Key): (int, int)
  {
    match k
    case Left => (-1, 0)
    case Right => (1, 0)
    case Up => (0, -1)
    case Down => (0, 1)
    case Other(_) => (0, 0)
  }

  /** The two-byte command sent for a direction key. */
  function KeyCommand(k: Key): string
  {
    match k
    case Left => "ml"
    case Right => "mr"
    case Up => "mu"
    case Down => "md"
    case Other(_) => ""
  }

  /** The server's reading of a move command: the unit step it stands for. */
  function CommandDelta(cmd: string): Option<(int, int)>
  {
    if cmd == "ml" then Some((-1, 0))
    else if cmd == "mr" then Some((1, 0))
    else if cmd == "mu" then Some((0, -1))
    else if cmd == "md" then Some((0, 1))
    else None
  }

  predicate IsDirection(k: Key)
  {
    !k.Other?
  }

  /** The local move of `key` does not overflow. */
  predicate InputFits(g: Game, key: Option<Key>)
  {
    Live(g, Me) &&
    (key.Some? && IsDirection(key.value) ==>
      DeltaFits(g, Me, KeyDelta(key.value).0 as i32, KeyDelta(key.value).1 as i32))
  }

  /** `player_input`: a direction key moves the local player one step and
      sends the matching command; the command is sent even when the local
      player is not registered. No key, or another key, does nothing. */
  function PlayerInput(c: Client, key: Option<Key>): (r: Client)
    requires InputFits(c.game, key)
    ensures key.None? || !IsDirection(key.value) ==> r == c
    ensures key.Some? && IsDirection(key.value) ==>
      && |r.sent| == |c.sent| + 1 && r.sent[..|c.sent|] == c.sent
      && CommandDelta(r.sent[|c.sent|]).Some?
      && r.game.players == c.game.players
      && |r.game.world| == |c.game.world|
      && (forall h :: 0 <= h < |c.game.world| && (Me !in c.game.players || h != c.game.players[Me]) ==>
            r.game.world[h] == c.game.world[h])
      && Live(r.game, Me)
      && (Me !in c.game.players ==> r.game == c.game)
      && (Me in c.game.players ==>
            var p := PositionOf(c.game, Me).value;
            var d := CommandDelta(r.sent[|c.sent|]).value;
            && PositionOf(r.game, Me).Some?
            && PositionOf(r.game, Me).value.x as int == p.x as int + d.0
            && PositionOf(r.game, Me).value.y as int == p.y as int + d.1)
    ensures Valid(c.game) ==> Valid(r.game)
    ensures Consistent(c.game) ==> Consistent(r.game)
  {
    match key
    case None => c
    case Some(k) =>
      if IsDirection(k) then
        var d := KeyDelta(k);
        Client(MovePlayerDelta(c.game, Me, d.0 as i32, d.1 as i32), c.sent + [KeyCommand(k)])
      else
        c
  }

  /** The key table of `player_input`: Left, Right, Up and Down send `ml`,
      `mr`, `mu` and `md` and move the local player by (-1, 0), (1, 0),
      (0, -1) and (0, 1). */
  lemma KeyTable(c: Client, k: Key)
    requires IsDirection(k) && InputFits(c.game, Some(k))
    ensures var r := PlayerInput(c, Some(k));
      && (k == Left ==> r.sent == c.sent + ["ml"])
      && (k == Right ==> r.sent == c.sent + ["mr"])
      && (k == Up ==> r.sent == c.sent + ["mu"])
      && (k == Down ==> r.sent == c.sent + ["md"])
    ensures Me in c.game.players ==>
      var p := PositionOf(c.game, Me).value;
      var q := PositionOf(PlayerInput(c, Some(k)).game, Me).value;
      && (k == Left ==> q.x as int == p.x as int - 1 && q.y == p.y)
      && (k == Right ==> q.x as int == p.x as int + 1 && q.y == p.y)
      && (k == Up ==> q.x == p.x && q.y as int == p.y as int - 1)
      && (k == Down ==> q.x == p.x && q.y as int == p.y as int + 1)
  {
  }

  /** The client as `run` sets it up: the background entities, then the
      local player at the origin; nothing sent yet. */
  function Boot(background: seq<Entity>): (r: Client)
    ensures Consistent(r.game) && r.sent == []
    ensures r.game.players.Keys == {Me} && r.game.players[Me] == |background|
    ensures Live(r.game, Me) && PositionOf(r.game, Me) == Some(Position(0, 0))
    ensures |r.game.world| == |background| + 1 && r.game.world[..|background|] == background
  {
    Client(CreatePlayer(Game(background, map[]), Me, Position(0, 0)), [])
  }

  /** Each of `keys`, one per frame, can be applied in turn without
      overflow. */
  predicate Runs(c: Client, keys: seq<Option<Key>>)
    decreases |keys|
  {
    |keys| == 0 || (InputFits(c.game, keys[0]) && Runs(PlayerInput(c, keys[0]), keys[1..]))
  }

  /** The client after the key samples `keys` of successive frames. */
  function RunInputs(c: Client, keys: seq<Option<Key>>): Client
    requires Runs(c, keys)
    decreases |keys|
  {
    if |keys| == 0 then c else RunInputs(PlayerInput(c, keys[0]), keys[1..])
  }

  function Presses(k: Key, n: nat): seq<Option<Key>>
  {
    seq(n, _ => Some(k))
  }

  /** `n` presses of Left from `(x, y)` lead to `(x - n, y)` and send
      `ml` exactly `n` times, in order. */
  lemma {:induction false} LeftPresses(c: Client, n: nat)
    requires Live(c.game, Me) && Me in c.game.players
    requires PositionOf(c.game, Me).value.x as int - n >= I32Min
    ensures Runs(c, Presses(Left, n))
    ensures var r := RunInputs(c, Presses(Left, n));
      var p := PositionOf(c.game, Me).value;
      && Live(r.game, Me) && Me in r.game.players
      && PositionOf(r.game, Me).Some?
      && PositionOf(r.game, Me).value.x as int == p.x as int - n
      && PositionOf(r.game, Me).value.y == p.y
      && r.sent == c.sent + seq(n, _ => "ml")
    decreases n
  {
    var p := PositionOf(c.game, Me).value;
    if n == 0 {
      assert c.sent + seq(0, _ => "ml") == c.sent;
    } else {
      var c1 := PlayerInput(c, Some(Left));
      LeftStep(c);
      var keys := Presses(Left, n);
      assert keys[0] == Some(Left) && keys[1..] == Presses(Left, n - 1);
      LeftPresses(c1, n - 1);
      RunsFirst(c, keys);
      RepeatStep(c.sent, "ml", n);
    }
  }

  /** Sending `m` once and then `n - 1` more times is sending it `n` times. */
  lemma RepeatStep(sent: seq<string>, m: string, n: nat)
    requires n > 0
    ensures sent + [m] + seq(n - 1, _ => m) == sent + seq(n, _ => m)
  {
    assert [m] + seq(n - 1, _ => m) == seq(n, _ => m);
  }

  /** Running a non-empty key list is applying its first key, then the rest. */
  lemma RunsFirst(c: Client, keys: seq<Option<Key>>)
    requires |keys| > 0 && InputFits(c.game, keys[0])
    requires Runs(PlayerInput(c, keys[0]), keys[1..])
    ensures Runs(c, keys)
    ensures RunInputs(c, keys) == RunInputs(PlayerInput(c, keys[0]), keys[1..])
  {
  }

  /** One press of Left, from a position with room to move. */
  lemma LeftStep(c: Client)
    requires Live(c.game, Me) && Me in c.game.players
    requires PositionOf(c.game, Me).value.x as int - 1 >= I32Min
    ensures InputFits(c.game, Some(Left))
    ensures var r := PlayerInput(c, Some(Left));
      var p := PositionOf(c.game, Me).value;
      && Live(r.game, Me) && Me in r.game.players
      && PositionOf(r.game, Me).Some?
      && PositionOf(r.game, Me).value.x as int == p.x as int - 1
      && PositionOf(r.game, Me).value.y == p.y
      && r.sent == c.sent + ["ml"]
  {
    assert InputFits(c.game, Some(Left));
    KeyTable(c, Left);
  }
}
