# Client state synchronisation of rust-game, in Dafny

This project models the client of a small multiplayer ASCII game. The
model covers three things:

- how the client reads the server's text datagrams;
- how it keeps its registry of player entities;
- how it turns a key press into a local move and a command to the server.

It also models placing a block of ASCII art as one entity per visible
character.

The modules:

- `Text`: the Rust string operations the client relies on, as pure functions:
  - `str::split` on one character;
  - `str::lines`;
  - `i32::from_str`.

  It also holds the joining and formatting functions that invert them.
- `Components`: the components an entity carries:
  - a position with `i32` coordinates;
  - a renderable glyph with colours;
  - an optional player tag;
  - an `Ignore` marker.
- `Protocol`: the wire format. It provides:
  - `get_player_info` on one `<id>,<x>,<y>` entry;
  - the decoding of `<op>:<payload>` into a roster (`c`), an update (`u`) or nothing.

  Encoders for the same grammar are included as the decoder's inverse.
- `Registry`: the entity world and the identifier → entity map. It covers `create_player`, `get_player_entry`, `move_player` and `move_player_delta`.

  The world is a sequence of entities and an entity's handle is its index. Entities are never removed, so handles are stable. Two invariants are defined:
  - `Valid`: every mapped handle is live.
  - `Consistent`: `Valid`, and each mapped entity is tagged with its own identifier.
- `Ascii`: `render_glyph` and `draw_ascii`.
- `Sync`:
  - `process_server_data`;
  - `player_input`, where the client state is the game plus the log of commands sent;
  - the initial state built by `run`.
- `Scenarios`: concrete datagrams and key sequences, proved for every starting state.

`src/player.rs` repeats the registry and input functions of `src/utils.rs`
and `src/game.rs` verbatim (`create_player` 8-20, `get_player_info` 22-36,
`get_player_entry` 38-45, `move_player` 47-52, `move_player_delta` 54-62,
`player_input` 64-89). The same members model both copies.

The model follows the code, including where its behaviour is not the
obvious reading of the protocol:

- A roster (`c`) entry is applied with no existence check (`src/game.rs:51-55`). It is not create-only. An identifier that was already registered gets a new entity at the roster's position. Its old entity stays in the world, unchanged and no longer named (`RosterRemapsExisting`).
- An entry with three fields and a non-integer coordinate is not dropped. The `parse().unwrap()` calls panic (`src/utils.rs:106-107`). A panic is modelled as a precondition, so such entries are excluded by `EntryParses` and `Decodable`.
- A datagram without `:` panics at `strings[1]` (`src/game.rs:46`). It is likewise excluded by `Decodable`.

## Model

| member | source | states |
|---|---|---|
| Text.Split | src/utils.rs:99 | `split` always yields at least one piece, and no piece contains the separator |
| Text.SplitCount | src/utils.rs:99-101 | the number of pieces is the number of separators plus one; this is what the field count test of `get_player_info` observes |
| Text.JoinSplit | src/game.rs:45 | joining the pieces of a split with the separator restores the text, so splitting loses nothing |
| Text.SplitJoin | src/game.rs:50 | splitting a join of separator-free parts gives back exactly those parts |
| Text.SplitCons | src/game.rs:45-46 | splitting `a + sep + b` with separator-free `a` yields `a` as the first piece, followed by the pieces of `b` |
| Text.SplitFirstIsPrefix | src/utils.rs:103 | the first piece is a prefix of the text that ends at a separator or at the end of the text, i.e. it is the text before the first separator |
| Text.Lines | src/utils.rs:36 | no line produced by `lines` contains a line feed |
| Text.LinesOfTerminated | src/utils.rs:36 | text written as lines each followed by `\n` splits back into exactly those lines (no empty trailing line), when no line ends in `\r`; the empty text has no lines |
| Text.FormatNat | src/utils.rs:106-107 | the decimal spelling of a natural number is non-empty and all digits |
| Text.ParseFormatInt | src/utils.rs:106-107 | parsing the decimal spelling of an integer is accepted and returns that integer; the spelling holds no `,`, `;` or `:` |
| Protocol.GetPlayerInfo | src/utils.rs:98-112 | an entry is a player exactly when it has three comma-separated fields; the identifier is the comma-free prefix of the entry that is followed by a comma, i.e. the text before the first comma; the coordinates are the values of the second and third fields |
| Protocol.PlayerIffTwoCommas | src/utils.rs:99-101 | an entry is a player exactly when it holds exactly two commas |
| Protocol.RosterEntries | src/game.rs:50-55 | a roster yields at most one player per entry |
| Protocol.RosterEntriesMembers | src/game.rs:50-55 | a player is in the roster exactly when some entry reads as that player, so entries without three fields contribute nothing |
| Protocol.RosterEntriesAppend | src/game.rs:51-55 | roster entries are read independently: the players of concatenated entry lists are the concatenated players |
| Protocol.Decode | src/game.rs:44-70 | a datagram is a roster exactly when its op is `c` and an update exactly when its op is `u` and its payload has three fields; the update's player is the payload's entry, the roster's players are its entries' players |
| Protocol.EntryRoundTrip | src/utils.rs:98-112 | an entry written from a player whose identifier has no comma is read back as that player |
| Protocol.OpPayloadPlacement | src/game.rs:45-46 | the op is the `:`-free text before the first `:`; the payload is the `:`-free text after it, ending at the next `:` or the end of the datagram |
| Protocol.SplitDatagram | src/game.rs:45-46 | for a `:`-free op and payload, `op:payload` has op `op` and payload `payload` |
| Protocol.RosterEntriesOfEncoded | src/game.rs:50-55 | the entries written for a list of players with clean identifiers hold no `;` or `:` and are read back as the same list |
| Protocol.DecodeEncodeUpdate | src/game.rs:58-59 | an encoded update decodes to the same update |
| Protocol.DecodeRosterPayload | src/game.rs:45-50 | a `c:` datagram with a `:`-free payload is a roster of the players of the payload's `;`-separated entries |
| Protocol.DecodeRosterText | src/game.rs:45-55 | a `c:` datagram built from non-empty `;`- and `:`-free entries decodes to the players of those entries |
| Protocol.DecodeEncodeRoster | src/game.rs:44-56 | an encoded roster decodes to the same players in the same order, the empty roster included |
| Registry.CreatePlayer | src/utils.rs:84-96 | one new entity is appended, with the given position, a white-on-black `@` and the player tag. The identifier now maps to it, whether or not it was mapped before. Every other entity and mapping is unchanged, and both invariants are kept |
| Registry.CreateOrphansOld | src/utils.rs:95 | creating an already registered player leaves its old entity in the world, unchanged, and no longer named |
| Registry.GetPlayerEntry | src/utils.rs:114-121 | the lookup gives `None` exactly for an unregistered identifier; otherwise exactly the handle the map holds for it, which is live and, in a consistent state, names an entity tagged with that identifier |
| Registry.MovePlayer | src/utils.rs:123-128 | a registered player ends at `(x, y)` with look and tags kept; an unregistered identifier changes nothing; the mapping and every other entity are unchanged |
| Registry.MovePlayerIdempotent | src/utils.rs:123-128 | moving to the same place twice is moving there once |
| Registry.MovePlayerFrame | src/utils.rs:123-128 | in a consistent state, moving one player leaves every other player's position unchanged |
| Registry.MovePlayerDelta | src/utils.rs:130-138 | a registered player moves by exactly `(dx, dy)`, unclamped; an unregistered identifier changes nothing; nothing else changes |
| Registry.MoveDeltaIsMove | src/utils.rs:130-138 | a relative move equals the absolute move to the shifted position |
| Registry.MoveDeltaInverse | src/utils.rs:130-138 | moving by a delta and then by its opposite restores the state |
| Registry.ExtendWorld | src/utils.rs:24-31 | appending entities without touching the identifier map keeps both invariants |
| Ascii.RenderGlyph | src/utils.rs:22-33 | a space adds nothing; any other character appends one untagged entity at `(x, y)` showing it in the given foreground and background colours, keeping all existing entities |
| Ascii.RenderGlyphCount | src/utils.rs:22-33 | rendering one character adds exactly as many entities as it has visible characters (one, or none for a space) |
| Ascii.GlyphAt | src/utils.rs:37-46 | column `j` of line `i` is drawn white on black at `(j + x_offset, i + y_offset)` |
| Ascii.LineStep | src/utils.rs:37-46 | rendering one column keeps every appended entity a glyph of the art and adds the column's glyph when it is visible |
| Ascii.DrawLine | src/utils.rs:37-47 | one line appends exactly its visible characters, each the glyph of its column, and nothing else |
| Ascii.CoverStep | src/utils.rs:36-48 | after one more line is drawn, the glyph of every visible character of the lines so far has been appended |
| Ascii.DrawLines | src/utils.rs:36-48 | the lines append exactly one entity per visible character, and every appended entity is the glyph of a visible character at its offset position |
| Ascii.DrawAscii | src/utils.rs:35-49 | the art appends exactly one entity per visible character, every appended entity is the glyph of a visible character at its offset position, and the registry is untouched |
| Sync.ApplyRoster | src/game.rs:49-55 | a roster appends exactly one entity per entry; earlier entities are unchanged; both invariants are kept |
| Sync.RosterEntity | src/game.rs:51-54 | entry `k` of the roster becomes a white-on-black `@` entity at index `k` after the old world, at the entry's position and tagged with its identifier |
| Sync.RosterKeys | src/game.rs:51-54 | after a roster the registered identifiers are the old ones plus the roster's |
| Sync.RosterKeepsOthers | src/game.rs:51-54 | an identifier the roster does not name keeps its entity |
| Sync.RosterLastWins | src/game.rs:51-54 | an identifier named in the roster ends up mapped to the entity of its last entry |
| Sync.RosterLastPosition | src/game.rs:51-54 | the last roster entry for an identifier decides where that player is |
| Sync.RosterRemapsExisting | src/game.rs:51-54 | a roster entry for a registered player gives it a new entity at the roster position and leaves the old entity unnamed and unchanged (no existence check) |
| Sync.ApplyUpdate | src/game.rs:58-66 | after an update the player is at the update's position. A registered player is moved in place with no new entity: only the position of its entity changes, its look and tags are kept. An unregistered one gets one new entity, the white-on-black `@` player entity at that position, and its identifier maps to it. Every other identifier keeps its entity, other entities are unchanged and both invariants are kept |
| Sync.ApplyUpdateIdempotent | src/game.rs:58-66 | applying the same update twice is applying it once |
| Sync.ApplyUpdateFrame | src/game.rs:58-66 | in a consistent state, an update leaves every other player's position unchanged |
| Sync.ProcessServerData | src/game.rs:44-70 | both invariants are kept. An unknown op, or an update entry without three fields, changes nothing. A roster appends one entity per well-formed entry and keeps the old ones. The world never shrinks. A decoded update puts its player at its position |
| Sync.PlayerInput | src/game.rs:72-97 | no key or a non-direction key changes nothing. A direction key sends exactly one command, whose meaning as a move equals the step applied to the local player; the world keeps its length and every entity other than the local player's is unchanged. The command is sent even when the local player is not registered, in which case the game is unchanged |
| Sync.KeyTable | src/game.rs:75-96 | Left, Right, Up and Down send `ml`, `mr`, `mu` and `md` respectively, and move a registered local player by (-1, 0), (1, 0), (0, -1) and (0, 1) |
| Sync.Boot | src/game.rs:99-117 | the initial state is consistent, has sent nothing, registers only the local player `me`, at `(0, 0)`, on the entity appended right after the background entities |
| Sync.LeftPresses | src/game.rs:78-81 | `n` presses of Left move the local player from `(x, y)` to `(x - n, y)` and send `ml` exactly `n` times, in order |
| Scenarios.MalformedEntrySkipped | src/game.rs:49-55 | `c:bad,1;x,2,3` decodes to a roster holding only `x` at `(2, 3)` |
| Scenarios.TwoFieldEntry | src/utils.rs:98-112 | `bad,1` is no player, and reading it does not panic |
| Scenarios.XEntry | src/utils.rs:98-112 | `x,2,3` is the player `x` at `(2, 3)` |
| Scenarios.MalformedEntryApplied | src/game.rs:49-55 | processing `c:bad,1;x,2,3` creates exactly one entity, player `x` at `(2, 3)` |
| Scenarios.UnknownOpIgnored | src/game.rs:68 | a datagram with an unknown op leaves the state unchanged |
| Scenarios.AliceBobRoster | src/game.rs:49-55 | `c:alice,5,5;bob,2,9` decodes to alice at `(5, 5)` then bob at `(2, 9)` |
| Scenarios.AliceUpdate | src/game.rs:58-59 | `u:alice,6,5` decodes to an update of alice to `(6, 5)` |
| Scenarios.AliceBobRegistered | src/game.rs:49-55 | processing that roster maps alice and bob to two new entities at their positions |
| Scenarios.RosterThenUpdate | src/game.rs:44-70 | after the roster, the update moves alice to `(6, 5)` in place and leaves bob at `(2, 9)` |
| Scenarios.FourLefts | src/game.rs:72-117 | from the initial state, four Left presses put the local player at `(-4, 0)` and send `ml` four times |

## Left out

- Transport (`src/net.rs`, `src/main.rs`): the UDP socket, the non-blocking read and the `connect` greeting are not modelled. A sent command is appended to the client's `sent` log, which stands for the socket.
- The frame loop (`State::tick` in `src/structs.rs`) is not modelled: screen clearing, the render query, change-detection (dirty) markers and the `Ignore` filter. The model only keeps the `ignore` flag on entities.
- Colour blending (`rgba_to_rgb`, `apply_opacity`, `Renderable::transparentize`) is floating-point arithmetic; colours are opaque values here.
- `generate_stars` draws from a random number generator and a noise function. The star entities are a parameter (`background`) of `Boot`.
- `State::new` is not modelled; `Boot` models the state built by `run`.
- Sync.ProcessServerData: requires `Decodable`, because a datagram without `:` or an entry with an unparsable coordinate panics in the code. Such inputs are excluded rather than given a behaviour.
- Protocol.GetPlayerInfo: requires `EntryParses`, because a three-field entry whose second or third field is not an `i32` panics at `unwrap`.
- Registry.MovePlayerDelta: requires `DeltaFits`, because the `i32` addition panics on overflow in a debug build; release-build wrap-around is not modelled.
- Sync.PlayerInput: requires `InputFits`, for the same `i32` overflow reason; the local player's handle must also be live, as the lookup's `unwrap` demands.
- Ascii.DrawAscii: requires `Fits`, so that `j as i32 + x_offset` and `i as i32 + y_offset` neither wrap nor overflow.
- Registry.GetPlayerEntry: returns the entity's handle rather than a legion `Entry`; the `unwrap` on a dead handle is excluded by `Live`.
