/** The entity components of the game world: a grid position, how an entity
    is drawn, and the optional player tag carrying the remote identifier. */
module Components {

  import opened Wrappers

  const I32Min: int := -0x8000_0000
  const I32Max: int := 0x7fff_ffff

  predicate InI32(n: int)
  {
    I32Min <= n <= I32Max
  }

  /** Rust's `i32`: every arithmetic result assigned to one must be shown
      to stay in range (an overflow panics in a debug build). */
  newtype i32 = n: int | -0x8000_0000 <= n < 0x8000_0000

  /** A grid cell. Nothing keeps it inside the drawn grid. */
  datatype Position = Position(x: i32, y: i32)

  /** Colours only flow from creation to the renderer here, so they are
      kept opaque: the two named colours and the blended star colours,
      whose floating-point value is not modelled. */
  datatype Color = White | Black | Blended(code: nat)

  datatype Renderable = Renderable(glyph: char, fg: Color, bg: Color)

  /** One entity of the world: its position and look, the player tag
      (`Some(id)` for an entity created for player `id`) and whether it
      carries the `Ignore` marker that keeps it out of rendering. */
  datatype Entity = Entity(pos: Position, look: Renderable, player: Option<string>, ignore: bool)
}
