/** Placing a block of ASCII art in the world, one entity per visible
    character (`render_glyph` and `draw_ascii`). */
module Ascii {

  import opened Wrappers
  import opened Text
  import opened Components
  import opened Registry

  /** A decoration entity: no player tag, not ignored. */
  function Glyph(c: char, x: i32, y: i32, fg: Color, bg: Color): Entity
  {
    Entity(Position(x, y), Renderable(c, fg, bg), None, false)
  }

  /** `render_glyph`: a space draws nothing; any other character becomes
      one new untagged entity at `(x, y)`, in the given colours, after all
      existing ones. */
  function RenderGlyph(world: seq<Entity>, c: char, x: i32, y: i32, fg: Color, bg: Color): (r: seq<Entity>)
    ensures c == ' ' ==> r == world
    ensures c != ' ' ==> |r| == |world| + 1 && r[..|world|] == world
    ensures c != ' ' ==> r[|world|].pos == Position(x, y) && r[|world|].look == Renderable(c, fg, bg)
    ensures c != ' ' ==> r[|world|].player == None && !r[|world|].ignore
  {
    if c != ' ' then world + [Glyph(c, x, y, fg, bg)] else world
  }

  /** Rendering one character adds as many entities as the character has
      visible characters: one, or none for a space. */
  lemma RenderGlyphCount(world: seq<Entity>, c: char, x: i32, y: i32, fg: Color, bg: Color)
    ensures |RenderGlyph(world, c, x, y, fg, bg)| == |world| + Visible([c])
  {
    assert [c][1..] == [];
    assert Count([c], ' ') == (if c == ' ' then 1 else 0) + Count([], ' ');
  }

  /** Every column `j + xo` and row `i + yo` of the art is an `i32`, and so
      is every index (`j as i32` and `i as i32` do not wrap). */
  predicate Fits(ls: seq<string>, xo: i32, yo: i32)
  {
    && |ls| - 1 <= I32Max && yo as int + |ls| - 1 <= I32Max
    && forall i :: 0 <= i < |ls| ==> |ls[i]| - 1 <= I32Max && xo as int + |ls[i]| - 1 <= I32Max
  }

  /** Visible characters of one line. */
  function Visible(line: string): nat
  {
    CountBound(line, ' ');
    |line| - Count(line, ' ')
  }

  /** Visible characters of all lines. */
  function VisibleAll(ls: seq<string>): nat
  {
    if |ls| == 0 then 0 else VisibleAll(ls[..|ls| - 1]) + Visible(ls[|ls| - 1])
  }

  /** The entity drawn for column `j` of line `i`. */
  function GlyphAt(ls: seq<string>, i: nat, j: nat, xo: i32, yo: i32): (e: Entity)
    requires Fits(ls, xo, yo) && i < |ls| && j < |ls[i]|
    ensures e.pos.x as int == j + xo as int && e.pos.y as int == i + yo as int
    ensures e.look == Renderable(ls[i][j], White, Black) && e.player == None && !e.ignore
  {
    Glyph(ls[i][j], (j + xo as int) as i32, (i + yo as int) as i32, White, Black)
  }

  /** `e` is the glyph of a visible character of the art. */
  predicate PlacedFrom(ls: seq<string>, e: Entity, xo: i32, yo: i32)
    requires Fits(ls, xo, yo)
  {
    exists i: nat, j: nat :: i < |ls| && j < |ls[i]| && ls[i][j] != ' ' && e == GlyphAt(ls, i, j, xo, yo)
  }

  /** Rendering column `j` of line `i` after `before` keeps every entity
      after `start` a glyph of the art, and adds the glyph of column `j` when
      it is visible. */
  lemma LineStep(ls: seq<string>, i: nat, j: nat, start: nat, before: seq<Entity>, w: seq<Entity>, xo: i32, yo: i32)
    requires Fits(ls, xo, yo) && i < |ls| && j < |ls[i]| && start <= |before|
    requires w == if ls[i][j] != ' ' then before + [GlyphAt(ls, i, j, xo, yo)] else before
    requires forall k :: start <= k < |before| ==> PlacedFrom(ls, before[k], xo, yo)
    requires forall j': nat :: j' < j && ls[i][j'] != ' ' ==> GlyphAt(ls, i, j', xo, yo) in before[start..]
    ensures forall k :: start <= k < |w| ==> PlacedFrom(ls, w[k], xo, yo)
    ensures forall j': nat :: j' < j + 1 && ls[i][j'] != ' ' ==> GlyphAt(ls, i, j', xo, yo) in w[start..]
  {
    if ls[i][j] != ' ' {
      var e := GlyphAt(ls, i, j, xo, yo);
      assert w[start..] == before[start..] + [e];
      assert PlacedFrom(ls, e, xo, yo);
      forall k | start <= k < |w| ensures PlacedFrom(ls, w[k], xo, yo) {
        if k < |before| {
          assert w[k] == before[k];
        }
      }
    }
  }

  /** The inner loop of `draw_ascii`: the visible characters of line `i`,
      left to right. */
  method DrawLine(world: seq<Entity>, ls: seq<string>, i: nat, xo: i32, yo: i32) returns (w: seq<Entity>)
    requires Fits(ls, xo, yo) && i < |ls|
    ensures |w| == |world| + Visible(ls[i])
    ensures w[..|world|] == world
    ensures forall k :: |world| <= k < |w| ==> PlacedFrom(ls, w[k], xo, yo)
    ensures forall j: nat :: j < |ls[i]| && ls[i][j] != ' ' ==> GlyphAt(ls, i, j, xo, yo) in w[|world|..]
  {
    var line := ls[i];
    w := world;
    var j := 0;
    while j < |line|
      invariant 0 <= j <= |line|
      invariant Count(line[..j], ' ') <= j
      invariant |w| == |world| + (j - Count(line[..j], ' '))
      invariant w[..|world|] == world
      invariant forall k :: |world| <= k < |w| ==> PlacedFrom(ls, w[k], xo, yo)
      invariant forall j': nat :: j' < j && line[j'] != ' ' ==> GlyphAt(ls, i, j', xo, yo) in w[|world|..]
    {
      var before := w;
      w := RenderGlyph(w, line[j], (j + xo as int) as i32, (i + yo as int) as i32, White, Black);
      LineStep(ls, i, j, |world|, before, w, xo, yo);
      CountSnoc(line, j, ' ');
      j := j + 1;
    }
    assert line[..|line|] == line;
  }

  /** Appending glyphs of the art keeps every entity after `base` a glyph
      of the art. */
  lemma PlacedExtend(ls: seq<string>, before: seq<Entity>, world: seq<Entity>, base: nat, xo: i32, yo: i32)
    requires Fits(ls, xo, yo)
    requires base <= |before| <= |world| && world[..|before|] == before
    requires forall k :: base <= k < |before| ==> PlacedFrom(ls, before[k], xo, yo)
    requires forall k :: |before| <= k < |world| ==> PlacedFrom(ls, world[k], xo, yo)
    ensures forall k :: base <= k < |world| ==> PlacedFrom(ls, world[k], xo, yo)
  {
    forall k | base <= k < |world| ensures PlacedFrom(ls, world[k], xo, yo) {
      if k < |before| {
        assert world[k] == before[k];
      }
    }
  }

  /** An entity after `base` in a prefix of `world` is after `base` in `world`. */
  lemma InExtension(before: seq<Entity>, world: seq<Entity>, base: nat, e: Entity)
    requires base <= |before| <= |world| && world[..|before|] == before
    requires e in before[base..]
    ensures e in world[base..]
  {
    var k :| 0 <= k < |before[base..]| && before[base..][k] == e;
    assert world[base..][k] == e;
  }

  /** An entity after `mid` in `world` is after any earlier `base`. */
  lemma InLaterSuffix(world: seq<Entity>, base: nat, mid: nat, e: Entity)
    requires base <= mid <= |world|
    requires e in world[mid..]
    ensures e in world[base..]
  {
    var k :| 0 <= k < |world[mid..]| && world[mid..][k] == e;
    assert world[base..][k + mid - base] == e;
  }

  /** After drawing line `i` into `world`, every visible character of lines
      `0..i` has its glyph after `base`. */
  lemma CoverStep(ls: seq<string>, before: seq<Entity>, world: seq<Entity>, base: nat, i: nat, xo: i32, yo: i32)
    requires Fits(ls, xo, yo) && i < |ls|
    requires base <= |before| <= |world| && world[..|before|] == before
    requires forall i': nat, j: nat :: i' < i && j < |ls[i']| && ls[i'][j] != ' ' ==>
      GlyphAt(ls, i', j, xo, yo) in before[base..]
    requires forall j: nat :: j < |ls[i]| && ls[i][j] != ' ' ==> GlyphAt(ls, i, j, xo, yo) in world[|before|..]
    ensures forall i': nat, j: nat :: i' < i + 1 && j < |ls[i']| && ls[i'][j] != ' ' ==>
      GlyphAt(ls, i', j, xo, yo) in world[base..]
  {
    forall i': nat, j: nat | i' < i + 1 && j < |ls[i']| && ls[i'][j] != ' '
      ensures GlyphAt(ls, i', j, xo, yo) in world[base..]
    {
      var e := GlyphAt(ls, i', j, xo, yo);
      if i' < i {
        InExtension(before, world, base, e);
      } else {
        InLaterSuffix(world, base, |before|, e);
      }
    }
  }

  /** The outer loop of `draw_ascii` over the lines `ls`: exactly one entity
      is appended per visible character, and every appended entity is the
      glyph of one. */
  method DrawLines(world0: seq<Entity>, ls: seq<string>, xo: i32, yo: i32) returns (world: seq<Entity>)
    requires Fits(ls, xo, yo)
    ensures |world| == |world0| + VisibleAll(ls)
    ensures world[..|world0|] == world0
    ensures forall k :: |world0| <= k < |world| ==> PlacedFrom(ls, world[k], xo, yo)
    ensures forall i: nat, j: nat :: i < |ls| && j < |ls[i]| && ls[i][j] != ' ' ==>
      GlyphAt(ls, i, j, xo, yo) in world[|world0|..]
  {
    world := world0;
    var base := |world0|;
    var i := 0;
    while i < |ls|
      invariant 0 <= i <= |ls|
      invariant |world| == base + VisibleAll(ls[..i])
      invariant world[..base] == world0
      invariant forall k :: base <= k < |world| ==> PlacedFrom(ls, world[k], xo, yo)
      invariant forall i': nat, j: nat :: i' < i && j < |ls[i']| && ls[i'][j] != ' ' ==>
        GlyphAt(ls, i', j, xo, yo) in world[base..]
    {
      var before := world;
      world := DrawLine(world, ls, i, xo, yo);
      PlacedExtend(ls, before, world, base, xo, yo);
      CoverStep(ls, before, world, base, i, xo, yo);
      assert world[..base] == before[..base];
      assert ls[..i + 1][..i] == ls[..i];
      i := i + 1;
    }
    assert ls[..|ls|] == ls;
  }

  /** `draw_ascii`: for line `i` and column `j` of the art, a visible
      character becomes an entity at `(j + xo, i + yo)`; spaces produce
      none. Exactly one entity is appended per visible character, every
      appended entity comes from one, and the registry is untouched. */
  method DrawAscii(g: Game, ascii: string, xo: i32, yo: i32) returns (r: Game)
    requires Fits(Lines(ascii), xo, yo)
    ensures r.players == g.players
    ensures |r.world| == |g.world| + VisibleAll(Lines(ascii))
    ensures r.world[..|g.world|] == g.world
    ensures forall k :: |g.world| <= k < |r.world| ==> PlacedFrom(Lines(ascii), r.world[k], xo, yo)
    ensures forall i: nat, j: nat :: i < |Lines(ascii)| && j < |Lines(ascii)[i]| && Lines(ascii)[i][j] != ' ' ==>
      GlyphAt(Lines(ascii), i, j, xo, yo) in r.world[|g.world|..]
    ensures Valid(g) ==> Valid(r)
    ensures Consistent(g) ==> Consistent(r)
  {
    var world := DrawLines(g.world, Lines(ascii), xo, yo);
    r := Game(world, g.players);
    ExtendWorld(g, r);
  }
}
