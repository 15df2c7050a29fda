/** Drawing a screen: two sprites for each marked cell, and the picture they leave. */
module Framebuffer {
  import opened Bits
  import opened TtyScreen

  datatype Sprite = Sprite(x: nat, y: nat, display: nat, texture: nat)

  /** The texture last drawn at each tile of 8 by 8 pixels. */
  type Picture = map<(nat, nat), nat>

  function Draw(p: Picture, current: nat, s: Sprite): Picture {
    if s.texture > 0 && s.display == current then p[(s.x, s.y) := s.texture] else p
  }

  function DrawAll(p: Picture, current: nat, ss: seq<Sprite>): Picture {
    if ss == [] then p else Draw(DrawAll(p, current, ss[..|ss| - 1]), current, ss[|ss| - 1])
  }

  class Video {
    var current: nat
    var picture: Picture

    /** The first display is current and nothing is drawn. */
    constructor ()
      ensures current == 0 && picture == map[]
    {
      current, picture := 0, map[];
    }

    /** fb_write of display information. */
    method SetCurrent(d: nat)
      modifies this
      ensures current == d && picture == old(picture)
    {
      if current != d {
        current := d;
      }
    }

    /** fb_write of sprites. */
    method WriteSprites(ss: seq<Sprite>)
      modifies this
      ensures current == old(current) && picture == DrawAll(old(picture), current, ss)
    {
      for i := 0 to |ss|
        invariant current == old(current) && picture == DrawAll(old(picture), current, ss[..i])
      {
        assert ss[..i + 1][..i] == ss[..i];
        var sp := ss[i];
        if sp.texture > 0 && sp.display == current {
          picture := picture[(sp.x, sp.y) := sp.texture];
        }
      }
      assert ss[..|ss|] == ss;
    }
  }

  // ---------------------------------------------------------------- cells as tiles

  function UpperTile(c: nat, i: nat): (nat, nat)
    requires c > 0
  {
    (i % c * 8, i / c * 16)
  }

  function LowerTile(c: nat, i: nat): (nat, nat)
    requires c > 0
  {
    (i % c * 8, i / c * 16 + 8)
  }

  /** The picture shows character ch at cell i. */
  predicate Shows(p: Picture, c: nat, i: nat, ch: Byte)
    requires c > 0
  {
    && UpperTile(c, i) in p && p[UpperTile(c, i)] == ch * 2 + 1
    && LowerTile(c, i) in p && p[LowerTile(c, i)] == ch * 2 + 2
  }

  lemma TilesApart(c: nat, i: nat, j: nat)
    requires c > 0
    ensures UpperTile(c, i) != LowerTile(c, j)
    ensures UpperTile(c, i) == UpperTile(c, j) || LowerTile(c, i) == LowerTile(c, j) ==> i == j
  {
    assert i == i / c * c + i % c && j == j / c * c + j % c;
    assert i / c * 16 != j / c * 16 + 8;
  }

  /** The sprites for the marked ones of the first k cells. */
  function SpritesOf(c: nat, d: nat, v: View, show: bool, k: nat): seq<Sprite>
    requires c > 0 && k <= |v.cells| == |v.dirty|
  {
    if k == 0 then []
    else
      var cell := if v.dirty[k - 1] then CellSprites(c, d, k - 1, Glyph(v, k - 1, show)) else [];
      SpritesOf(c, d, v, show, k - 1) + cell
  }

  function CellSprites(c: nat, d: nat, i: nat, ch: Byte): seq<Sprite>
    requires c > 0
  {
    [Sprite(UpperTile(c, i).0, UpperTile(c, i).1, d, ch * 2 + 1),
     Sprite(LowerTile(c, i).0, LowerTile(c, i).1, d, ch * 2 + 2)]
  }

  /** The picture shows every cell that is not marked. */
  ghost predicate ShowsClean(p: Picture, c: nat, v: View, show: bool)
    requires c > 0 && |v.cells| == |v.dirty|
  {
    forall i :: 0 <= i < |v.cells| && !v.dirty[i] ==> Shows(p, c, i, Glyph(v, i, show))
  }

  ghost predicate ShowsAll(p: Picture, c: nat, v: View, show: bool)
    requires c > 0
  {
    forall i :: 0 <= i < |v.cells| ==> Shows(p, c, i, Glyph(v, i, show))
  }

  /** The tiles and textures of a cell. */
  lemma ShowsMeans(p: Picture, c: nat, i: nat, ch: Byte)
    requires c > 0
    ensures Shows(p, c, i, ch) <==>
      var x, y := i % c * 8, i / c * 16;
      && (x, y) in p && p[(x, y)] == ch * 2 + 1 && (x, y + 8) in p && p[(x, y + 8)] == ch * 2 + 2
  {
    assert UpperTile(c, i) == (i % c * 8, i / c * 16) && LowerTile(c, i) == (i % c * 8, i / c * 16 + 8);
  }

  /** Text in the cells before the cursor appears in a complete picture, character by character. */
  lemma TextInPicture(p: Picture, c: nat, v: View, show: bool, text: seq<Byte>)
    requires c > 0 && ShowsAll(p, c, v, show) && v.cursor >= |text| && |v.cells| >= |text| && v.cells[..|text|] == text
    ensures forall i :: 0 <= i < |text| ==>
      var ch: nat := text[i];
      var x, y := i % c * 8, i / c * 16;
      && (x, y) in p && p[(x, y)] == ch * 2 + 1 && (x, y + 8) in p && p[(x, y + 8)] == ch * 2 + 2
  {
    forall i | 0 <= i < |text| ensures
      var ch: nat := text[i];
      var x, y := i % c * 8, i / c * 16;
      && (x, y) in p && p[(x, y)] == ch * 2 + 1 && (x, y + 8) in p && p[(x, y + 8)] == ch * 2 + 2
    {
      assert v.cells[..|text|][i] == text[i] && Shows(p, c, i, Glyph(v, i, show));
      ShowsMeans(p, c, i, text[i]);
    }
  }

  lemma SettledShows(p: Picture, c: nat, v: View, v': View, show: bool)
    requires c > 0 && Settled(v, v') && ShowsClean(p, c, v, show)
    ensures ShowsClean(p, c, v', show)
  {
  }

  lemma DrawAppend(p: Picture, d: nat, a: seq<Sprite>, s: Sprite)
    ensures DrawAll(p, d, a + [s]) == Draw(DrawAll(p, d, a), d, s)
  {
    assert (a + [s])[..|a|] == a;
  }

  lemma DrawCell(p: Picture, c: nat, d: nat, a: seq<Sprite>, i: nat, ch: Byte)
    requires c > 0
    ensures DrawAll(p, d, a + CellSprites(c, d, i, ch)) ==
      DrawAll(p, d, a)[UpperTile(c, i) := ch * 2 + 1][LowerTile(c, i) := ch * 2 + 2]
  {
    var ss := CellSprites(c, d, i, ch);
    assert a + ss == a + [ss[0]] + [ss[1]];
    DrawAppend(p, d, a + [ss[0]], ss[1]);
    DrawAppend(p, d, a, ss[0]);
  }

  /** Drawing the marked cells among the first k adds just those to the picture. */
  lemma {:induction false} DrawnSoFar(p: Picture, c: nat, d: nat, v: View, show: bool, k: nat, i: nat)
    requires c > 0 && k <= |v.cells| == |v.dirty| && i < |v.cells|
    requires (i >= k || !v.dirty[i]) ==> Shows(p, c, i, Glyph(v, i, show))
    ensures Shows(DrawAll(p, d, SpritesOf(c, d, v, show, k)), c, i, Glyph(v, i, show))
  {
    if k > 0 {
      var before := SpritesOf(c, d, v, show, k - 1);
      if v.dirty[k - 1] {
        DrawCell(p, c, d, before, k - 1, Glyph(v, k - 1, show));
        TilesApart(c, i, k - 1);
        TilesApart(c, k - 1, i);
        TilesApart(c, i, i);
      } else {
        assert SpritesOf(c, d, v, show, k) == before;
      }
      if i != k - 1 || !v.dirty[i] { DrawnSoFar(p, c, d, v, show, k - 1, i); }
    }
  }

  /** Drawing the marked cells completes a picture that was right elsewhere. */
  lemma RenderCompletes(p: Picture, c: nat, d: nat, v: View, show: bool)
    requires c > 0 && |v.cells| == |v.dirty| && ShowsClean(p, c, v, show)
    ensures ShowsAll(DrawAll(p, d, SpritesOf(c, d, v, show, |v.cells|)), c, v, show)
  {
    forall i | 0 <= i < |v.cells|
      ensures Shows(DrawAll(p, d, SpritesOf(c, d, v, show, |v.cells|)), c, i, Glyph(v, i, show))
    {
      DrawnSoFar(p, c, d, v, show, |v.cells|, i);
    }
  }

  /** Drawing one cell leaves another as it appears. */
  lemma DrawOther(p: Picture, c: nat, d: nat, a: seq<Sprite>, j: nat, ch': Byte, i: nat, ch: Byte)
    requires c > 0 && i != j
    ensures Shows(DrawAll(p, d, a + CellSprites(c, d, j, ch')), c, i, ch) <==> Shows(DrawAll(p, d, a), c, i, ch)
  {
    DrawCell(p, c, d, a, j, ch');
    TilesApart(c, i, j);
    TilesApart(c, j, i);
  }

  /** Drawing leaves the clean cells as they appear. */
  lemma {:induction false} CleanUntouched(p: Picture, c: nat, d: nat, v: View, show: bool, k: nat, i: nat, ch: Byte)
    requires c > 0 && k <= |v.cells| == |v.dirty| && i < |v.cells| && (i >= k || !v.dirty[i])
    ensures Shows(DrawAll(p, d, SpritesOf(c, d, v, show, k)), c, i, ch) <==> Shows(p, c, i, ch)
  {
    if k > 0 {
      var before := SpritesOf(c, d, v, show, k - 1);
      if v.dirty[k - 1] {
        DrawOther(p, c, d, before, k - 1, Glyph(v, k - 1, show), i, ch);
      } else {
        assert SpritesOf(c, d, v, show, k) == before;
      }
      CleanUntouched(p, c, d, v, show, k - 1, i, ch);
    }
  }

  /** A render makes the whole picture right exactly when every clean cell was right before. */
  lemma RenderExact(p: Picture, c: nat, d: nat, v: View, show: bool)
    requires c > 0 && |v.cells| == |v.dirty|
    ensures ShowsAll(DrawAll(p, d, SpritesOf(c, d, v, show, |v.cells|)), c, v, show) <==> ShowsClean(p, c, v, show)
  {
    if ShowsClean(p, c, v, show) {
      RenderCompletes(p, c, d, v, show);
    }
    forall i | 0 <= i < |v.cells| && !v.dirty[i]
      ensures Shows(DrawAll(p, d, SpritesOf(c, d, v, show, |v.cells|)), c, i, Glyph(v, i, show)) <==>
              Shows(p, c, i, Glyph(v, i, show))
    {
      CleanUntouched(p, c, d, v, show, |v.cells|, i, Glyph(v, i, show));
    }
  }

  /** Sprites of a display that is not the current one change nothing. */
  lemma {:induction false} OtherDisplay(p: Picture, current: nat, c: nat, d: nat, v: View, show: bool, k: nat)
    requires c > 0 && k <= |v.cells| == |v.dirty| && d != current
    ensures DrawAll(p, current, SpritesOf(c, d, v, show, k)) == p
  {
    if k > 0 {
      OtherDisplay(p, current, c, d, v, show, k - 1);
      if v.dirty[k - 1] {
        var a, ss := SpritesOf(c, d, v, show, k - 1), CellSprites(c, d, k - 1, Glyph(v, k - 1, show));
        assert a + ss == a + [ss[0]] + [ss[1]];
        DrawAppend(p, current, a + [ss[0]], ss[1]);
        DrawAppend(p, current, a, ss[0]);
      } else {
        assert SpritesOf(c, d, v, show, k) == SpritesOf(c, d, v, show, k - 1);
      }
    }
  }

  /** The view with every cell marked: a full redraw draws this. */
  function AllMarked(v: View): View { View(v.cells, v.cursor, seq(|v.cells|, _ => true)) }

  /** Where the clean cells are right, the incremental drawing shows at every tile of the screen
      what a full redraw shows. */
  lemma SameAsFullRedraw(p: Picture, c: nat, d: nat, v: View, show: bool, i: nat)
    requires c > 0 && |v.cells| == |v.dirty| && ShowsClean(p, c, v, show) && i < |v.cells|
    ensures var n := |v.cells|;
      var q, full := DrawAll(p, d, SpritesOf(c, d, v, show, n)), DrawAll(p, d, SpritesOf(c, d, AllMarked(v), show, n));
      && UpperTile(c, i) in q && UpperTile(c, i) in full && q[UpperTile(c, i)] == full[UpperTile(c, i)]
      && LowerTile(c, i) in q && LowerTile(c, i) in full && q[LowerTile(c, i)] == full[LowerTile(c, i)]
  {
    DrawnSoFar(p, c, d, v, show, |v.cells|, i);
    DrawnSoFar(p, c, d, AllMarked(v), show, |v.cells|, i);
    assert Glyph(AllMarked(v), i, show) == Glyph(v, i, show);
  }
}
