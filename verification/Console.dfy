/** Two terminals on one display: writing, rendering, the blinking cursor and switching. */
module Console {
  import opened Bits
  import opened Terminal
  import opened TerminalText
  import opened TtyScreen
  import opened Framebuffer

  /** tty_render: draws the marked cells and clears the marks. */
  method Render(tty: Tty, video: Video, show: bool)
    requires tty.Valid() && tty.Rectangular()
    modifies tty.dirty, video
    ensures tty.Valid() && video.current == old(video.current)
    ensures tty.Look() == old(tty.Look()).(dirty := seq(tty.size, _ => false))
    ensures video.picture ==
      DrawAll(old(video.picture), video.current, SpritesOf(tty.columns, tty.display, old(tty.Look()), show, tty.size))
  {
    var sprites := MarkedSprites(tty, show);
    video.WriteSprites(sprites);
    ClearMarks(tty);
  }

  method MarkedSprites(tty: Tty, show: bool) returns (sp: seq<Sprite>)
    requires tty.Valid() && tty.Rectangular()
    ensures sp == SpritesOf(tty.columns, tty.display, tty.Look(), show, tty.size)
  {
    sp := [];
    var ch := 0;
    for y := 0 to tty.lines
      invariant ch == y * tty.columns <= tty.size
      invariant sp == SpritesOf(tty.columns, tty.display, tty.Look(), show, ch)
    {
      MulMonotone(y + 1, tty.lines, tty.columns);
      sp := RowSprites(tty, show, y, ch, sp);
      ch := ch + tty.columns;
      RowEnd(y, tty.columns);
    }
  }

  lemma RowEnd(y: nat, c: nat)
    ensures (y + 1) * c == y * c + c
  {
  }

  /** The two tiles of column x of line y. */
  lemma TilePair(c: nat, d: nat, y: nat, x: nat, i: nat, draw: Byte)
    requires x < c && i == y * c + x
    ensures [Sprite(x * 8, y * 16, d, draw * 2 + 1), Sprite(x * 8, y * 16 + 8, d, draw * 2 + 2)]
         == CellSprites(c, d, i, draw)
  {
    QuotientUnique(i, c, y, x);
  }

  method RowSprites(tty: Tty, show: bool, y: nat, start: nat, before: seq<Sprite>) returns (sp: seq<Sprite>)
    requires tty.Valid() && start == y * tty.columns && start + tty.columns <= tty.size
    requires before == SpritesOf(tty.columns, tty.display, tty.Look(), show, start)
    ensures sp == SpritesOf(tty.columns, tty.display, tty.Look(), show, start + tty.columns)
  {
    sp := before;
    var ch := start;
    for x := 0 to tty.columns
      invariant ch == start + x
      invariant sp == SpritesOf(tty.columns, tty.display, tty.Look(), show, ch)
    {
      if tty.dirty[ch] {
        var draw := if ch == tty.cursor && show then BLOCK else tty.buf[ch];
        TilePair(tty.columns, tty.display, y, x, ch, draw);
        sp := sp + [Sprite(x * 8, y * 16, tty.display, draw * 2 + 1),
                    Sprite(x * 8, y * 16 + 8, tty.display, draw * 2 + 2)];
      }
      ch := ch + 1;
    }
  }

  method ClearMarks(tty: Tty)
    requires tty.Valid()
    modifies tty.dirty
    ensures tty.Look() == old(tty.Look()).(dirty := seq(tty.size, _ => false))
  {
    forall i | 0 <= i < tty.size { tty.dirty[i] := false; }
  }

  lemma MarksDoNotShow(p: Picture, c: nat, v: View, v': View, show: bool)
    requires c > 0 && v'.cells == v.cells && v'.cursor == v.cursor && |v'.dirty| == |v.cells| && ShowsAll(p, c, v, show)
    ensures ShowsAll(p, c, v', show) && ShowsClean(p, c, v', show)
  {
    assert forall i :: 0 <= i < |v.cells| ==> Glyph(v', i, show) == Glyph(v, i, show);
  }

  /** The locked part of tty_write. */
  method PutAll(tty: Tty, s: seq<Byte>)
    requires tty.Valid() && tty.Rectangular()
    modifies tty`cursor, tty`term, tty.buf, tty.dirty
    ensures tty.Valid() && tty.term == FeedAll(tty.Geo(), old(tty.term), s)
    ensures Settled(old(tty.Look()), tty.Look())
  {
    for i := 0 to |s|
      invariant tty.Valid() && tty.term == FeedAll(tty.Geo(), old(tty.term), s[..i])
      invariant Settled(old(tty.Look()), tty.Look())
    {
      assert s[..i + 1][..i] == s[..i];
      tty.Putc(s[i]);
    }
    assert s[..|s|] == s;
  }

  /** Plain text that fits appears on the screen. */
  lemma TextOnScreen(g: Geometry, t: Term, s: seq<Byte>, r: Term, buf: seq<Byte>, buf': seq<Byte>, cursor: nat)
    requires g.Ok() && TermOk(g, t) && r == FeedAll(g, t, s) && cursor == t.cursor - Top(g, t)
    requires buf == t.cells[Top(g, t)..] && buf' == r.cells[Top(g, r)..]
    requires (forall ch :: ch in s ==> ch != 13 && ch != 10 && ch != 8) && cursor + |s| < g.size
    ensures r.cursor - Top(g, r) == cursor + |s| && buf' == buf[..cursor] + s + buf[cursor + |s|..]
  {
    TextFits(g, t, s);
    var top: nat := Top(g, t);
    assert r.cells == t.cells[..top + cursor] + s + t.cells[top + cursor + |s|..] && Top(g, r) == top;
    SpliceInTail(t.cells, top, cursor, s);
  }

  lemma SpliceInTail(cells: seq<Byte>, top: nat, cursor: nat, s: seq<Byte>)
    requires top + cursor + |s| <= |cells|
    ensures (cells[..top + cursor] + s + cells[top + cursor + |s|..])[top..] ==
      cells[top..][..cursor] + s + cells[top..][cursor + |s|..]
  {
    assert cells[..top + cursor] == cells[..top] + cells[top..][..cursor];
    assert cells[top + cursor + |s|..] == cells[top..][cursor + |s|..];
  }

  /** The state of the terminal daemon and of the display. */
  class Console {
    const tty1: Tty
    const tty2: Tty
    const video: Video
    var shown: Tty
    var showCursor: bool

    ghost predicate Valid()
      reads this, tty1, tty2, video, tty1.buf, tty2.buf, tty1.dirty, tty2.dirty
    {
      && tty1.Valid() && tty2.Valid() && tty1.Rectangular() && tty2.Rectangular()
      && tty1.display != tty2.display && tty1.buf != tty2.buf && tty1.dirty != tty2.dirty
      && (shown == tty1 || shown == tty2) && video.current == shown.display
    }

    /** Every clean cell of the terminal on display shows exactly what it should. */
    ghost predicate PictureOk()
      requires Valid()
      reads this, tty1, tty2, video, tty1.buf, tty2.buf, tty1.dirty, tty2.dirty
    {
      ShowsClean(video.picture, shown.columns, shown.Look(), showCursor)
    }

    /** The whole picture is right. */
    ghost predicate Complete()
      requires Valid()
      reads this, tty1, tty2, video, tty1.buf, tty2.buf, tty1.dirty, tty2.dirty
    {
      ShowsAll(video.picture, shown.columns, shown.Look(), showCursor)
    }

    /** The two tiles of every cell of the terminal on display show the character of the cell, or a block
        where the visible cursor is. */
    lemma CompleteMeans()
      requires Valid()
      ensures Complete() <==> forall i :: 0 <= i < shown.size ==>
        var ch: nat := if i == shown.cursor && showCursor then 0xdb else shown.buf[i];
        var x, y := i % shown.columns * 8, i / shown.columns * 16;
        && (x, y) in video.picture && video.picture[(x, y)] == ch * 2 + 1
        && (x, y + 8) in video.picture && video.picture[(x, y + 8)] == ch * 2 + 2
    {
      forall i | 0 <= i < shown.size
        ensures Shows(video.picture, shown.columns, i, Glyph(shown.Look(), i, showCursor)) <==>
          var ch: nat := if i == shown.cursor && showCursor then 0xdb else shown.buf[i];
          var x, y := i % shown.columns * 8, i / shown.columns * 16;
          && (x, y) in video.picture && video.picture[(x, y)] == ch * 2 + 1
          && (x, y + 8) in video.picture && video.picture[(x, y + 8)] == ch * 2 + 2
      {
        ShowsMeans(video.picture, shown.columns, i, Glyph(shown.Look(), i, showCursor));
      }
    }

    /** The first terminal is on display; nothing has been drawn yet. */
    constructor (tty1: Tty, tty2: Tty, video: Video)
      requires tty1.Valid() && tty2.Valid() && tty1.Rectangular() && tty2.Rectangular()
      requires tty1.display != tty2.display && tty1.buf != tty2.buf && tty1.dirty != tty2.dirty
      requires video.current == tty1.display
      ensures Valid() && shown == tty1 && showCursor
      ensures this.tty1 == tty1 && this.tty2 == tty2 && this.video == video
    {
      this.tty1, this.tty2, this.video, shown, showCursor := tty1, tty2, video, tty1, true;
    }

    /** How the daemon starts: from here on the picture is right. */
    method Begin()
      requires Valid() && shown == tty1
      modifies video, tty1.dirty
      ensures Valid() && PictureOk() && Complete()
    {
      tty1.MarkAll();
      RenderShown();
    }

    method RenderShown()
      requires Valid() && PictureOk()
      modifies video, shown.dirty
      ensures Valid() && PictureOk() && Complete()
    {
      ghost var v := shown.Look();
      RenderCompletes(video.picture, shown.columns, shown.display, v, showCursor);
      Render(shown, video, showCursor);
      MarksDoNotShow(video.picture, shown.columns, v, shown.Look(), showCursor);
    }

    /** tty_write to either terminal. */
    method Write(tty: Tty, s: seq<Byte>)
      requires Valid() && PictureOk() && (tty == tty1 || tty == tty2)
      modifies tty`cursor, tty`term, tty.buf, tty.dirty, video
      ensures Valid() && PictureOk() && tty.term == FeedAll(tty.Geo(), old(tty.term), s)
      ensures tty == shown || old(Complete()) ==> Complete()
      ensures (forall ch :: ch in s ==> ch != 13 && ch != 10 && ch != 8) && old(tty.cursor) + |s| < tty.size ==>
        && tty.cursor == old(tty.cursor) + |s|
        && tty.buf[..] == old(tty.buf[..])[..old(tty.cursor)] + s + old(tty.buf[..])[old(tty.cursor) + |s|..]
    {
      ghost var t, buf, cursor := tty.term, tty.buf[..], tty.cursor;
      WriteEither(tty, s);
      if (forall ch :: ch in s ==> ch != 13 && ch != 10 && ch != 8) && cursor + |s| < tty.size {
        TextOnScreen(tty.Geo(), t, s, tty.term, buf, tty.buf[..], cursor);
      }
    }

    method WriteEither(tty: Tty, s: seq<Byte>)
      requires Valid() && PictureOk() && (tty == tty1 || tty == tty2)
      modifies tty`cursor, tty`term, tty.buf, tty.dirty, video
      ensures Valid() && PictureOk() && tty.term == FeedAll(tty.Geo(), old(tty.term), s)
      ensures tty == shown || old(Complete()) ==> Complete()
    {
      if tty == shown {
        PutAll(tty, s);
        SettledShows(video.picture, tty.columns, old(tty.Look()), tty.Look(), showCursor);
        RenderShown();
      } else {
        WriteHidden(tty, s);
      }
    }

    method WriteHidden(tty: Tty, s: seq<Byte>)
      requires Valid() && PictureOk() && (tty == tty1 || tty == tty2) && tty != shown
      modifies tty`cursor, tty`term, tty.buf, tty.dirty, video
      ensures Valid() && PictureOk() && tty.term == FeedAll(tty.Geo(), old(tty.term), s)
      ensures old(Complete()) ==> Complete()
    {
      PutAll(tty, s);
      RenderHidden(tty);
    }

    method RenderHidden(tty: Tty)
      requires Valid() && PictureOk() && (tty == tty1 || tty == tty2) && tty != shown
      modifies tty.dirty, video
      ensures Valid() && PictureOk() && (old(Complete()) ==> Complete())
    {
      OtherDisplay(video.picture, video.current, tty.columns, tty.display, tty.Look(), showCursor, tty.size);
      Render(tty, video, showCursor);
    }

    /** The cursor blinks, or stays visible after a key. */
    method Blink(changed: bool)
      requires Valid() && PictureOk()
      modifies `showCursor, shown`cursor, shown`term, shown.buf, shown.dirty, video
      ensures Valid() && PictureOk() && Complete() && shown.term == old(shown.term)
      ensures showCursor == (!old(showCursor) || changed)
    {
      ghost var v := shown.Look();
      showCursor := !showCursor || changed;
      shown.Mark(shown.cursor);
      assert ShowsClean(video.picture, shown.columns, shown.Look(), showCursor);
      Write(shown, []);
    }

    /** Puts the other terminal on display. */
    method Switch(tty: Tty)
      requires Valid() && PictureOk() && (tty == tty1 || tty == tty2)
      modifies this, tty`cursor, tty`term, tty.buf, tty.dirty, video
      ensures Valid() && PictureOk() && shown == tty && tty.term == old(tty.term)
      ensures showCursor == old(showCursor) && (tty != old(shown) || old(Complete()) ==> Complete())
    {
      if tty != shown {
        shown := tty;
        tty.MarkAll();
        video.SetCurrent(tty.display);
        assert ShowsClean(video.picture, shown.columns, shown.Look(), showCursor);
        Write(tty, []);
      }
    }

    ghost function Footprint(): set<object> {
      {this, video, tty1, tty1.buf, tty1.dirty, tty2, tty2.buf, tty2.dirty}
    }

    ghost predicate Sized(lines: nat, columns: nat) {
      lines * columns >= 2 && tty1.Geo() == tty2.Geo() == Geometry(columns, lines * columns) && tty1.Geo().Ok()
    }

    /** The terminals have been fed these texts on blank screens. */
    ghost predicate HasFed(lines: nat, columns: nat, text1: seq<Byte>, text2: seq<Byte>)
      requires Sized(lines, columns)
      reads tty1, tty2
    {
      var blank := Term(Blank(lines * columns), 0);
      TermOk(tty1.Geo(), blank)
      && tty1.term == FeedAll(tty1.Geo(), blank, text1) && tty2.term == FeedAll(tty2.Geo(), blank, text2)
    }

    ghost predicate Ready()
      reads this, tty1, tty2, video, tty1.buf, tty2.buf, tty1.dirty, tty2.dirty
    {
      Valid() && PictureOk() && Complete()
    }

    /** One round of the daemon, or a write by a task. */
    method Act(op: Op)
      requires Ready()
      modifies Footprint()
      ensures Ready()
      ensures tty1.term == FeedAll(tty1.Geo(), old(tty1.term), if op.WriteTo? && op.first then op.text else [])
      ensures tty2.term == FeedAll(tty2.Geo(), old(tty2.term), if op.WriteTo? && !op.first then op.text else [])
      ensures op.SwitchTo? ==> shown == if op.first then tty1 else tty2
    {
      match op
      case WriteTo(first, text) => Write(if first then tty1 else tty2, text);
      case CursorBlink(changed) => Blink(changed);
      case SwitchTo(first) => Switch(if first then tty1 else tty2);
    }
  }

  datatype Op = WriteTo(first: bool, text: seq<Byte>) | CursorBlink(changed: bool) | SwitchTo(first: bool)

  /** What an operation writes to one of the two terminals. */
  function TextOf(first: bool, op: Op): seq<Byte> {
    if op.WriteTo? && op.first == first then op.text else []
  }

  function AllText(first: bool, ops: seq<Op>): seq<Byte> {
    if ops == [] then [] else AllText(first, ops[..|ops| - 1]) + TextOf(first, ops[|ops| - 1])
  }

  /** tty_init: a blank screen, and the welcome text. */
  method InitTty(lines: nat, columns: nat, display: nat, video: Video, welcome: seq<Byte>) returns (tty: Tty)
    requires lines * columns >= 2
    modifies video
    ensures tty.Valid() && tty.Rectangular()
    ensures tty.display == display && tty.Geo() == Geometry(columns, lines * columns)
    ensures tty.term == FeedAll(tty.Geo(), Term(Blank(lines * columns), 0), welcome)
    ensures fresh(tty) && fresh(tty.buf) && fresh(tty.dirty) && video.current == old(video.current)
  {
    tty := new Tty(lines, columns, display);
    PutAll(tty, welcome);
    Render(tty, video, true);
  }

  /** Both terminals after tty_init, and the start of the daemon. */
  method Boot(lines: nat, columns: nat, welcome: seq<Byte>) returns (c: Console)
    requires lines * columns >= 2
    ensures c.Ready() && c.Sized(lines, columns) && fresh(c.Footprint()) && c.shown == c.tty1
    ensures c.HasFed(lines, columns, welcome, welcome)
  {
    var video := new Video();
    var tty1 := InitTty(lines, columns, 0, video, welcome);
    var tty2 := InitTty(lines, columns, 1, video, welcome);
    c := new Console(tty1, tty2, video);
    c.Begin();
  }

  /** Any run from the boot on: the picture is always complete, and each terminal shows all text
      written to it, in order. */
  method Session(lines: nat, columns: nat, welcome: seq<Byte>, ops: seq<Op>) returns (c: Console)
    requires lines * columns >= 2
    ensures c.Ready() && c.Sized(lines, columns)
    ensures c.HasFed(lines, columns, welcome + AllText(true, ops), welcome + AllText(false, ops))
  {
    c := Boot(lines, columns, welcome);
    assert welcome + [] == welcome && ops[..0] == [];
    for i := 0 to |ops|
      invariant c.Ready() && c.Sized(lines, columns) && fresh(c.Footprint())
      invariant c.HasFed(lines, columns, welcome + AllText(true, ops[..i]), welcome + AllText(false, ops[..i]))
    {
      c.Act(ops[i]);
      NextText(c.tty1.Geo(), Term(Blank(lines * columns), 0), welcome, ops, i, true);
      NextText(c.tty1.Geo(), Term(Blank(lines * columns), 0), welcome, ops, i, false);
    }
    assert ops[..|ops|] == ops;
  }

  /** The text of a session is that of its writes, in order. */
  lemma TextOfMore(first: bool, ops: seq<Op>, op: Op)
    ensures AllText(first, []) == []
    ensures AllText(first, ops + [op]) ==
      AllText(first, ops) + if op.WriteTo? && op.first == first then op.text else []
  {
    assert (ops + [op])[..|ops|] == ops;
  }

  /** From boot on: plain text of less than a screen, written to the empty first terminal, is in its
      first cells, and the picture is complete. */
  method FirstText(lines: nat, columns: nat, text: seq<Byte>) returns (c: Console)
    requires lines * columns >= 2 && |text| < lines * columns
    requires forall ch :: ch in text ==> ch != 13 && ch != 10 && ch != 8
    ensures c.Ready() && c.shown == c.tty1 && c.Sized(lines, columns)
    ensures c.tty1.cursor == |text| <= c.tty1.buf.Length && c.tty1.buf[..][..|text|] == text
  {
    c := Boot(lines, columns, []);
    c.Write(c.tty1, text);
  }

  /** Text in the cells before the cursor appears on the display character by character. */
  lemma TextShown(c: Console, text: seq<Byte>)
    requires c.Ready() && c.shown.cursor >= |text| && c.shown.buf[..][..|text|] == text
    ensures forall i :: 0 <= i < |text| ==>
      var ch: nat := text[i];
      var x, y := i % c.shown.columns * 8, i / c.shown.columns * 16;
      && (x, y) in c.video.picture && c.video.picture[(x, y)] == ch * 2 + 1
      && (x, y + 8) in c.video.picture && c.video.picture[(x, y + 8)] == ch * 2 + 2
  {
    var v := c.shown.Look();
    assert ShowsAll(c.video.picture, c.shown.columns, v, c.showCursor);
    assert v.cursor == c.shown.cursor && v.cells[..|text|] == text;
    TextInPicture(c.video.picture, c.shown.columns, v, c.showCursor, text);
  }

  lemma NextText(g: Geometry, t: Term, welcome: seq<Byte>, ops: seq<Op>, i: nat, first: bool)
    requires g.Ok() && TermOk(g, t) && i < |ops|
    ensures FeedAll(g, t, welcome + AllText(first, ops[..i + 1])) ==
      FeedAll(g, FeedAll(g, t, welcome + AllText(first, ops[..i])), TextOf(first, ops[i]))
  {
    assert ops[..i + 1][..i] == ops[..i];
    var a, b := AllText(first, ops[..i]), TextOf(first, ops[i]);
    assert welcome + (a + b) == (welcome + a) + b;
    FeedTwice(g, t, welcome + a, b);
  }
}
