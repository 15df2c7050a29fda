/** The screen of a terminal: a buffer of characters that scrolls, and the marks of the cells
    that have changed since they were last drawn. */
module TtyScreen {
  import opened Bits
  import opened Terminal

  /** The cells, the cursor and the dirty marks of a screen. */
  datatype View = View(cells: seq<Byte>, cursor: nat, dirty: seq<bool>)

  /** What the screen should show at cell i. */
  function Glyph(v: View, i: nat, show: bool): Byte
    requires i < |v.cells|
  {
    if i == v.cursor && show then BLOCK else v.cells[i]
  }

  /** From v to v', a cell that is clean now was clean before and looks the same. */
  ghost predicate Settled(v: View, v': View) {
    && |v.cells| == |v'.cells| == |v.dirty| == |v'.dirty|
    && forall i :: 0 <= i < |v.cells| && !v'.dirty[i] ==>
         !v.dirty[i] && v'.cells[i] == v.cells[i] && (i == v.cursor <==> i == v'.cursor)
  }

  /** Moving the cursor within a range of cells that is marked. */
  lemma MoveSettles(v: View, v': View, lo: nat, hi: nat)
    requires |v.cells| == |v.dirty| == |v'.dirty| && v'.cells == v.cells
    requires lo <= v.cursor < hi && lo <= v'.cursor < hi
    requires forall i :: 0 <= i < |v.cells| ==> v'.dirty[i] == (v.dirty[i] || lo <= i < hi)
    ensures Settled(v, v')
  {
  }

  class Tty {
    const lines: nat
    const columns: nat
    const size: nat
    const display: nat
    const buf: array<Byte>
    const dirty: array<bool>
    var cursor: nat
    ghost var term: Term

    function Geo(): Geometry { Geometry(columns, size) }

    ghost predicate Rectangular() { size == lines * columns && Geo().Ok() }

    /** The buffer is the last rows of the unbounded terminal. */
    ghost predicate Valid()
      reads this, buf
    {
      && Geo().Ok() && buf.Length == size && dirty.Length == size
      && TermOk(Geo(), term) && cursor == term.cursor - Top(Geo(), term)
      && buf[..] == term.cells[Top(Geo(), term)..]
    }

    function Look(): View
      reads this, buf, dirty
    {
      View(buf[..], cursor, dirty[..])
    }

    /** The part of tty_init that sets up the screen; a display of fewer than two cells is outside
        what the rest of the code allows for. */
    constructor (lines: nat, columns: nat, display: nat)
      requires lines * columns >= 2
      ensures Valid() && Rectangular() && fresh(buf) && fresh(dirty)
      ensures this.lines == lines && this.columns == columns && this.display == display
      ensures term == Term(Blank(lines * columns), 0)
    {
      this.lines, this.columns, this.display := lines, columns, display;
      size := lines * columns;
      buf := new Byte[lines * columns](_ => NUL);
      dirty := new bool[lines * columns](_ => false);
      cursor := 0;
      term := Term(Blank(lines * columns), 0);
      SomeCells(lines, columns);
      LinesAreWhole(columns, lines);
    }

    // ---------------------------------------------------------------- marks

    method Mark(i: nat)
      requires i < dirty.Length
      modifies dirty
      ensures dirty[..] == old(dirty[..])[i := true]
    {
      dirty[i] := true;
    }

    /** tty_mark_line: marks the row of cell ch. */
    method MarkLine(ch: nat)
      requires Geo().Ok() && dirty.Length == size && ch < size
      modifies dirty
      ensures forall i :: 0 <= i < size ==>
        dirty[i] == (old(dirty[i]) || RowStart(columns, ch) <= i < RowStart(columns, ch) + columns)
    {
      var x := ch % columns;
      RowStartIsMod(columns, ch);
      RowFits(columns, ch, size);
      for i := 0 to columns
        invariant forall j :: 0 <= j < size ==>
          dirty[j] == (old(dirty[j]) || RowStart(columns, ch) <= j < RowStart(columns, ch) + i)
      {
        Mark(ch - x + i);
      }
    }

    method MarkAll()
      requires dirty.Length == size
      modifies dirty
      ensures forall i :: 0 <= i < size ==> dirty[i]
    {
      for i := 0 to size
        invariant forall j :: 0 <= j < i ==> dirty[j]
      {
        Mark(i);
      }
    }

    // ---------------------------------------------------------------- changes of state

    /** tty_upd_scrollup, when the cursor has passed the last cell. */
    method ScrollUp()
      requires Rectangular() && buf.Length == size && dirty.Length == size && cursor == size
      modifies `cursor, buf, dirty
      ensures cursor == size - columns
      ensures buf[..] == old(buf[..])[columns..] + Blank(columns)
      ensures dirty[..] == old(dirty[..])[columns..] + old(dirty[..])[size - columns..]
    {
      LessOneLine(lines, columns);
      var move := columns * (lines - 1);
      forall i | 0 <= i < move { buf[i] := buf[i + columns]; }
      forall i | 0 <= i < move { dirty[i] := dirty[i + columns]; }
      cursor := cursor - columns;
      assert buf[..move] == old(buf[..])[columns..] && dirty[..move] == old(dirty[..])[columns..];
      assert dirty[move..] == old(dirty[..])[move..];
      for i := 0 to columns
        modifies buf
        invariant buf[..move] == old(buf[..])[columns..]
        invariant forall j :: move <= j < move + i ==> buf[j] == NUL
      {
        buf[cursor + i] := NUL;
      }
    }

    // ---------------------------------------------------------------- characters

    /** tty_putc: one character, as the unbounded terminal takes it; every cell that now looks
        different is marked. */
    method Putc(ch: Byte)
      requires Valid() && Rectangular()
      modifies `cursor, `term, buf, dirty
      ensures Valid() && term == Feed(Geo(), old(term), ch) && Settled(old(Look()), Look())
    {
      if ch == CR {
        PutReturn();
      } else if ch == BS {
        PutBackspace();
      } else if ch == LF {
        PutNewline();
      } else {
        PutOrdinary(ch);
      }
    }

    /** tty_upd_cr. */
    method CarriageReturn()
      requires Geo().Ok() && cursor < size
      modifies `cursor
      ensures cursor == RowStart(columns, old(cursor)) && Whole(columns, cursor) && cursor + columns <= size
    {
      RowStartIsMod(columns, cursor);
      RowFits(columns, cursor, size);
      var x := cursor % columns;
      cursor := cursor - x;
    }

    method PutReturn()
      requires Valid()
      modifies `cursor, `term, dirty
      ensures Valid() && term == Feed(Geo(), old(term), CR) && Settled(old(Look()), Look())
    {
      FeedKeeps(Geo(), term, CR);
      CursorRow(Geo(), term);
      CarriageReturn();
      MarkLine(cursor);
      term := Feed(Geo(), term, CR);
      MoveSettles(old(Look()), Look(), cursor, cursor + columns);
    }

    method PutBackspace()
      requires Valid()
      modifies `cursor, `term, buf, dirty
      ensures Valid() && term == Feed(Geo(), old(term), BS) && Settled(old(Look()), Look())
    {
      if cursor > 0 {
        cursor := cursor - 1;
        buf[cursor] := NUL;
      }
      Mark(cursor);
      Mark(cursor + 1);
      term := Feed(Geo(), term, BS);
    }

    /** Scrolls when the cursor has passed the end of the terminal t, and marks everything. */
    method Scroll(ghost t: Term)
      requires Rectangular() && buf.Length == size && dirty.Length == size && cursor == size
      requires Top(Geo(), t) >= 0 && Whole(columns, Top(Geo(), t)) && t.cursor == |t.cells|
      requires buf[..] == t.cells[Top(Geo(), t)..]
      modifies `cursor, `term, buf, dirty
      ensures Valid() && term == Grown(Geo(), t) && forall i :: 0 <= i < size ==> dirty[i]
    {
      GrownOk(Geo(), t);
      ScrollUp();
      MarkAll();
      term := Grown(Geo(), t);
      assert t.cells[Top(Geo(), t)..][columns..] == t.cells[Top(Geo(), t) + columns..];
    }

    method PutNewline()
      requires Valid() && Rectangular()
      modifies `cursor, `term, buf, dirty
      ensures Valid() && term == Feed(Geo(), old(term), LF) && Settled(old(Look()), Look())
    {
      NewlineRow(Geo(), term);
      ghost var t := NextRow(Geo(), term);
      CarriageReturn();
      cursor := cursor + columns;
      if cursor == size {
        Scroll(t);
      } else {
        NextLine(t);
        MoveSettles(old(Look()), Look(), cursor - columns, cursor + columns);
      }
    }

    /** The cursor has moved to the next row of the screen. */
    method NextLine(ghost t: Term)
      requires Geo().Ok() && buf.Length == size && dirty.Length == size
      requires columns <= cursor < size && Whole(columns, cursor - columns)
      requires TermOk(Geo(), t) && cursor == t.cursor - Top(Geo(), t) && buf[..] == t.cells[Top(Geo(), t)..]
      modifies `term, dirty
      ensures Valid() && term == t
      ensures forall j :: 0 <= j < size ==> dirty[j] == (old(dirty[j]) || cursor - columns <= j < cursor + columns)
    {
      MarkTwoLines(cursor - columns);
      term := t;
    }

    /** Marks the row that starts at cell i and the next one. */
    method MarkTwoLines(i: nat)
      requires Geo().Ok() && dirty.Length == size && Whole(columns, i) && i + columns < size
      modifies dirty
      ensures forall j :: 0 <= j < size ==> dirty[j] == (old(dirty[j]) || i <= j < i + columns + columns)
    {
      OneRow(columns, i);
      MarkLine(i);
      MarkLine(i + columns);
    }

    method PutOrdinary(ch: Byte)
      requires Valid() && Rectangular() && ch != CR && ch != BS && ch != LF
      modifies `cursor, `term, buf, dirty
      ensures Valid() && term == Feed(Geo(), old(term), ch) && Settled(old(Look()), Look())
    {
      buf[cursor] := ch;
      cursor := cursor + 1;
      ghost var t := Term(term.cells[term.cursor := ch], term.cursor + 1);
      if cursor == size {
        Scroll(t);
      } else {
        Mark(cursor - 1);
        Mark(cursor);
        term := t;
      }
    }
  }

  lemma SomeCells(l: nat, c: nat)
    requires l * c >= 2
    ensures l > 0 && c > 0
  {
  }

  lemma LessOneLine(l: nat, c: nat)
    requires c > 0 && l * c >= 2
    ensures l >= 1 && c * (l - 1) == l * c - c
  {
  }
}
