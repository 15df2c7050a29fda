/** What a terminal screen should be: the last rows of a terminal of unbounded height, and the
    tiles by which its cells appear on a display. */
module Terminal {
  import opened Bits

  const CR: Byte := 13
  const LF: Byte := 10
  const BS: Byte := 8
  const NUL: Byte := 0

  /** The character that stands for the cursor. */
  const BLOCK: Byte := 0xdb

  // ---------------------------------------------------------------- the unbounded terminal

  /** All cells written so far, row after row, and the cursor among them. */
  datatype Term = Term(cells: seq<Byte>, cursor: nat)

  /** A screen of whole rows. */
  datatype Geometry = Geometry(columns: nat, size: nat) {
    /** The screens the source works on. */
    ghost predicate Ok() { columns > 0 && columns <= size && size >= 2 && Whole(columns, size) }
  }

  function Blank(n: nat): (s: seq<Byte>)
    ensures |s| == n
  {
    seq(n, _ => NUL)
  }

  /** Where the screen begins: it shows the last rows. */
  function Top(g: Geometry, t: Term): int { |t.cells| - g.size }

  ghost predicate TermOk(g: Geometry, t: Term)
    requires g.columns > 0
  {
    Top(g, t) >= 0 && Whole(g.columns, Top(g, t)) && Top(g, t) <= t.cursor < |t.cells|
  }

  /** The terminal with a blank row more when the cursor has passed the last one. */
  function Grown(g: Geometry, t: Term): Term {
    if t.cursor >= |t.cells| then t.(cells := t.cells + Blank(g.columns)) else t
  }

  /** Where the row of cell x starts. */
  function RowStart(c: nat, x: nat): (r: nat)
    requires c > 0
    ensures r <= x < r + c
    decreases x
  {
    if x < c then 0 else c + RowStart(c, x - c)
  }

  /** x is a whole number of rows. */
  ghost predicate Whole(c: nat, x: nat)
    requires c > 0
  {
    RowStart(c, x) == x
  }

  /** What a character does to the terminal; a backspace stops where the screen begins. */
  ghost function Feed(g: Geometry, t: Term, ch: Byte): Term
    requires g.Ok() && TermOk(g, t)
  {
    if ch == CR then t.(cursor := RowStart(g.columns, t.cursor))
    else if ch == BS then
      if t.cursor > Top(g, t) then Term(t.cells[t.cursor - 1 := NUL], t.cursor - 1) else t
    else if ch == LF then Grown(g, NextRow(g, t))
    else Grown(g, Term(t.cells[t.cursor := ch], t.cursor + 1))
  }

  lemma {:induction false} RowStartShift(c: nat, x: nat, n: nat)
    requires c > 0 && Whole(c, n)
    ensures RowStart(c, x + n) == RowStart(c, x) + n
    decreases n
  {
    if n >= c { RowStartShift(c, x, n - c); }
  }

  /** A row that starts on the screen ends on it. */
  lemma {:induction false} RowFits(c: nat, x: nat, n: nat)
    requires c > 0 && Whole(c, n) && x < n
    ensures RowStart(c, x) + c <= n && Whole(c, RowStart(c, x))
    decreases n
  {
    if x >= c { RowFits(c, x - c, n - c); }
  }

  lemma {:induction false} RowStartIsMod(c: nat, x: nat)
    requires c > 0
    ensures RowStart(c, x) == x - x % c
    decreases x
  {
    if x < c {
      QuotientUnique(x, c, 0, x);
    } else {
      RowStartIsMod(c, x - c);
      var q, r := (x - c) / c, (x - c) % c;
      assert x - c == q * c + r;
      assert (q + 1) * c == q * c + c;
      QuotientUnique(x, c, q + 1, r);
    }
  }

  lemma {:induction false} LinesAreWhole(c: nat, l: nat)
    requires c > 0
    ensures Whole(c, l * c) && (l > 0 ==> l * c >= c)
  {
    if l > 0 {
      LinesAreWhole(c, l - 1);
      assert l * c == (l - 1) * c + c;
    }
  }

  lemma GrownOk(g: Geometry, t: Term)
    requires g.Ok() && Top(g, t) >= 0 && Whole(g.columns, Top(g, t)) && Top(g, t) <= t.cursor <= |t.cells|
    ensures TermOk(g, Grown(g, t)) && t.cells <= Grown(g, t).cells
  {
    OneRow(g.columns, Top(g, t));
  }

  /** The row of the cursor lies on the screen. */
  lemma CursorRow(g: Geometry, t: Term)
    requires g.Ok() && TermOk(g, t)
    ensures Top(g, t) <= RowStart(g.columns, t.cursor) && RowStart(g.columns, t.cursor) + g.columns <= |t.cells|
    ensures RowStart(g.columns, t.cursor) == RowStart(g.columns, t.cursor - Top(g, t)) + Top(g, t)
  {
    RowFits(g.columns, t.cursor - Top(g, t), g.size);
    RowStartShift(g.columns, t.cursor - Top(g, t), Top(g, t));
  }

  /** The terminal with the cursor at the start of the next row, before it grows. */
  function NextRow(g: Geometry, t: Term): Term
    requires g.columns > 0
  {
    t.(cursor := RowStart(g.columns, t.cursor) + g.columns)
  }

  lemma NewlineRow(g: Geometry, t: Term)
    requires g.Ok() && TermOk(g, t)
    ensures Feed(g, t, LF) == Grown(g, NextRow(g, t))
    ensures NextRow(g, t).cursor - Top(g, t) == RowStart(g.columns, t.cursor - Top(g, t)) + g.columns
    ensures if NextRow(g, t).cursor < |t.cells| then TermOk(g, NextRow(g, t)) else NextRow(g, t).cursor == |t.cells|
  {
    CursorRow(g, t);
  }

  lemma FeedKeeps(g: Geometry, t: Term, ch: Byte)
    requires g.Ok() && TermOk(g, t)
    ensures TermOk(g, Feed(g, t, ch))
  {
    if ch == CR {
      CursorRow(g, t);
    } else if ch == LF {
      CursorRow(g, t);
      GrownOk(g, NextRow(g, t));
    } else if ch != BS {
      GrownOk(g, Term(t.cells[t.cursor := ch], t.cursor + 1));
    }
  }

  /** Rows that have scrolled off never change again. */
  lemma OldRowsKept(g: Geometry, t: Term, ch: Byte)
    requires g.Ok() && TermOk(g, t)
    ensures t.cells[..Top(g, t)] <= Feed(g, t, ch).cells
  {
    var top, t' := Top(g, t), Feed(g, t, ch);
    assert t.cells[..top] == t'.cells[..top];
  }

  lemma OneRow(c: nat, x: nat)
    requires c > 0 && Whole(c, x)
    ensures Whole(c, x + c)
  {
  }

  ghost function FeedAll(g: Geometry, t: Term, s: seq<Byte>): (r: Term)
    requires g.Ok() && TermOk(g, t)
    ensures TermOk(g, r)
  {
    if s == [] then t
    else
      var before := FeedAll(g, t, s[..|s| - 1]);
      FeedKeeps(g, before, s[|s| - 1]);
      Feed(g, before, s[|s| - 1])
  }

  lemma {:induction false} FeedTwice(g: Geometry, t: Term, a: seq<Byte>, b: seq<Byte>)
    requires g.Ok() && TermOk(g, t)
    ensures FeedAll(g, t, a + b) == FeedAll(g, FeedAll(g, t, a), b)
    decreases |b|
  {
    if b == [] {
      assert a + b == a;
    } else {
      assert (a + b)[..|a + b| - 1] == a + b[..|b| - 1];
      FeedTwice(g, t, a, b[..|b| - 1]);
    }
  }
}
