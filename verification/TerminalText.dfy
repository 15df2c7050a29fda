/** What text does to a terminal: characters appear where the cursor was, one after the other. */
module TerminalText {
  import opened Bits
  import opened Terminal

  /** Text without carriage return, line feed and backspace. */
  predicate Plain(s: seq<Byte>) { forall ch :: ch in s ==> ch != 13 && ch != 10 && ch != 8 }

  /** The terminal after n cells of text: the text follows what was before the cursor; behind it is what
      was there, or blank cells of k new rows when the text passes the end. */
  ghost predicate Written(g: Geometry, t: Term, s: seq<Byte>, r: Term, k: nat) {
    var n := t.cursor + |s|;
    && t.cursor <= |t.cells| && r.cursor == n < |r.cells| && |r.cells| == |t.cells| + k * g.columns
    && r.cells[..n] == t.cells[..t.cursor] + s
    && (n < |t.cells| ==> k == 0 && r.cells[n..] == t.cells[n..])
    && (n >= |t.cells| ==> |r.cells| - g.columns <= n && forall i :: n <= i < |r.cells| ==> r.cells[i] == 0)
  }

  /** Plain text of any length appears from the cursor on. */
  lemma TextAppears(g: Geometry, t: Term, s: seq<Byte>) returns (k: nat)
    requires g.Ok() && TermOk(g, t) && forall ch :: ch in s ==> ch != 13 && ch != 10 && ch != 8
    ensures var r, n := FeedAll(g, t, s), t.cursor + |s|;
      && r.cursor == n < |r.cells| && |r.cells| == |t.cells| + k * g.columns
      && r.cells[..n] == t.cells[..t.cursor] + s
      && (n < |t.cells| ==> r.cells == t.cells[..t.cursor] + s + t.cells[n..])
      && (n >= |t.cells| ==> |r.cells| - g.columns <= n && forall i :: n <= i < |r.cells| ==> r.cells[i] == 0)
  {
    k := TextWritten(g, t, s);
    var r, n := FeedAll(g, t, s), t.cursor + |s|;
    assert r.cells == r.cells[..n] + r.cells[n..];
  }

  lemma TextFits(g: Geometry, t: Term, s: seq<Byte>)
    requires g.Ok() && TermOk(g, t) && t.cursor + |s| < |t.cells|
    requires forall ch :: ch in s ==> ch != 13 && ch != 10 && ch != 8
    ensures FeedAll(g, t, s) == Term(t.cells[..t.cursor] + s + t.cells[t.cursor + |s|..], t.cursor + |s|)
  {
    var k := TextAppears(g, t, s);
  }

  lemma {:induction false} TextWritten(g: Geometry, t: Term, s: seq<Byte>) returns (k: nat)
    requires g.Ok() && TermOk(g, t) && Plain(s)
    ensures Written(g, t, s, FeedAll(g, t, s), k)
    decreases |s|
  {
    if s == [] {
      k := 0;
    } else {
      var init, ch := s[..|s| - 1], s[|s| - 1];
      assert ch in s && s == init + [ch] && forall x :: x in init ==> x in s;
      k := TextWritten(g, t, init);
      var before := FeedAll(g, t, init);
      k := OneMore(g, t, init, before, k, ch);
    }
  }

  lemma NextMultiple(k: nat, c: nat)
    ensures (k + 1) * c == k * c + c
  {
  }

  lemma OneMore(g: Geometry, t: Term, s: seq<Byte>, r: Term, k: nat, ch: Byte) returns (k': nat)
    requires g.Ok() && TermOk(g, t) && TermOk(g, r) && Written(g, t, s, r, k) && ch != CR && ch != LF && ch != BS
    ensures Written(g, t, s + [ch], Feed(g, r, ch), k')
  {
    var n, r' := r.cursor, Feed(g, r, ch);
    k' := if n + 1 < |r.cells| then k else k + 1;
    NextMultiple(k, g.columns);
    assert r'.cells[..n + 1] == r.cells[..n] + [ch];
    if n + 1 < |t.cells| { assert r'.cells[n + 1..] == r.cells[n..][1..] && t.cells[n + 1..] == t.cells[n..][1..]; }
  }

  /** A backspace takes back the plain character before it and leaves the cell blank; only on a screen of
      one row that character is out of reach when it was the last of the row. */
  lemma Rubout(g: Geometry, t: Term, ch: Byte)
    requires g.Ok() && TermOk(g, t) && ch != 13 && ch != 10 && ch != 8
    ensures FeedAll(g, t, [ch, 8]) ==
      if t.cursor + 1 < |t.cells| then Term(t.cells[t.cursor := 0], t.cursor)
      else if g.size > g.columns then Term(t.cells[t.cursor := 0] + seq(g.columns, _ => 0), t.cursor)
      else Term(t.cells[t.cursor := ch] + seq(g.columns, _ => 0), t.cursor + 1)
  {
    TwoCharacters(g, t, ch, 8);
    FeedKeeps(g, t, ch);
  }

  lemma TwoCharacters(g: Geometry, t: Term, a: Byte, b: Byte)
    requires g.Ok() && TermOk(g, t)
    ensures TermOk(g, Feed(g, t, a)) && FeedAll(g, t, [a, b]) == Feed(g, Feed(g, t, a), b)
  {
    FeedKeeps(g, t, a);
    OneCharacter(g, t, a);
    assert [a, b][..1] == [a];
  }

  lemma OneCharacter(g: Geometry, t: Term, a: Byte)
    requires g.Ok() && TermOk(g, t)
    ensures FeedAll(g, t, [a]) == Feed(g, t, a)
  {
    assert [a][..0] == [];
  }

  /** A backspace blanks the cell before the cursor and moves there; at the start of the screen it does
      nothing. */
  lemma Backspace(g: Geometry, t: Term)
    requires g.Ok() && TermOk(g, t)
    ensures FeedAll(g, t, [8]) ==
      if t.cursor == |t.cells| - g.size then t else Term(t.cells[t.cursor - 1 := 0], t.cursor - 1)
  {
    OneCharacter(g, t, 8);
  }

  /** A line feed moves to the start of the next row, which is new and blank if there was none. */
  lemma Newline(g: Geometry, t: Term)
    requires g.Ok() && TermOk(g, t)
    ensures var next := t.cursor - t.cursor % g.columns + g.columns;
      FeedAll(g, t, [10]) ==
        if next < |t.cells| then Term(t.cells, next) else Term(t.cells + seq(g.columns, _ => 0), |t.cells|)
  {
    OneCharacter(g, t, 10);
    RowStartIsMod(g.columns, t.cursor);
    CursorRow(g, t);
  }

  lemma ToStart(g: Geometry, t: Term, start: nat)
    requires g.Ok() && TermOk(g, t) && start == t.cursor - t.cursor % g.columns
    ensures FeedAll(g, t, [13]) == Term(t.cells, start) && TermOk(g, Term(t.cells, start))
  {
    RowStartIsMod(g.columns, t.cursor);
    OneCharacter(g, t, 13);
  }

  /** A carriage return and plain text overwrite the row from its start. */
  lemma Overwrite(g: Geometry, t: Term, s: seq<Byte>, start: nat)
    requires g.Ok() && TermOk(g, t) && forall ch :: ch in s ==> ch != 13 && ch != 10 && ch != 8
    requires start == t.cursor - t.cursor % g.columns && start + |s| < |t.cells|
    ensures FeedAll(g, t, [13] + s) == Term(t.cells[..start] + s + t.cells[start + |s|..], start + |s|)
  {
    ToStart(g, t, start);
    OverwriteFrom(g, t, s, start);
  }

  lemma OverwriteFrom(g: Geometry, t: Term, s: seq<Byte>, start: nat)
    requires g.Ok() && TermOk(g, t) && TermOk(g, Term(t.cells, start)) && FeedAll(g, t, [13]) == Term(t.cells, start)
    requires start + |s| < |t.cells| && forall ch :: ch in s ==> ch != 13 && ch != 10 && ch != 8
    ensures FeedAll(g, t, [13] + s) == Term(t.cells[..start] + s + t.cells[start + |s|..], start + |s|)
  {
    FeedTwice(g, t, [13], s);
    TextFits(g, Term(t.cells, start), s);
  }
}
