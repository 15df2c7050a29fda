/** tty_render while other tasks run: it scans, draws and clears cell by cell under the lock of the
    terminal, but the daemon marks cells and toggles the cursor without that lock. */
module RenderSteps {
  import opened Bits
  import opened Options
  import opened Terminal
  import opened TtyScreen
  import opened Framebuffer

  /** Where the task that holds the lock is: nowhere, in the loop over the cells with the sprites
      so far, or in the memset over the marks. */
  datatype Phase = Unlocked | Scanning(pos: nat, sprites: seq<Sprite>) | Clearing(k: nat)

  /** The terminal on display d with c columns, and what is on the display that is current. */
  datatype Screen = Screen(c: nat, d: nat, v: View, show: bool, picture: Picture, current: nat, phase: Phase) {
    predicate Ok() {
      && c > 0 && |v.dirty| == |v.cells|
      && (phase.Scanning? ==> phase.pos <= |v.cells|) && (phase.Clearing? ==> phase.k <= |v.cells|)
    }

    /** What cell i should show. */
    function Due(i: nat): Byte
      requires i < |v.cells|
    {
      Glyph(v, i, show)
    }

    predicate OnDisplay() { current == d }

    predicate NoMarks() { phase.Unlocked? && forall i :: 0 <= i < |v.dirty| ==> !v.dirty[i] }
  }

  /** Take to Release are the render; Put is a change by a writer under the lock, OtherSprite a
      sprite of another terminal. The last four need no lock of this terminal. */
  datatype Step = Take | Scan | Draw | Clear | Release | Put(v: View)
                | MarkCell(i: nat) | SetShow(show: bool) | SetCurrent(display: nat) | OtherSprite(s: Sprite)

  /** A step of a render, or one that does not concern this terminal. */
  predicate Drawing(l: Step) { l.Take? || l.Scan? || l.Draw? || l.Clear? || l.Release? || l.OtherSprite? }

  ghost function Next(s: Screen, l: Step): (r: Option<Screen>)
    requires s.Ok()
    ensures r.Some? ==> r.value.Ok()
  {
    var n := |s.v.cells|;
    match l
    case Take => if s.phase.Unlocked? then Some(s.(phase := Scanning(0, []))) else None
    case Scan => if s.phase.Scanning? && s.phase.pos < n then Some(Scanned(s)) else None
    case Draw =>
      if s.phase.Scanning? && s.phase.pos == n then
        Some(s.(picture := DrawAll(s.picture, s.current, s.phase.sprites), phase := Clearing(0)))
      else None
    case Clear =>
      if s.phase.Clearing? && s.phase.k < n then
        Some(s.(v := s.v.(dirty := s.v.dirty[s.phase.k := false]), phase := Clearing(s.phase.k + 1)))
      else None
    case Release => if s.phase.Clearing? && s.phase.k == n then Some(s.(phase := Unlocked)) else None
    case Put(v) => if s.phase.Unlocked? && Settled(s.v, v) then Some(s.(v := v)) else None
    case MarkCell(i) => if i < n then Some(Marked(s, i)) else None
    case SetShow(show) => Some(s.(show := show))
    case SetCurrent(display) => Some(s.(current := display))
    case OtherSprite(sp) =>
      if sp.display != s.d then Some(s.(picture := Framebuffer.Draw(s.picture, s.current, sp))) else None
  }

  function Scanned(s: Screen): Screen
    requires s.Ok() && s.phase.Scanning? && s.phase.pos < |s.v.cells|
  {
    var Scanning(i, sp) := s.phase;
    s.(phase := Scanning(i + 1, sp + if s.v.dirty[i] then CellSprites(s.c, s.d, i, s.Due(i)) else []))
  }

  function Marked(s: Screen, i: nat): Screen
    requires s.Ok() && i < |s.v.cells|
  {
    s.(v := s.v.(dirty := s.v.dirty[i := true]))
  }

  ghost function Run(s: Screen, steps: seq<Step>): (r: Option<Screen>)
    requires s.Ok()
    ensures r.Some? ==> r.value.Ok()
    decreases |steps|
  {
    if steps == [] then Some(s)
    else
      var r := Next(s, steps[0]);
      if r.None? then None else Run(r.value, steps[1..])
  }

  ghost predicate AllDrawing(steps: seq<Step>) { forall l :: l in steps ==> Drawing(l) }

  lemma {:induction false} RunJoined(s: Screen, a: seq<Step>, b: seq<Step>)
    requires s.Ok() && Run(s, a).Some?
    ensures Run(s, a + b) == Run(Run(s, a).value, b)
    decreases |a|
  {
    if a == [] {
      assert a + b == b;
    } else {
      assert (a + b)[1..] == a[1..] + b;
      RunJoined(Next(s, a[0]).value, a[1..], b);
    }
  }

  lemma RunFirst(s: Screen, l: Step, s1: Screen, steps: seq<Step>)
    requires s.Ok() && Next(s, l) == Some(s1)
    ensures Run(s, [l] + steps) == Run(s1, steps)
  {
    assert ([l] + steps)[1..] == steps;
  }

  // ---------------------------------------------------------------- what becomes of a cell

  /** The sprites gathered so far are those of cells before pos. */
  ghost predicate Below(s: Screen, sprites: seq<Sprite>, pos: nat)
    requires s.c > 0
  {
    forall p, cur, i: nat, ch {:trigger Shows(DrawAll(p, cur, sprites), s.c, i, ch)} :: i >= pos ==>
      (Shows(DrawAll(p, cur, sprites), s.c, i, ch) <==> Shows(p, s.c, i, ch))
  }

  ghost predicate Inv(s: Screen) { s.Ok() && (s.phase.Scanning? ==> Below(s, s.phase.sprites, s.phase.pos)) }

  /** The picture will show cell i as it should when the renders under way and the next one are
      done, if nothing else happens. */
  ghost predicate Covered(s: Screen, i: nat)
    requires s.Ok() && i < |s.v.cells|
  {
    match s.phase
    case Unlocked => s.v.dirty[i] || Shows(s.picture, s.c, i, s.Due(i))
    case Scanning(pos, sprites) =>
      if i < pos then Shows(DrawAll(s.picture, s.current, sprites), s.c, i, s.Due(i))
      else s.v.dirty[i] || Shows(s.picture, s.c, i, s.Due(i))
    case Clearing(k) => (i < k && s.v.dirty[i]) || Shows(s.picture, s.c, i, s.Due(i))
  }

  ghost predicate AllCovered(s: Screen)
    requires s.Ok()
  {
    forall i :: 0 <= i < |s.v.cells| ==> Covered(s, i)
  }

  /** Cell i has been scanned by a render that has yet to clear its mark. */
  predicate Window(s: Screen, i: nat) {
    (s.phase.Scanning? && i < s.phase.pos) || (s.phase.Clearing? && i >= s.phase.k)
  }

  lemma DrawHidden(p: Picture, cur: nat, c: nat, d: nat, a: seq<Sprite>, i: nat, ch: Byte)
    requires c > 0 && cur != d
    ensures DrawAll(p, cur, a + CellSprites(c, d, i, ch)) == DrawAll(p, cur, a)
  {
    var ss := CellSprites(c, d, i, ch);
    assert a + ss == a + [ss[0]] + [ss[1]];
    DrawAppend(p, cur, a + [ss[0]], ss[1]);
    DrawAppend(p, cur, a, ss[0]);
  }

  /** A cell among the sprites changes nothing for another one. */
  lemma OtherCell(p: Picture, cur: nat, c: nat, d: nat, a: seq<Sprite>, j: nat, ch': Byte, i: nat, ch: Byte)
    requires c > 0 && i != j
    ensures Shows(DrawAll(p, cur, a + CellSprites(c, d, j, ch')), c, i, ch) <==> Shows(DrawAll(p, cur, a), c, i, ch)
  {
    if cur == d { DrawOther(p, c, d, a, j, ch', i, ch); } else { DrawHidden(p, cur, c, d, a, j, ch'); }
  }

  lemma ScanBelow(s: Screen)
    requires Inv(s) && s.phase.Scanning? && s.phase.pos < |s.v.cells|
    ensures Inv(Scanned(s))
  {
    var Scanning(pos, sprites) := s.phase;
    var more := Scanned(s).phase.sprites;
    forall p: Picture, cur: nat, i: nat, ch: Byte | i >= pos + 1
      ensures Shows(DrawAll(p, cur, more), s.c, i, ch) <==> Shows(p, s.c, i, ch)
    {
      if s.v.dirty[pos] {
        OtherCell(p, cur, s.c, s.d, sprites, pos, s.Due(pos), i, ch);
      } else {
        assert more == sprites;
      }
    }
  }

  lemma StepKeepsInv(s: Screen, l: Step)
    requires Inv(s) && Next(s, l).Some?
    ensures Inv(Next(s, l).value)
  {
    if l.Scan? { ScanBelow(s); }
    if l.Take? {
      var none: seq<Sprite> := [];
      assert forall p, cur :: DrawAll(p, cur, none) == p;
    }
  }

  /** A scan keeps what will become of every cell. */
  lemma ScanKeeps(s: Screen, i: nat)
    requires Inv(s) && s.OnDisplay() && s.phase.Scanning? && s.phase.pos < |s.v.cells| && i < |s.v.cells|
    ensures Covered(Scanned(s), i) <==> Covered(s, i)
  {
    var Scanning(pos, sprites) := s.phase;
    if !s.v.dirty[pos] {
      assert Scanned(s).phase.sprites == sprites;
      assert Shows(DrawAll(s.picture, s.current, sprites), s.c, pos, s.Due(pos)) <==>
             Shows(s.picture, s.c, pos, s.Due(pos));
    } else if i < pos {
      OtherCell(s.picture, s.current, s.c, s.d, sprites, pos, s.Due(pos), i, s.Due(i));
    } else if i == pos {
      DrawCell(s.picture, s.c, s.d, sprites, i, s.Due(i));
      TilesApart(s.c, i, i);
    }
  }

  /** On display, no step of any render changes what will become of a cell. */
  lemma DrawingKeeps(s: Screen, l: Step, i: nat)
    requires Inv(s) && s.OnDisplay() && Drawing(l) && Next(s, l).Some? && i < |s.v.cells|
    ensures var s' := Next(s, l).value;
      s'.OnDisplay() && |s'.v.cells| == |s.v.cells| && (Covered(s', i) <==> Covered(s, i))
  {
    if l.Scan? { ScanKeeps(s, i); }
  }

  /** A mark covers its cell, unless the cell is in the window of a render: then it does nothing. */
  lemma MarkCovers(s: Screen, m: nat, i: nat)
    requires s.Ok() && m < |s.v.cells| && i < |s.v.cells|
    ensures Covered(Marked(s, m), i) <==> Covered(s, i) || (i == m && !Window(s, m))
  {
  }

  /** Nothing that happens, but for a toggle of the cursor or a change of display, uncovers a cell. */
  lemma StepKeepsCovered(s: Screen, l: Step)
    requires Inv(s) && s.OnDisplay() && AllCovered(s) && Next(s, l).Some? && !l.SetShow? && !l.SetCurrent?
    ensures var s' := Next(s, l).value; s'.OnDisplay() && Inv(s') && AllCovered(s')
  {
    var s' := Next(s, l).value;
    StepKeepsInv(s, l);
    forall i | 0 <= i < |s'.v.cells| ensures Covered(s', i) {
      if Drawing(l) {
        DrawingKeeps(s, l, i);
      } else if l.MarkCell? {
        MarkCovers(s, l.i, i);
      } else {
        assert Covered(s, i);
      }
    }
  }

  lemma {:induction false} RunKeepsCovered(s: Screen, steps: seq<Step>)
    requires Inv(s) && s.OnDisplay() && AllCovered(s) && Run(s, steps).Some?
    requires forall l :: l in steps ==> !l.SetShow? && !l.SetCurrent?
    ensures var t := Run(s, steps).value; t.OnDisplay() && Inv(t) && AllCovered(t)
    decreases |steps|
  {
    if steps != [] {
      StepKeepsCovered(s, steps[0]);
      RunKeepsCovered(Next(s, steps[0]).value, steps[1..]);
    }
  }

  lemma {:induction false} DrawingRunKeeps(s: Screen, steps: seq<Step>, i: nat)
    requires Inv(s) && s.OnDisplay() && AllDrawing(steps) && Run(s, steps).Some? && i < |s.v.cells|
    ensures var t := Run(s, steps).value;
      && Inv(t) && t.OnDisplay() && t.show == s.show && t.v.cells == s.v.cells && t.v.cursor == s.v.cursor
      && (Covered(t, i) <==> Covered(s, i))
    decreases |steps|
  {
    if steps != [] {
      StepKeepsInv(s, steps[0]);
      DrawingKeeps(s, steps[0], i);
      DrawingRunKeeps(Next(s, steps[0]).value, steps[1..], i);
    }
  }

  lemma {:induction false} SameCells(s: Screen, steps: seq<Step>)
    requires s.Ok() && AllDrawing(steps) && Run(s, steps).Some?
    ensures Run(s, steps).value.v.cells == s.v.cells
    decreases |steps|
  {
    if steps != [] {
      assert Drawing(steps[0]);
      SameCells(Next(s, steps[0]).value, steps[1..]);
    }
  }

  // ---------------------------------------------------------------- when the picture is complete

  /** However renders run on to a state without marks, the picture then is complete exactly when
      every cell was covered. */
  lemma CompleteIffCovered(s: Screen, steps: seq<Step>, t: Screen)
    requires Inv(s) && s.OnDisplay() && AllDrawing(steps) && Run(s, steps) == Some(t) && t.NoMarks()
    ensures ShowsAll(t.picture, t.c, t.v, t.show) <==> AllCovered(s)
  {
    SameCells(s, steps);
    forall i | 0 <= i < |s.v.cells|
      ensures Shows(t.picture, t.c, i, Glyph(t.v, i, t.show)) <==> Covered(s, i)
    {
      DrawingRunKeeps(s, steps, i);
    }
  }

  /** After the cursor is shown or hidden its cell is covered exactly when a scan is yet to find it
      marked, or when it looks the same. */
  lemma Toggled(s: Screen, show: bool)
    requires Inv(s) && AllCovered(s) && s.v.cursor < |s.v.cells|
    ensures var i, s' := s.v.cursor, s.(show := show);
      && Inv(s') && (Covered(s', i) <==> show == s.show || s.v.cells[i] == BLOCK || (s.v.dirty[i] && !Window(s, i)))
      && forall j :: 0 <= j < |s.v.cells| && j != i ==> Covered(s', j)
  {
    var s' := s.(show := show);
    assert Covered(s, s.v.cursor);
    forall j | 0 <= j < |s.v.cells| && j != s.v.cursor ensures Covered(s', j) { assert Covered(s, j); }
    forall p | Shows(p, s.c, s.v.cursor, s.Due(s.v.cursor))
      ensures Shows(p, s.c, s.v.cursor, s'.Due(s.v.cursor)) <==> show == s.show || s.v.cells[s.v.cursor] == BLOCK
    {
    }
  }

  /** The daemon shows or hides the cursor, marks its cell and renders, and other renders run at any point
      between. In the end the picture is complete exactly when the mark did not fall between the
      scan of its cell by another render and the clearing of that mark; or when the cell was to be
      scanned anyway after the change, or looks the same as before. */
  lemma BlinkExact(s: Screen, show: bool, mid: seq<Step>, u: Screen, steps: seq<Step>, t: Screen)
    requires Inv(s) && s.OnDisplay() && AllCovered(s) && s.v.cursor < |s.v.cells|
    requires AllDrawing(mid) && Run(s.(show := show), mid) == Some(u)
    requires s.v.cursor < |u.v.cells| && AllDrawing(steps)
    requires Run(Marked(u, s.v.cursor), steps) == Some(t) && t.NoMarks()
    ensures var i := s.v.cursor;
      ShowsAll(t.picture, t.c, t.v, t.show) <==>
        !Window(u, i) || show == s.show || s.v.cells[i] == BLOCK || (s.v.dirty[i] && !Window(s, i))
  {
    var i, s' := s.v.cursor, s.(show := show);
    var m := Marked(u, i);
    Toggled(s, show);
    DrawingRunKeeps(s', mid, i);
    forall j | 0 <= j < |m.v.cells| ensures Covered(m, j) <==> (j == i ==> Covered(s', i) || !Window(u, i)) {
      DrawingRunKeeps(s', mid, j);
      MarkCovers(u, i, j);
    }
    assert Covered(m, i) <==> Covered(s', i) || !Window(u, i);
    CompleteIffCovered(m, steps, t);
  }

  // ---------------------------------------------------------------- renders come to an end

  /** The marks already passed by the memset are clear. */
  ghost predicate ClearBelow(s: Screen)
    requires s.Ok()
  {
    s.phase.Clearing? ==> forall i :: 0 <= i < s.phase.k ==> !s.v.dirty[i]
  }

  /** The sprites are those of an undisturbed scan. */
  ghost predicate Undisturbed(s: Screen)
    requires s.Ok()
  {
    s.phase.Scanning? && s.phase.sprites == SpritesOf(s.c, s.d, s.v, s.show, s.phase.pos)
  }

  function AfterRender(s: Screen): Screen
    requires s.Ok()
  {
    var n := |s.v.cells|;
    s.(v := s.v.(dirty := seq(n, _ => false)), phase := Unlocked,
       picture := DrawAll(s.picture, s.current, SpritesOf(s.c, s.d, s.v, s.show, n)))
  }

  /** The render under way can always go on to its end; undisturbed, it does what Console.Render
      does. */
  lemma {:induction false} Finish(s: Screen) returns (steps: seq<Step>, t: Screen)
    requires s.Ok() && !s.phase.Unlocked?
    ensures AllDrawing(steps) && Run(s, steps) == Some(t) && t.phase.Unlocked?
    ensures t.current == s.current && t.d == s.d && t.c == s.c && |t.v.cells| == |s.v.cells|
    ensures ClearBelow(s) ==> t.NoMarks()
    ensures Undisturbed(s) ==> t == AfterRender(s)
    ensures s.phase.Clearing? && ClearBelow(s) ==>
      t == s.(v := s.v.(dirty := seq(|s.v.cells|, _ => false)), phase := Unlocked)
    decreases s.phase.Scanning?, if s.phase.Scanning? then |s.v.cells| - s.phase.pos else |s.v.cells| - s.phase.k
  {
    var n := |s.v.cells|;
    if s.phase.Clearing? && s.phase.k == n {
      t := s.(phase := Unlocked);
      steps := [Release];
      RunFirst(s, Release, t, []);
      assert ClearBelow(s) ==> s.v.dirty == seq(n, _ => false);
    } else {
      var l := if s.phase.Clearing? then Clear else if s.phase.pos == n then Draw else Scan;
      var s1 := Next(s, l).value;
      var rest;
      rest, t := Finish(s1);
      steps := [l] + rest;
      RunFirst(s, l, s1, rest);
    }
  }

  /** A render from start to end. */
  lemma WholeRender(s: Screen) returns (steps: seq<Step>, t: Screen)
    requires s.Ok() && s.phase.Unlocked?
    ensures AllDrawing(steps) && Run(s, steps) == Some(t) && t == AfterRender(s) && t.NoMarks()
  {
    var s1 := Next(s, Take).value;
    var rest;
    rest, t := Finish(s1);
    steps := [Take] + rest;
    RunFirst(s, Take, s1, rest);
  }

  // ---------------------------------------------------------------- two runs that lose marks

  lemma {:induction false} ScanTo(s: Screen, pos: nat) returns (steps: seq<Step>, t: Screen)
    requires s.Ok() && s.phase.Scanning? && s.phase.pos <= pos <= |s.v.cells|
    ensures AllDrawing(steps) && Run(s, steps) == Some(t)
    ensures t.phase.Scanning? && t.phase.pos == pos && t == s.(phase := t.phase)
    decreases pos - s.phase.pos
  {
    if s.phase.pos == pos {
      steps, t := [], s;
    } else {
      var rest;
      rest, t := ScanTo(Scanned(s), pos);
      steps := [Scan] + rest;
      RunFirst(s, Scan, Scanned(s), rest);
    }
  }

  /** From any state at rest with the cursor on another character than a block: a writer's render
      scans the cell of the cursor, the daemon toggles the cursor and marks the cell, the writer's
      render ends, and after the daemon's own render the picture is wrong. */
  lemma LostBlink(s: Screen) returns (before: seq<Step>, after: seq<Step>, t: Screen)
    requires Inv(s) && s.OnDisplay() && AllCovered(s) && s.phase.Unlocked?
    requires s.v.cursor < |s.v.cells| && s.v.cells[s.v.cursor] != BLOCK
    ensures AllDrawing(before) && AllDrawing(after)
    ensures Run(s, before + [SetShow(!s.show), MarkCell(s.v.cursor)] + after) == Some(t) && t.NoMarks()
    ensures !ShowsAll(t.picture, t.c, t.v, t.show)
  {
    var i := s.v.cursor;
    var s0 := Next(s, Take).value;
    var scan, w := ScanTo(s0, i + 1);
    before := [Take] + scan;
    RunFirst(s, Take, s0, scan);
    var u := w.(show := !w.show);
    var m := Marked(u, i);
    var own, own', rest;
    own, rest := Finish(m);
    own', t := WholeRender(rest);
    after := own + own';
    RunJoined(m, own, own');
    TwoMore(w, after, u, m);
    ThreeParts(s, before, w, [SetShow(!s.show), MarkCell(i)], after);
    RunKeepsCovered(s, before);
    assert Run(u, []) == Some(u);
    BlinkExact(w, !w.show, [], u, after, t);
  }

  lemma ThreeParts(s: Screen, a: seq<Step>, w: Screen, b: seq<Step>, c: seq<Step>)
    requires s.Ok() && Run(s, a) == Some(w)
    ensures Run(s, a + b + c) == Run(w, b + c)
  {
    RunJoined(s, a, b + c);
    assert a + b + c == a + (b + c);
  }

  lemma TwoMore(w: Screen, after: seq<Step>, u: Screen, m: Screen)
    requires w.Ok() && w.v.cursor < |w.v.cells| && u == w.(show := !w.show) && m == Marked(u, w.v.cursor)
    ensures Run(w, [SetShow(!w.show), MarkCell(w.v.cursor)] + after) == Run(m, after)
  {
    RunFirst(u, MarkCell(w.v.cursor), m, after);
    RunFirst(w, SetShow(!w.show), u, [MarkCell(w.v.cursor)] + after);
    assert [SetShow(!w.show)] + ([MarkCell(w.v.cursor)] + after) == [SetShow(!w.show), MarkCell(w.v.cursor)] + after;
  }

  /** The daemon marks all cells of a terminal before it puts it on display. A render by a writer
      between the two draws nothing and clears the marks: nothing of the terminal is drawn. */
  lemma LostSwitch(s: Screen) returns (before: seq<Step>, after: seq<Step>, t: Screen)
    requires s.Ok() && s.phase.Unlocked? && !s.OnDisplay()
    ensures AllDrawing(before) && AllDrawing(after)
    ensures Run(s, before + [SetCurrent(s.d)] + after) == Some(t) && t.OnDisplay() && t.NoMarks()
    ensures t.picture == s.picture
  {
    var n := |s.v.cells|;
    var u;
    before, u := WholeRender(s);
    OtherDisplay(s.picture, s.current, s.c, s.d, s.v, s.show, n);
    var w := u.(current := s.d);
    after, t := WholeRender(w);
    NothingMarked(w.c, w.d, w.v, w.show, n);
    RunFirst(u, SetCurrent(s.d), w, after);
    ThreeParts(s, before, u, [SetCurrent(s.d)], after);
  }

  lemma {:induction false} NothingMarked(c: nat, d: nat, v: View, show: bool, k: nat)
    requires c > 0 && k <= |v.cells| == |v.dirty| && forall i :: 0 <= i < k ==> !v.dirty[i]
    ensures SpritesOf(c, d, v, show, k) == []
  {
    if k > 0 { NothingMarked(c, d, v, show, k - 1); }
  }
}
