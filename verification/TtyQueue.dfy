/** The line discipline of a terminal: a ring of characters that is told apart into finished
    lines and the line being typed only by NUL characters. */
module TtyQueue {
  import opened Options

  /** TTY_COOK_BUF_SZ. */
  const N := 1024

  const NUL := '\0'
  const BACKSPACE := 8 as char

  // ---------------------------------------------------------------- what the ring stands for

  /** Finished lines, each ending in a newline, and the line being typed. */
  datatype Input = Input(lines: seq<string>, partial: string)

  /** The characters in the ring: a NUL ends each finished line. */
  function Flat(lines: seq<string>): string {
    if lines == [] then [] else lines[0] + [NUL] + Flat(lines[1..])
  }

  predicate Clean(s: string) { NUL !in s }

  ghost predicate Sound(v: Input) {
    Clean(v.partial) && forall i :: 0 <= i < |v.lines| ==> Clean(v.lines[i])
  }

  /** tty_cook on the lines: what a keystroke makes of them. */
  function Key(v: Input, ch: char): Input {
    if ch == '\n' then Input(v.lines + [v.partial + [ch]], [])
    else if ch == BACKSPACE then Input(v.lines, if v.partial == [] then [] else v.partial[..|v.partial| - 1])
    else Input(v.lines, v.partial + [ch])
  }

  lemma {:induction false} FlatAppend(lines: seq<string>, line: string)
    ensures Flat(lines + [line]) == Flat(lines) + line + [NUL]
  {
    if lines == [] {
      assert (lines + [line])[1..] == [];
    } else {
      assert (lines + [line])[1..] == lines[1..] + [line];
      FlatAppend(lines[1..], line);
    }
  }

  lemma {:induction false} FlatEnds(lines: seq<string>)
    requires lines != []
    ensures |Flat(lines)| > 0 && Flat(lines)[|Flat(lines)| - 1] == NUL
  {
    if |lines| > 1 { FlatEnds(lines[1..]); }
  }

  // ---------------------------------------------------------------- the ring

  /** The cell i places after a cell. */
  function Cell(from: nat, i: nat): nat { if from + i < N then from + i else from + i - N }

  function Before(cell: nat): nat { if cell == 0 then N - 1 else cell - 1 }

  lemma CellsUsed(front: nat, n: nat)
    requires front < N && n < N
    ensures (Cell(front, n) + 1024 - front) % 1024 == n
  {
  }

  class TtyQueue {
    var buf: array<char>
    var front: nat
    var rear: nat
    /** The units of the semaphore that counts finished lines. */
    var cooked: nat
    ghost var input: Input

    /** The ring holds s from front on, and a NUL behind it. */
    ghost predicate Holds(s: string)
      reads this, buf
    {
      && buf.Length == N && front < N && rear < N && |s| < N
      && rear == Cell(front, |s|) && buf[rear] == NUL
      && forall i :: 0 <= i < |s| ==> buf[Cell(front, i)] == s[i]
    }

    ghost predicate Valid()
      reads this, buf
    {
      && Sound(input) && cooked == |input.lines|
      && Holds(Flat(input.lines) + input.partial)
      && buf[Before(front)] == NUL
    }

    constructor ()
      ensures Valid() && input == Input([], []) && fresh(buf)
    {
      buf := new char[N](_ => NUL);
      front, rear, cooked := 0, 0, 0;
      input := Input([], []);
    }

    /** tty_enqueue; false is the panic "tty queue full". */
    method Enqueue(ch: char, ghost s: string) returns (ok: bool)
      requires Holds(s) && buf[Before(front)] == NUL
      modifies `rear, buf
      ensures ok <==> |s| < N - 1
      ensures ok ==> Holds(s + [ch]) && buf[Before(front)] == NUL
    {
      buf[rear] := ch;
      rear := rear + 1;
      if rear == N {
        rear := 0;
      }
      if rear == front {
        return false;
      }
      buf[rear] := NUL;
      ok := true;
    }

    /** tty_pop_back: 1 when the line being typed is empty. */
    method PopBack(ghost s: string) returns (r: int)
      requires Holds(s) && buf[Before(front)] == NUL
      modifies `rear, buf
      ensures r == if s == [] || s[|s| - 1] == NUL then 1 else 0
      ensures Holds(if r == 1 then s else s[..|s| - 1]) && buf[Before(front)] == NUL
    {
      var pos := rear;
      if pos == 0 {
        pos := N;
      }
      assert s != [] ==> pos - 1 == Cell(front, |s| - 1);
      if buf[pos - 1] != NUL {
        rear := pos - 1;
        buf[rear] := NUL;
        return 0;
      }
      r := 1;
    }

    /** tty_cook between taking and releasing the lock of the terminal. */
    method Cook(ch: char) returns (r: Cooked)
      requires Valid() && ch != NUL
      modifies `rear, `cooked, `input, buf
      ensures r.QueueFull? <==> |Flat(old(input).lines)| + |old(input).partial| + Room(ch) >= N
      ensures r.QueueFull? <==>
        (old(rear) + 1024 - old(front)) % 1024 + (if ch == '\n' then 2 else if ch == 8 as char then 0 else 1) >= 1024
      ensures !r.QueueFull? ==> Valid() && input == Key(old(input), ch)
      ensures !r.QueueFull? ==> r == Ret(if ch == 8 as char && old(input).partial == [] then 1 else 0)
      ensures !r.QueueFull? ==>
        var line := old(input).partial;
        if ch == '\n' then input.lines == old(input).lines + [line + ['\n']] && input.partial == []
        else
          && input.lines == old(input).lines
          && input.partial == if ch != 8 as char then line + [ch] else if line == [] then [] else line[..|line| - 1]
    {
      CellsUsed(front, |Flat(input.lines) + input.partial|);
      if ch == '\n' {
        var ok := CookNewline();
        r := if ok then Ret(0) else QueueFull;
      } else if ch == BACKSPACE {
        var ret := CookBackspace();
        r := Ret(ret);
      } else {
        var ok := CookCharacter(ch);
        r := if ok then Ret(0) else QueueFull;
      }
    }

    method CookNewline() returns (ok: bool)
      requires Valid()
      modifies `rear, `cooked, `input, buf
      ensures ok <==> |Flat(old(input).lines)| + |old(input).partial| + 2 < N
      ensures ok ==> Valid() && input == Key(old(input), '\n')
    {
      ghost var s, line := Flat(input.lines) + input.partial, input.partial + ['\n'];
      ok := Enqueue('\n', s);
      if ok {
        ok := Enqueue(NUL, s + ['\n']);
      }
      if ok {
        cooked := cooked + 1;
        FlatAppend(input.lines, line);
        assert s + ['\n'] + [NUL] == Flat(input.lines + [line]) + [];
        input := Input(input.lines + [line], []);
      }
    }

    method CookBackspace() returns (r: int)
      requires Valid()
      modifies `rear, `input, buf
      ensures Valid() && input == Key(old(input), BACKSPACE)
      ensures r == if old(input).partial == [] then 1 else 0
    {
      ghost var s := Flat(input.lines) + input.partial;
      BackspaceStops(input);
      r := PopBack(s);
      if input.partial != [] {
        assert s[..|s| - 1] == Flat(input.lines) + input.partial[..|input.partial| - 1];
      }
      input := Key(input, BACKSPACE);
    }

    method CookCharacter(ch: char) returns (ok: bool)
      requires Valid() && ch != NUL && ch != BACKSPACE && ch != '\n'
      modifies `rear, `input, buf
      ensures ok <==> |Flat(old(input).lines)| + |old(input).partial| + 1 < N
      ensures ok ==> Valid() && input == Key(old(input), ch)
    {
      ghost var s := Flat(input.lines) + input.partial;
      ok := Enqueue(ch, s);
      if ok {
        assert s + [ch] == Flat(input.lines) + (input.partial + [ch]);
        input := Key(input, ch);
      }
    }

    /** Moves front past one character. */
    method Advance(ghost s: string)
      requires Holds(s) && s != []
      modifies `front
      ensures Holds(s[1..]) && buf[Before(front)] == s[0]
    {
      assert buf[Cell(front, 0)] == s[0];
      ghost var was := front;
      front := front + 1;
      if front == N {
        front := 0;
      }
      forall i | 0 <= i < |s| - 1 ensures buf[Cell(front, i)] == s[1..][i] {
        assert Cell(front, i) == Cell(was, i + 1);
      }
    }

    /** tty_read; None means that no line is finished and the reader sleeps. */
    method Read(dst: array<char>, count: int) returns (r: Option<nat>)
      requires Valid() && count <= dst.Length && dst != buf
      modifies `front, `cooked, `input, dst
      ensures Valid() && (r.None? <==> old(input).lines == [])
      ensures r.None? ==> input == old(input) && dst[..] == old(dst[..])
      ensures r.Some? ==> input == Input(old(input).lines[1..], old(input).partial)
      ensures r.Some? ==>
        r.value == if count < 0 then 0 else if |old(input).lines[0]| < count then |old(input).lines[0]| else count
      ensures r.Some? ==> dst[..] == old(input).lines[0][..r.value] + old(dst[..])[r.value..]
    {
      if cooked == 0 {
        return None;
      }
      cooked := cooked - 1;
      ghost var line, rest := input.lines[0], Flat(input.lines[1..]) + input.partial;
      assert Unread(line, rest, 0) == Flat(input.lines) + input.partial;
      var n := ReadLine(dst, count, line, rest);
      input := Input(input.lines[1..], input.partial);
      r := Some(n);
    }

    method ReadLine(dst: array<char>, count: int, ghost line: string, ghost rest: string) returns (nread: nat)
      requires Holds(Unread(line, rest, 0)) && Clean(line) && count <= dst.Length && dst != buf
      modifies `front, dst
      ensures Holds(rest) && buf[Before(front)] == NUL && nread == CutAt(|line|, count)
      ensures dst[..] == line[..nread] + old(dst[..])[nread..]
    {
      nread := 0;
      ghost var was := dst[..];
      ghost var k := 0;
      while true
        modifies `front, dst
        invariant 0 <= k <= |line| && Holds(Unread(line, rest, k)) && nread == CutAt(k, count)
        invariant dst[..] == Copied(line, was, nread)
        decreases |line| - k
      {
        var ch := ReadChar(dst, nread, count, line, rest, was, k);
        if ch == NUL {
          break;
        }
        if nread < count {
          nread := nread + 1;
        }
        k := k + 1;
      }
    }

    /** Takes one character off the ring, and into the buffer if there is room. */
    method ReadChar(dst: array<char>, nread: nat, count: int, ghost line: string, ghost rest: string,
                    ghost was: string, ghost k: nat) returns (ch: char)
      requires k <= |line| && Holds(Unread(line, rest, k)) && nread == CutAt(k, count)
      requires Clean(line) && count <= dst.Length == |was| && dst != buf && dst[..] == Copied(line, was, nread)
      modifies `front, dst
      ensures ch == Unread(line, rest, k)[0] && Holds(Unread(line, rest, k)[1..]) && buf[Before(front)] == ch
      ensures dst[..] == Copied(line, was, if ch == NUL then nread else CutAt(k + 1, count))
    {
      ch := buf[front];
      assert ch == Unread(line, rest, k)[0] by { assert buf[Cell(front, 0)] == Unread(line, rest, k)[0]; }
      if nread < count && ch != NUL {
        dst[nread] := ch;
        CopiedNext(line, was, nread);
      }
      Advance(Unread(line, rest, k));
    }
  }

  /** What is left in the ring after k characters of a line. */
  function Unread(line: string, rest: string, k: nat): (s: string)
    requires k <= |line|
    ensures s != [] && (s[0] == NUL <==> k == |line| || line[k] == NUL) && (k < |line| ==> s[0] == line[k])
    ensures k < |line| ==> s[1..] == line[k + 1..] + [NUL] + rest
    ensures k == |line| ==> s[1..] == rest
  {
    line[k..] + [NUL] + rest
  }

  /** A buffer after n characters of a line were copied into it. */
  function Copied(line: string, was: string, n: nat): string
    requires n <= |line| && n <= |was|
  {
    line[..n] + was[n..]
  }

  lemma CopiedNext(line: string, was: string, n: nat)
    requires n < |line| && n < |was|
    ensures Copied(line, was, n + 1) == Copied(line, was, n)[n := line[n]]
  {
  }

  /** The result of a keystroke: whether to echo it, or a panic. */
  datatype Cooked = QueueFull | Ret(value: int)

  /** The cells that a keystroke needs besides the sentinel behind the data. */
  function Room(ch: char): nat { if ch == '\n' then 2 else if ch == BACKSPACE then 0 else 1 }

  /** How much of a line of n characters a read of `count` delivers. */
  function CutAt(n: nat, count: int): nat { if count < 0 then 0 else if n < count then n else count }

  /** The character before the line being typed is a NUL or there is none; the last one of a
      line being typed is not. */
  lemma BackspaceStops(v: Input)
    requires Sound(v)
    ensures var s := Flat(v.lines) + v.partial;
      (s == [] || s[|s| - 1] == NUL) <==> v.partial == []
  {
    if v.partial == [] {
      if v.lines != [] { FlatEnds(v.lines); }
    } else {
      assert v.partial[|v.partial| - 1] in v.partial;
    }
  }

  // ---------------------------------------------------------------- whole sessions

  /** What is left of one line's keystrokes after its backspaces. */
  function Edit(keys: string): string {
    if keys == [] then []
    else
      var before, ch := Edit(keys[..|keys| - 1]), keys[|keys| - 1];
      if ch != BACKSPACE then before + [ch] else if before == [] then [] else before[..|before| - 1]
  }

  /** The keystrokes of each line, the unfinished one last. */
  function Split(keys: string): (r: seq<string>)
    ensures |r| > 0
  {
    if keys == [] then [[]]
    else
      var before, ch := Split(keys[..|keys| - 1]), keys[|keys| - 1];
      if ch == '\n' then before + [[]] else before[..|before| - 1] + [before[|before| - 1] + [ch]]
  }

  /** The terminal after a sequence of keystrokes, none of which overflows the ring. */
  function Typed(keys: string): Input {
    if keys == [] then Input([], []) else Key(Typed(keys[..|keys| - 1]), keys[|keys| - 1])
  }

  /** Each finished line is its own keystrokes, edited, and a newline; a backspace never reaches
      into an earlier line. */
  lemma {:induction false} TypedIsEdited(keys: string)
    ensures var parts, v := Split(keys), Typed(keys);
      && |v.lines| == |parts| - 1
      && (forall i :: 0 <= i < |v.lines| ==> v.lines[i] == Edit(parts[i]) + ['\n'])
      && v.partial == Edit(parts[|parts| - 1])
    decreases |keys|
  {
    if keys != [] {
      TypedIsEdited(keys[..|keys| - 1]);
      if keys[|keys| - 1] != '\n' {
        EditMore(Split(keys[..|keys| - 1]), keys[|keys| - 1]);
      }
    }
  }

  /** One more keystroke of the last line. */
  lemma EditMore(before: seq<string>, ch: char)
    requires before != [] && ch != '\n'
    ensures var last := before[|before| - 1];
      Edit(last + [ch]) ==
        if ch != BACKSPACE then Edit(last) + [ch] else if Edit(last) == [] then [] else Edit(last)[..|Edit(last)| - 1]
  {
    var last := before[|before| - 1];
    assert (last + [ch])[..|last|] == last;
  }

  /** A keystroke, or a read that finds a finished line or has to sleep. */
  datatype Op = Press(ch: char) | ReadOne

  /** The lines read so far and what the terminal holds. */
  function Session(ops: seq<Op>): (seq<string>, Input) {
    if ops == [] then ([], Input([], []))
    else
      var (taken, v) := Session(ops[..|ops| - 1]);
      match ops[|ops| - 1]
      case Press(ch) => (taken, Key(v, ch))
      case ReadOne => if v.lines == [] then (taken, v) else (taken + [v.lines[0]], Input(v.lines[1..], v.partial))
  }

  function Keys(ops: seq<Op>): string {
    if ops == [] then []
    else Keys(ops[..|ops| - 1]) + if ops[|ops| - 1].Press? then [ops[|ops| - 1].ch] else []
  }

  /** However reads and keystrokes mix, the reads deliver the edited lines in order. */
  lemma {:induction false} ReadsInOrder(ops: seq<Op>)
    ensures var (taken, v) := Session(ops);
      taken + v.lines == Typed(Keys(ops)).lines && v.partial == Typed(Keys(ops)).partial
    decreases |ops|
  {
    if ops != [] {
      var init, op := ops[..|ops| - 1], ops[|ops| - 1];
      ReadsInOrder(init);
      var (taken, v) := Session(init);
      match op
      case Press(ch) =>
        assert (Keys(init) + [ch])[..|Keys(init)|] == Keys(init);
        assert taken + (v.lines + [v.partial + [ch]]) == taken + v.lines + [v.partial + [ch]];
      case ReadOne =>
        assert Keys(ops) == Keys(init);
        if v.lines != [] { assert taken + [v.lines[0]] + v.lines[1..] == taken + v.lines; }
    }
  }

  /** A buffer of `size` characters gets as much of a line as fits. */
  function Delivered(line: string, size: nat): string { if |line| < size then line else line[..size] }

  /** The lines that reads with such a buffer delivered, out of those taken. */
  ghost predicate Gave(got: seq<string>, taken: seq<string>, size: nat) {
    |got| == |taken| && forall k :: 0 <= k < |got| ==> got[k] == Delivered(taken[k], size)
  }

  /** Operation i of a sequence. */
  method ServeNext(q: TtyQueue, dst: array<char>, ops: seq<Op>, i: nat, got: seq<string>)
    returns (got': seq<string>, full: bool)
    requires i < |ops| && q.Valid() && dst != q.buf && (ops[i].Press? ==> ops[i].ch != NUL)
    requires q.input == Session(ops[..i]).1 && Gave(got, Session(ops[..i]).0, dst.Length)
    modifies q`front, q`rear, q`cooked, q`input, q.buf, dst
    ensures !full ==> q.Valid() && q.input == Session(ops[..i + 1]).1
    ensures !full ==> Gave(got', Session(ops[..i + 1]).0, dst.Length)
  {
    got', full := got, false;
    assert ops[..i + 1][..i] == ops[..i];
    match ops[i]
    case Press(ch) =>
      var r := q.Cook(ch);
      full := r.QueueFull?;
    case ReadOne =>
      var r := q.Read(dst, dst.Length);
      if r.Some? {
        got' := got + [dst[..r.value]];
      }
  }

  method ServeAll(ops: seq<Op>, size: nat) returns (q: TtyQueue, got: seq<string>, full: bool)
    requires forall i :: 0 <= i < |ops| && ops[i].Press? ==> ops[i].ch != NUL
    ensures fresh(q)
    ensures !full ==> q.Valid() && q.input == Session(ops).1 && Gave(got, Session(ops).0, size)
  {
    q := new TtyQueue();
    var dst := new char[size](_ => NUL);
    got, full := [], false;
    var i := 0;
    while i < |ops| && !full
      invariant i <= |ops| && fresh(q) && fresh(q.buf) && fresh(dst) && dst != q.buf && dst.Length == size
      invariant !full ==> q.Valid() && q.input == Session(ops[..i]).1 && Gave(got, Session(ops[..i]).0, size)
    {
      got, full := ServeNext(q, dst, ops, i, got);
      i := i + 1;
    }
    assert i == |ops| ==> ops[..i] == ops;
  }

  /** A terminal through a sequence of keystrokes and reads: unless the ring overflows, the reads deliver
      one line each, edited and cut to the buffer, in the order typed, and what is left follows them. */
  method Serve(ops: seq<Op>, size: nat) returns (q: TtyQueue, got: seq<string>, full: bool)
    requires forall i :: 0 <= i < |ops| && ops[i].Press? ==> ops[i].ch != NUL
    ensures fresh(q) && (!full ==> q.Valid() && q.input == Session(ops).1 && |got| == |Session(ops).0|)
    ensures !full ==>
      var parts := Split(Keys(ops));
      && |got| + |q.input.lines| == |parts| - 1
      && (forall k :: 0 <= k < |got| ==>
            var line := Edit(parts[k]) + ['\n'];
            got[k] == if |line| < size then line else line[..size])
      && (forall k :: 0 <= k < |q.input.lines| ==> q.input.lines[k] == Edit(parts[|got| + k]) + ['\n'])
      && q.input.partial == Edit(parts[|parts| - 1])
  {
    q, got, full := ServeAll(ops, size);
    if !full {
      InOrder(ops, got, size);
    }
  }

  lemma InOrder(ops: seq<Op>, got: seq<string>, size: nat)
    requires Gave(got, Session(ops).0, size)
    ensures var parts, (taken, v) := Split(Keys(ops)), Session(ops);
      && |got| + |v.lines| == |parts| - 1
      && (forall k :: 0 <= k < |got| ==> got[k] == Delivered(Edit(parts[k]) + ['\n'], size))
      && (forall k :: 0 <= k < |v.lines| ==> v.lines[k] == Edit(parts[|got| + k]) + ['\n'])
      && v.partial == Edit(parts[|parts| - 1])
  {
    var (taken, v) := Session(ops);
    ReadsInOrder(ops);
    TypedIsEdited(Keys(ops));
    assert forall k :: 0 <= k < |taken| ==> (taken + v.lines)[k] == taken[k];
    assert forall k :: 0 <= k < |v.lines| ==> (taken + v.lines)[|taken| + k] == v.lines[k];
  }

  /** Edit as a left fold: what the keystrokes `more` make of an edited line. */
  lemma {:induction false} EditFrom(keys: string, keys': string, more: string)
    requires Edit(keys) == Edit(keys')
    ensures Edit(keys + more) == Edit(keys' + more)
    decreases |more|
  {
    if more == [] {
      assert keys + more == keys && keys' + more == keys';
    } else {
      EditFrom(keys, keys', more[..|more| - 1]);
      EditLast(keys, more);
      EditLast(keys', more);
    }
  }

  /** The last keystroke acts on the line that the others leave. */
  lemma EditLast(keys: string, more: string)
    requires more != []
    ensures var before, ch := Edit(keys + more[..|more| - 1]), more[|more| - 1];
      Edit(keys + more) ==
        if ch != BACKSPACE then before + [ch] else if before == [] then [] else before[..|before| - 1]
  {
    assert (keys + more)[..|keys + more| - 1] == keys + more[..|more| - 1];
  }

  /** A backspace takes back the keystroke before it, whatever follows. */
  lemma TakenBack(keys: string, ch: char, more: string)
    requires ch != 8 as char
    ensures Edit(keys + [ch] + [8 as char] + more) == Edit(keys + more)
  {
    assert (keys + [ch] + [8 as char])[..|keys| + 1] == keys + [ch] && (keys + [ch])[..|keys|] == keys;
    EditFrom(keys + [ch] + [8 as char], keys, more);
  }

  /** Without backspaces a line is what was typed. */
  lemma {:induction false} PlainLine(keys: string)
    requires 8 as char !in keys
    ensures Edit(keys) == keys
  {
    if keys != [] { PlainLine(keys[..|keys| - 1]); }
  }
}
