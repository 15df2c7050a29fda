/** Byte access to a disk of blocks: reads and writes of any range, block by block. */
module SdDisk {
  import opened Bits

  type Block = seq<Byte>

  // ---------------------------------------------------------------- the disk as one string

  ghost predicate Blocks(blocks: seq<Block>, k: nat) { forall i :: 0 <= i < |blocks| ==> |blocks[i]| == Pow2(k) }

  /** The byte of a disk at a position, for blocks of two to the k bytes. */
  function ByteAt(blocks: seq<Block>, k: nat, i: nat): Byte
    requires i < Shl(|blocks|, k) && Blocks(blocks, k)
  {
    InDisk(|blocks|, k, i);
    blocks[Shr(i, k)][Low(i, k)]
  }

  function Flat(blocks: seq<Block>, k: nat): (s: seq<Byte>)
    requires Blocks(blocks, k)
    ensures |s| == Shl(|blocks|, k)
  {
    seq(Shl(|blocks|, k), i requires 0 <= i < Shl(|blocks|, k) => ByteAt(blocks, k, i))
  }

  lemma InDisk(n: nat, k: nat, i: nat)
    requires i < Shl(n, k)
    ensures Shr(i, k) < n && Low(i, k) < Pow2(k)
  {
    Recompose(i, k);
    if Shr(i, k) >= n { ShlMonotone(n, Shr(i, k), k); }
  }

  /** Block b starts at its number times the size of a block. */
  lemma BlockInFlat(blocks: seq<Block>, k: nat, b: nat)
    requires Blocks(blocks, k) && b < |blocks|
    ensures Shl(b, k) + Pow2(k) <= Shl(|blocks|, k)
    ensures Flat(blocks, k)[Shl(b, k)..Shl(b, k) + Pow2(k)] == blocks[b]
  {
    OneBlock(b, |blocks|, k);
    forall j | 0 <= j < Pow2(k) ensures Flat(blocks, k)[Shl(b, k) + j] == blocks[b][j] {
      CutUnique(b, j, k);
    }
  }

  lemma OneBlock(b: nat, n: nat, k: nat)
    requires b < n
    ensures Shl(b, k) + Pow2(k) == Shl(b + 1, k) <= Shl(n, k)
  {
    ShlAdd(b, 1, k);
    PowIsShl(k);
    ShlMonotone(b + 1, n, k);
  }

  lemma {:induction false} PowIsShl(k: nat)
    ensures Shl(1, k) == Pow2(k)
  {
    if k > 0 { PowIsShl(k - 1); }
  }

  /** Replacing a block replaces its bytes and no others. */
  lemma BlockReplaced(blocks: seq<Block>, k: nat, b: nat, block: Block)
    requires Blocks(blocks, k) && b < |blocks| && |block| == Pow2(k)
    ensures Shl(b, k) + |block| <= |Flat(blocks, k)|
    ensures Flat(blocks[b := block], k) == Splice(Flat(blocks, k), Shl(b, k), block)
  {
    OneBlock(b, |blocks|, k);
    var blocks' := blocks[b := block];
    var s, s' := Flat(blocks, k), Flat(blocks', k);
    forall i | 0 <= i < |s| ensures s'[i] == Splice(s, Shl(b, k), block)[i] {
      Recompose(i, k);
      InDisk(|blocks|, k, i);
      if Shr(i, k) == b {
        CutUnique(b, Low(i, k), k);
      } else if Shr(i, k) < b {
        OneBlock(Shr(i, k), b, k);
      } else {
        ShlMonotone(b + 1, Shr(i, k), k);
      }
    }
  }

  /** s with the bytes from `at` on replaced by t. */
  function Splice(s: seq<Byte>, at: nat, t: seq<Byte>): (r: seq<Byte>)
    requires at + |t| <= |s|
    ensures |r| == |s|
  {
    s[..at] + t + s[at + |t|..]
  }

  /** Two adjoining splices are one. */
  lemma SpliceTwice(s: seq<Byte>, at: nat, t: seq<Byte>, u: seq<Byte>)
    requires at + |t| + |u| <= |s|
    ensures Splice(Splice(s, at, t), at + |t|, u) == Splice(s, at, t + u)
  {
  }

  /** A splice inside a block of s, seen from s. */
  lemma SpliceInner(s: seq<Byte>, st: nat, n: nat, o: nat, t: seq<Byte>)
    requires st + n <= |s| && o + |t| <= n
    ensures Splice(s, st, Splice(s[st..st + n], o, t)) == Splice(s, st + o, t)
  {
  }

  /** Replacing a part of a block replaces those bytes of the disk and no others. */
  lemma PartReplaced(blocks: seq<Block>, k: nat, b: nat, o: nat, t: seq<Byte>)
    requires Blocks(blocks, k) && b < |blocks| && o + |t| <= Pow2(k)
    ensures Shl(b, k) + o + |t| <= |Flat(blocks, k)| && Blocks(blocks[b := Splice(blocks[b], o, t)], k)
    ensures Flat(blocks[b := Splice(blocks[b], o, t)], k) == Splice(Flat(blocks, k), Shl(b, k) + o, t)
  {
    BlockInFlat(blocks, k, b);
    BlockReplaced(blocks, k, b, Splice(blocks[b], o, t));
    SpliceInner(Flat(blocks, k), Shl(b, k), Pow2(k), o, t);
  }

  /** The n bytes from `at` on. */
  function Part(s: seq<Byte>, at: nat, n: nat): (r: seq<Byte>)
    requires at + n <= |s|
    ensures |r| == n
  {
    s[at..at + n]
  }

  lemma PartOfPart(s: seq<Byte>, st: nat, n: nat, o: nat, m: nat)
    requires st + n <= |s| && o + m <= n
    ensures Part(s, st + o, m) == Part(Part(s, st, n), o, m)
  {
    var p := Part(s, st, n);
    forall j | 0 <= j < m ensures Part(s, st + o, m)[j] == Part(p, o, m)[j] {
      assert Part(p, o, m)[j] == p[o + j] == s[st + (o + j)];
    }
  }

  /** The state of a buffer after the first `pos` bytes of a read. */
  ghost predicate ReadSoFar(dst: seq<Byte>, was: seq<Byte>, all: seq<Byte>, offset: nat, pos: nat) {
    offset + pos <= |all| && pos <= |was| && dst == Splice(was, 0, Part(all, offset, pos))
  }

  lemma ReadMore(dst: seq<Byte>, dst': seq<Byte>, was: seq<Byte>, all: seq<Byte>,
                 offset: nat, pos: nat, at: nat, n: nat)
    requires ReadSoFar(dst, was, all, offset, pos) && at == offset + pos && at + n <= |all| && pos + n <= |was|
    requires dst' == Splice(dst, pos, Part(all, at, n))
    ensures ReadSoFar(dst', was, all, offset, pos + n)
  {
    SpliceTwice(was, 0, Part(all, offset, pos), Part(all, at, n));
    assert Part(all, offset, pos) + Part(all, at, n) == Part(all, offset, pos + n);
  }

  /** The state of the disk after the first `pos` bytes of a write. */
  ghost predicate WrittenSoFar(all: seq<Byte>, was: seq<Byte>, src: seq<Byte>, offset: nat, pos: nat) {
    offset + pos <= |was| && pos <= |src| && all == Splice(was, offset, Part(src, 0, pos))
  }

  lemma NothingWritten(all: seq<Byte>, src: seq<Byte>, offset: nat)
    requires offset <= |all|
    ensures WrittenSoFar(all, all, src, offset, 0)
  {
  }

  lemma WriteMore(all: seq<Byte>, all': seq<Byte>, was: seq<Byte>, src: seq<Byte>,
                  offset: nat, pos: nat, at: nat, n: nat)
    requires WrittenSoFar(all, was, src, offset, pos) && at == offset + pos && at + n <= |was| && pos + n <= |src|
    requires all' == Splice(all, at, Part(src, pos, n))
    ensures WrittenSoFar(all', was, src, offset, pos + n)
  {
    SpliceTwice(was, offset, Part(src, 0, pos), Part(src, pos, n));
    assert Part(src, 0, pos) + Part(src, pos, n) == Part(src, 0, pos + n);
  }

  // ---------------------------------------------------------------- ROUNDDOWN

  /** The complement of blksz - 1 in a word of w bits. */
  lemma {:induction false} ComplementIsField(k: nat, w: nat)
    requires k <= w
    ensures Pow2(w) >= Pow2(k) && Pow2(w) - 1 - (Pow2(k) - 1) == Shl(Pow2(w - k) - 1, k)
  {
    if k > 0 { ComplementIsField(k - 1, w - 1); }
  }

  /** ROUNDDOWN: masking clears the low digits. */
  lemma RoundDown(x: nat, k: nat, w: nat, mask: nat)
    requires k <= w && x < Pow2(w) && mask == Pow2(w) - 1 - (Pow2(k) - 1)
    ensures And(x, mask) == Shl(Shr(x, k), k)
  {
    ComplementIsField(k, w);
    FieldClears(x, k, w);
  }

  lemma FieldClears(x: nat, k: nat, w: nat)
    requires k <= w && x < Pow2(w)
    ensures And(x, Shl(Pow2(w - k) - 1, k)) == Shl(Shr(x, k), k)
  {
    assert Low(Shr(x, k), w - k) == Shr(x, k) by {
      ShrBound(x, k, w);
      LowSmall(Shr(x, k), w - k);
    }
    assert And(x, Shl(Pow2(w - k) - 1, k)) == Shl(Shr(x, k), k) by { AndField(x, k, w - k); }
  }

  /** sd_t and the disk behind it. Block sizes are powers of two. */
  class Disk {
    /** The number of bits of blksz - 1. */
    ghost const k: nat
    /** The number of bits of a word. */
    ghost const w: nat
    /** One more than the largest word. */
    const word: nat
    const blksz: nat
    const buf: array<Byte>
    /** The medium. */
    var blocks: seq<Block>

    ghost predicate Valid()
      reads this
    {
      && k <= w && word == Pow2(w) && blksz == Pow2(k) && buf.Length == blksz
      && Blocks(blocks, k) && Shl(|blocks|, k) <= word
    }

    /** sd_init for a disk that is present. */
    constructor (ghost k: nat, ghost w: nat, word: nat, blksz: nat, blocks: seq<Block>)
      requires k <= w && word == Pow2(w) && blksz == Pow2(k) && Blocks(blocks, k) && Shl(|blocks|, k) <= word
      ensures Valid() && this.blocks == blocks && this.k == k && fresh(buf)
    {
      this.k, this.w, this.word, this.blksz, this.blocks := k, w, word, blksz, blocks;
      buf := new Byte[blksz](_ => 0);
    }

    ghost function Bytes(): seq<Byte>
      requires Valid()
      reads this
    {
      Flat(blocks, k)
    }

    /** Byte j of block b is byte b * blksz + j of the disk, and there are no others. */
    lemma ByteOfBlock(b: nat, j: nat)
      requires Valid() && b < |blocks| && j < blksz
      ensures |Bytes()| == |blocks| * blksz && b * blksz + j < |Bytes()| && Bytes()[b * blksz + j] == blocks[b][j]
    {
      ShlIsMul(|blocks|, k);
      ShlIsMul(b, k);
      BlockInFlat(blocks, k, b);
      assert Bytes()[Shl(b, k)..Shl(b, k) + Pow2(k)][j] == blocks[b][j];
    }

    /** blk_read of one block. */
    method BlkRead(blkno: nat)
      requires Valid() && blkno < |blocks|
      modifies buf
      ensures buf[..] == blocks[blkno]
    {
      forall j | 0 <= j < blksz { buf[j] := blocks[blkno][j]; }
    }

    /** blk_write of one block. */
    method BlkWrite(blkno: nat)
      requires Valid() && blkno < |blocks|
      modifies `blocks
      ensures blocks == old(blocks)[blkno := buf[..]]
    {
      blocks := blocks[blkno := buf[..]];
    }

    /** The address of the block that holds a position. */
    method BlockStart(offset: nat) returns (st: nat)
      requires Valid() && offset < word
      ensures st == Shl(Shr(offset, k), k) && st <= offset < st + blksz
    {
      ComplementIsField(k, w);
      Recompose(offset, k);
      var mask: nat := word - 1 - (blksz - 1);
      RoundDown(offset, k, w, mask);
      st := And(offset, mask);
    }

    /** The length of the piece of a transfer in the block at st. */
    function ChunkSize(at: nat, st: nat, rest: nat): nat
      requires st <= at < st + blksz
    {
      var n := blksz - (at - st);
      if n > rest then rest else n
    }

    /** st is the start of the block that holds the position `at` on the disk. */
    ghost predicate AtBlock(at: nat, st: nat)
      requires Valid()
      reads this
    {
      at < Shl(|blocks|, k) && st == Shl(Shr(at, k), k) && st <= at < st + blksz
    }

    /** The block where a transfer begins. */
    method FirstBlock(offset: nat, ghost count: nat) returns (st: nat)
      requires Valid() && offset + count <= |Bytes()| && offset < word
      ensures count > 0 ==> AtBlock(offset, st)
    {
      st := BlockStart(offset);
    }

    /** The number of that block. */
    method BlockNumber(ghost at: nat, st: nat) returns (blkno: nat)
      requires Valid() && AtBlock(at, st)
      ensures blkno == Shr(at, k) < |blocks|
    {
      InDisk(|blocks|, k, at);
      ShrIsDiv(st, k);
      CutUnique(Shr(at, k), 0, k);
      blkno := st / blksz;
    }

    lemma BlockPlace(at: nat, st: nat)
      requires Valid() && AtBlock(at, st)
      ensures Shr(at, k) < |blocks| && st + blksz <= |Bytes()| && Bytes()[st..st + blksz] == blocks[Shr(at, k)]
    {
      InDisk(|blocks|, k, at);
      BlockInFlat(blocks, k, Shr(at, k));
    }

    /** Behind a full piece the next block begins. */
    lemma NextBlock(at: nat, st: nat, rest: nat, n: nat)
      requires Valid() && AtBlock(at, st) && n == ChunkSize(at, st, rest) && at + rest <= Shl(|blocks|, k)
      ensures n < rest ==> st + blksz == at + n && AtBlock(st + blksz, st + blksz)
    {
      NextStart(st, at, k);
    }

    method CopyOut(dst: array<Byte>, pos: nat, from: nat, n: nat)
      requires from + n <= buf.Length && pos + n <= dst.Length && dst != buf
      modifies dst
      ensures dst[..] == Splice(old(dst[..]), pos, Part(buf[..], from, n))
    {
      forall j | 0 <= j < n { dst[pos + j] := buf[from + j]; }
    }

    method CopyIn(src: seq<Byte>, to: nat)
      requires to + |src| <= buf.Length
      modifies buf
      ensures buf[..] == Splice(old(buf[..]), to, src)
    {
      forall j | 0 <= j < |src| { buf[to + j] := src[j]; }
    }

    /** One iteration of sd_read. */
    method ReadChunk(dst: array<Byte>, at: nat, st: nat, pos: nat, count: nat, ghost all: seq<Byte>) returns (n: nat)
      requires Valid() && AtBlock(at, st) && all == Bytes() && pos < count <= dst.Length && dst != buf
      modifies buf, dst
      ensures 0 < n == ChunkSize(at, st, count - pos) && at + n <= |all|
      ensures dst[..] == Splice(old(dst[..]), pos, Part(all, at, n))
    {
      n := blksz - (at - st);
      if n > count - pos {
        n := count - pos;
      }
      FetchBlock(at, st, n);
      CopyOut(dst, pos, at - st, n);
    }

    /** Reads the block at st, with the n bytes from `at` on in it, into the buffer. */
    method FetchBlock(ghost at: nat, st: nat, ghost n: nat)
      requires Valid() && AtBlock(at, st) && at - st + n <= blksz
      modifies buf
      ensures at + n <= |Bytes()| && Part(buf[..], at - st, n) == Part(Bytes(), at, n)
    {
      BlockPlace(at, st);
      PartOfPart(Bytes(), st, blksz, at - st, n);
      var blkno := BlockNumber(at, st);
      BlkRead(blkno);
    }

    /** sd_read of a range on the disk. */
    method Read(offset: nat, dst: array<Byte>, count: nat) returns (nread: nat)
      requires Valid() && offset + count <= |Bytes()| && offset < word && count <= dst.Length && dst != buf
      modifies buf, dst
      ensures nread == count
      ensures dst[..count] == Bytes()[offset..offset + count] && dst[count..] == old(dst[count..])
    {
      ghost var all, was := Bytes(), dst[..];
      var pos: nat, at: nat := 0, offset;
      var st: nat := FirstBlock(offset, count);
      while pos < count
        invariant 0 <= pos <= count && blocks == old(blocks)
        invariant pos < count ==> at == offset + pos && AtBlock(at, st)
        invariant ReadSoFar(dst[..], was, all, offset, pos)
        decreases count - pos
      {
        ghost var before := dst[..];
        var n := ReadChunk(dst, at, st, pos, count, all);
        ReadMore(before, dst[..], was, all, offset, pos, at, n);
        NextBlock(at, st, count - pos, n);
        pos := pos + n;
        at := st + blksz;
        st := at;
      }
      nread := pos;
    }

    /** The transfer of one iteration of sd_write. */
    method WriteChunk(src: seq<Byte>, at: nat, st: nat, pos: nat, count: nat) returns (n: nat)
      requires Valid() && AtBlock(at, st) && pos < count <= |src|
      modifies `blocks, buf
      ensures Valid() && |blocks| == |old(blocks)| && 0 < n == ChunkSize(at, st, count - pos)
      ensures at + n <= |Bytes()| && pos + n <= |src| && Bytes() == Splice(old(Bytes()), at, Part(src, pos, n))
    {
      n := blksz - (at - st);
      if n > count - pos {
        n := count - pos;
      }
      var blkno := BlockNumber(at, st);
      FillBuffer(blkno, Part(src, pos, n), at - st);
      PartReplaced(blocks, k, blkno, at - st, Part(src, pos, n));
      BlkWrite(blkno);
    }

    /** One iteration of sd_write, and what the next one finds. */
    method WriteNext(ghost offset: nat, src: seq<Byte>, at: nat, st: nat, pos: nat, count: nat, ghost was: seq<Byte>)
      returns (n: nat)
      requires Valid() && AtBlock(at, st) && pos < count <= |src| && at == offset + pos && offset + count <= |was|
      requires WrittenSoFar(Bytes(), was, src, offset, pos)
      modifies `blocks, buf
      ensures Valid() && |blocks| == |old(blocks)| && pos + n <= count && 0 < n
      ensures WrittenSoFar(Bytes(), was, src, offset, pos + n)
      ensures pos + n < count ==> st + blksz == at + n && AtBlock(st + blksz, st + blksz)
    {
      ghost var before := Bytes();
      n := WriteChunk(src, at, st, pos, count);
      WriteMore(before, Bytes(), was, src, offset, pos, at, n);
      NextBlock(at, st, count - pos, n);
    }

    /** The new contents of a block: what it holds already matters only if not all of it changes. */
    method FillBuffer(blkno: nat, part: seq<Byte>, to: nat)
      requires Valid() && blkno < |blocks| && to + |part| <= blksz
      modifies buf
      ensures buf[..] == Splice(blocks[blkno], to, part)
    {
      if |part| < blksz {
        BlkRead(blkno);
      }
      CopyIn(part, to);
    }

    /** sd_write of a range on the disk. */
    method Write(offset: nat, src: seq<Byte>, count: nat) returns (written: nat)
      requires Valid() && offset + count <= |Bytes()| && offset < word && count <= |src|
      modifies `blocks, buf
      ensures Valid() && written == count && |blocks| == |old(blocks)|
      ensures Bytes()[offset..offset + count] == src[..count]
      ensures Bytes()[..offset] == old(Bytes())[..offset] && Bytes()[offset + count..] == old(Bytes())[offset + count..]
    {
      ghost var was := Bytes();
      var pos: nat, at: nat := 0, offset;
      var st: nat := FirstBlock(offset, count);
      NothingWritten(was, src, offset);
      while pos < count
        invariant 0 <= pos <= count && Valid() && |blocks| == |old(blocks)|
        invariant pos < count ==> at == offset + pos && AtBlock(at, st)
        invariant WrittenSoFar(Bytes(), was, src, offset, pos)
        decreases count - pos
      {
        var n := WriteNext(offset, src, at, st, pos, count, was);
        pos := pos + n;
        at := st + blksz;
        st := at;
      }
      written := pos;
    }

    /** What was written is read back. */
    method WriteThenRead(offset: nat, src: seq<Byte>, dst: array<Byte>, count: nat)
      requires Valid() && offset + count <= |Bytes()| && offset < word
      requires count <= |src| && count <= dst.Length && dst != buf
      modifies `blocks, buf, dst
      ensures Valid() && dst[..count] == src[..count]
    {
      var written := Write(offset, src, count);
      var nread := Read(offset, dst, count);
    }
  }

  /** The address behind a block is the start of the next one. */
  lemma NextStart(st: nat, at: nat, k: nat)
    requires st == Shl(Shr(at, k), k)
    ensures st + Pow2(k) == Shl(Shr(st + Pow2(k), k), k) && Pow2(k) > 0
  {
    var b := Shr(at, k);
    OneBlock(b, b + 1, k);
    CutUnique(b + 1, 0, k);
  }
}
