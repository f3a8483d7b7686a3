/** The read-only block file system: directory entries, inodes with a table of block numbers, and
    4 KB data blocks; and the client that reads a file to its end. */
module FileSystem {
  import opened Memory

  const BLOCK_SIZE: int := 4096

  /** `blockAt(b)` is the word of memory `b` words behind the start of the inode's table of block
      numbers; the table has 1023 of them, and what follows it is read in the same way.  Block
      numbers are signed, and compared as signed numbers. */
  datatype Inode = Inode(length: nat, blockAt: nat -> int)

  datatype Dentry = Dentry(name: seq<Byte>, filetype: int, inode: nat)

  /** `byteAt(k)` is the byte of memory `k` bytes behind the start of the data blocks; a negative
      block number leads to memory before them. */
  datatype Volume = Volume(dir: seq<Dentry>, inodes: seq<Inode>, byteAt: int -> Byte, dataCount: int)

  // ----- The flat file -----

  /** Position `q` of a file lies in a block that the range check lets through. */
  predicate BlockOk(v: Volume, node: Inode, q: nat)
  {
    node.blockAt(q / BLOCK_SIZE) < v.dataCount
  }

  /** The byte at position `q`: in the block numbered q / 4096, at index q % 4096. */
  function FlatByte(v: Volume, node: Inode, q: nat): Byte
    requires BlockOk(v, node, q)
  {
    v.byteAt(node.blockAt(q / BLOCK_SIZE) * BLOCK_SIZE + q % BLOCK_SIZE)
  }

  ghost predicate BlocksOk(v: Volume, node: Inode, from: nat, to: nat) {
    forall q: nat :: from <= q < to ==> BlockOk(v, node, q)
  }

  function Flat(v: Volume, node: Inode, from: nat, n: nat): seq<Byte>
    requires BlocksOk(v, node, from, from + n)
  {
    seq<Byte>(n, k requires 0 <= k < n => FlatByte(v, node, from + k))
  }

  /** Where a read stops: at the end of the file, unless it starts beyond it. */
  function ReadEnd(node: Inode, offset: nat, length: nat): (e: nat)
    ensures offset <= e <= offset + length
  {
    if offset <= node.length && node.length < offset + length then node.length else offset + length
  }

  /** The positions whose block numbers a read examines: one more than it copies when it meets the
      end of the file, and the first one even when nothing is asked for. */
  function CheckedEnd(node: Inode, offset: nat, length: nat): (e: nat)
    ensures offset < e
  {
    if length == 0 then offset + 1
    else if offset <= node.length && node.length < offset + length then node.length + 1
    else offset + length
  }

  ghost predicate ReadSucceeds(v: Volume, inode: nat, offset: nat, length: nat) {
    && inode < |v.inodes|
    && BlocksOk(v, v.inodes[inode], offset, CheckedEnd(v.inodes[inode], offset, length))
  }

  /** `now` is `was` with `piece` written at `at`. */
  ghost predicate Stored(was: seq<Byte>, now: seq<Byte>, at: nat, piece: seq<Byte>) {
    at + |piece| <= |was| && now == was[..at] + piece + was[at + |piece|..]
  }

  /** The first `n` bytes from `offset` on have been put at `at`. */
  ghost predicate Placed(v: Volume, node: Inode, was: seq<Byte>, buf: array<Byte>, at: nat, offset: nat, n: nat)
    requires BlocksOk(v, node, offset, offset + n)
    reads buf
  {
    && at + n <= buf.Length == |was|
    && (forall k :: at <= k < at + n ==> buf[k] == FlatByte(v, node, offset + (k - at)))
    && forall k :: 0 <= k < |was| && !(at <= k < at + n) ==> buf[k] == was[k]
  }

  lemma PlacedIsStored(v: Volume, node: Inode, was: seq<Byte>, buf: array<Byte>, at: nat, offset: nat, n: nat)
    requires BlocksOk(v, node, offset, offset + n)
    requires Placed(v, node, was, buf, at, offset, n)
    ensures Stored(was, buf[..], at, Flat(v, node, offset, n))
  {
  }

  method ReadData(v: Volume, inode: nat, offset: nat, buf: array<Byte>, at: nat, length: nat)
    returns (n: int)
    requires inode < |v.inodes| ==> at + (ReadEnd(v.inodes[inode], offset, length) - offset) <= buf.Length
    modifies buf
    ensures n >= 0 <==> ReadSucceeds(v, inode, offset, length)
    ensures n < 0 ==> n == -1
    ensures n >= 0 ==>
      var node := v.inodes[inode];
      && n == ReadEnd(node, offset, length) - offset
      && Stored(old(buf[..]), buf[..], at, Flat(v, node, offset, n))
    ensures n < 0 && (inode >= |v.inodes| || !BlockOk(v, v.inodes[inode], offset)) ==> buf[..] == old(buf[..])
  {
    var blockNum: nat := offset / BLOCK_SIZE;
    var blockIndex := offset % BLOCK_SIZE;
    if inode >= |v.inodes| {
      return -1;
    }
    var node := v.inodes[inode];
    if node.blockAt(blockNum) >= v.dataCount {
      assert !BlockOk(v, node, offset);
      return -1;
    }
    ghost var was := buf[..];
    ghost var end := ReadEnd(node, offset, length);
    n := 0;
    for i := 0 to length
      invariant n == i && offset + i <= end
      invariant 0 <= blockIndex <= BLOCK_SIZE && BLOCK_SIZE * blockNum + blockIndex == offset + i
      invariant BlocksOk(v, node, offset, offset + i) && BlockOk(v, node, offset)
      invariant Placed(v, node, was, buf, at, offset, i)
    {
      if blockIndex == BLOCK_SIZE {
        blockNum := blockNum + 1;
        blockIndex := 0;
      }
      assert (offset + i) / BLOCK_SIZE == blockNum && (offset + i) % BLOCK_SIZE == blockIndex;
      if node.blockAt(blockNum) >= v.dataCount {
        assert !BlockOk(v, node, offset + i);
        return -1;
      }
      assert BlockOk(v, node, offset + i);
      if i + offset == node.length {
        break;
      }
      buf[at + i] := v.byteAt(node.blockAt(blockNum) * BLOCK_SIZE + blockIndex);
      n := n + 1;
      blockIndex := blockIndex + 1;
    }
    PlacedIsStored(v, node, was, buf, at, offset, n);
  }

  // ----- Which files always read well -----

  /** No read that starts inside the file can fail. */
  ghost predicate Readable(v: Volume, inode: nat) {
    && inode < |v.inodes|
    && forall offset: nat, length: nat :: offset <= v.inodes[inode].length ==>
         ReadSucceeds(v, inode, offset, length)
  }

  ghost predicate BlocksExist(v: Volume, inode: nat)
    requires inode < |v.inodes|
  {
    var node := v.inodes[inode];
    forall b: nat :: b <= node.length / BLOCK_SIZE ==> node.blockAt(b) < v.dataCount
  }

  /** A file reads well exactly when its blocks 0..length/4096 exist.  That is one block more than
      the contents need when the length is a multiple of the block size. */
  lemma ReadableIff(v: Volume, inode: nat)
    requires inode < |v.inodes|
    ensures Readable(v, inode) <==> BlocksExist(v, inode)
  {
    var node := v.inodes[inode];
    if Readable(v, inode) {
      assert ReadSucceeds(v, inode, 0, node.length + 1);
      assert BlockOk(v, node, node.length);
      forall b: nat | b <= node.length / BLOCK_SIZE
        ensures node.blockAt(b) < v.dataCount
      {
        assert BlockOk(v, node, b * BLOCK_SIZE);
      }
    }
    if BlocksExist(v, inode) {
      forall offset: nat, length: nat | offset <= node.length
        ensures ReadSucceeds(v, inode, offset, length)
      {
        forall q: nat | offset <= q < CheckedEnd(node, offset, length)
          ensures BlockOk(v, node, q)
        {
          assert q <= node.length;
          assert q / BLOCK_SIZE <= node.length / BLOCK_SIZE;
        }
      }
    }
  }

  lemma FileBlocks(v: Volume, inode: nat)
    requires Readable(v, inode)
    ensures BlocksOk(v, v.inodes[inode], 0, v.inodes[inode].length + 1)
  {
    assert ReadSucceeds(v, inode, 0, v.inodes[inode].length + 1);
  }

  /** The contents of a readable file from position `from` on, `n` bytes. */
  ghost function Slice(v: Volume, inode: nat, from: nat, n: nat): (s: seq<Byte>)
    requires Readable(v, inode) && from + n <= v.inodes[inode].length
    ensures |s| == n
  {
    FileBlocks(v, inode);
    Flat(v, v.inodes[inode], from, n)
  }

  ghost function Contents(v: Volume, inode: nat): seq<Byte>
    requires Readable(v, inode)
  {
    Slice(v, inode, 0, v.inodes[inode].length)
  }

  lemma SliceOfContents(v: Volume, inode: nat, from: nat, n: nat)
    requires Readable(v, inode) && from + n <= v.inodes[inode].length
    ensures Slice(v, inode, from, n) == Contents(v, inode)[from..from + n]
  {
  }

  /** Byte `k` of block `b` of a file is byte `k` of the data block that its table names at `b`. */
  lemma ContentsByte(v: Volume, inode: nat, b: nat, k: nat)
    requires Readable(v, inode) && k < 4096 && 4096 * b + k < v.inodes[inode].length
    ensures v.inodes[inode].blockAt(b) < v.dataCount
    ensures Contents(v, inode)[4096 * b + k] == v.byteAt(v.inodes[inode].blockAt(b) * 4096 + k)
  {
    FileBlocks(v, inode);
    assert (4096 * b + k) / BLOCK_SIZE == b;
    assert BlockOk(v, v.inodes[inode], 4096 * b + k);
  }

  /** The last position whose block number a read examines. */
  function LastExamined(node: Inode, offset: nat, length: nat): nat {
    if length == 0 then offset
    else if offset <= node.length < offset + length then node.length
    else offset + length - 1
  }

  /** A read succeeds exactly when every block number from that of its first position to that of the
      last examined one passes the range check. */
  lemma ExaminedBlocks(v: Volume, inode: nat, offset: nat, length: nat)
    requires inode < |v.inodes|
    ensures ReadSucceeds(v, inode, offset, length) <==>
      forall b: nat :: offset / 4096 <= b <= LastExamined(v.inodes[inode], offset, length) / 4096 ==>
        v.inodes[inode].blockAt(b) < v.dataCount
  {
    var node := v.inodes[inode];
    var last := LastExamined(node, offset, length);
    if ReadSucceeds(v, inode, offset, length) {
      forall b: nat | offset / 4096 <= b <= last / 4096
        ensures node.blockAt(b) < v.dataCount
      {
        var q := if b == offset / 4096 then offset else 4096 * b;
        assert BlockOk(v, node, q);
      }
    }
    if forall b: nat :: offset / 4096 <= b <= last / 4096 ==> node.blockAt(b) < v.dataCount {
      forall q: nat | offset <= q < CheckedEnd(node, offset, length)
        ensures BlockOk(v, node, q)
      {
        assert offset / 4096 <= q / BLOCK_SIZE <= last / 4096;
      }
    }
  }

  /** A read that starts behind the end of the file never meets it: it returns all it was asked for. */
  lemma BeyondTheEnd(v: Volume, inode: nat, offset: nat, length: nat)
    requires inode < |v.inodes| && offset > v.inodes[inode].length
    ensures ReadEnd(v.inodes[inode], offset, length) == offset + length
    ensures ReadEnd(v.inodes[inode], v.inodes[inode].length, length) == v.inodes[inode].length
  {
  }

  // ----- Open files -----

  /** What file_read returns from position `pos` of a readable file. */
  function ReadCount(size: nat, pos: nat, length: nat): nat
    requires pos <= size
  {
    if size < pos + length then size - pos else length
  }

  /** An open file: the inode and position of one descriptor. */
  class OpenFile {
    const inode: nat
    var position: nat

    constructor (inode: nat)
      ensures this.inode == inode && position == 0
    {
      this.inode := inode;
      position := 0;
    }

    /** file_read, for any volume; a null buffer or a bad block leaves the position alone. */
    method FileRead(v: Volume, buf: array?<Byte>, at: nat, length: nat) returns (n: int)
      requires buf != null && inode < |v.inodes| ==>
        at + (ReadEnd(v.inodes[inode], position, length) - position) <= buf.Length
      modifies this, buf
      ensures n >= 0 <==> buf != null && ReadSucceeds(v, inode, old(position), length)
      ensures n < 0 ==> n == -1 && position == old(position)
      ensures n >= 0 ==>
        var node := v.inodes[inode];
        && n == ReadEnd(node, old(position), length) - old(position)
        && position == old(position) + n
        && Stored(old(buf[..]), buf[..], at, Flat(v, node, old(position), n))
      ensures n >= 0 && length > 0 && old(position) <= v.inodes[inode].length ==>
        (n == 0 <==> old(position) == v.inodes[inode].length)
    {
      if buf == null {
        return -1;
      }
      n := ReadData(v, inode, position, buf, at, length);
      if n != -1 {
        position := position + n;
      }
    }
  }

  /** A read inside a readable file, in terms of the contents. */
  lemma GoodRead(v: Volume, inode: nat, pos: nat, length: nat)
    requires Readable(v, inode) && pos <= v.inodes[inode].length
    ensures ReadSucceeds(v, inode, pos, length)
    ensures var node := v.inodes[inode];
      && ReadEnd(node, pos, length) == pos + ReadCount(node.length, pos, length)
      && BlocksOk(v, node, pos, ReadEnd(node, pos, length))
      && Flat(v, node, pos, ReadCount(node.length, pos, length))
         == Contents(v, inode)[pos..pos + ReadCount(node.length, pos, length)]
  {
    var node := v.inodes[inode];
    FileBlocks(v, inode);
    assert BlockOk(v, node, CheckedEnd(node, pos, length) - 1) by {
      assert ReadSucceeds(v, inode, pos, length);
    }
    SliceOfContents(v, inode, pos, ReadCount(node.length, pos, length));
  }

  // ----- Sequences of reads -----

  function Sum(sizes: seq<nat>): nat {
    if sizes == [] then 0 else sizes[0] + Sum(sizes[1..])
  }

  /** Where reading stands after `n` bytes have been asked for. */
  function Advanced(size: nat, pos: nat, n: nat): nat { if size < pos + n then size else pos + n }

  function Concat<T>(pieces: seq<seq<T>>): seq<T> {
    if pieces == [] then [] else pieces[0] + Concat(pieces[1..])
  }

  /** One file_read inside a readable file. */
  method ReadPiece(v: Volume, f: OpenFile, buf: array<Byte>, length: nat) returns (piece: seq<Byte>)
    requires Readable(v, f.inode) && f.position <= v.inodes[f.inode].length
    requires length <= buf.Length
    modifies f, buf
    ensures f.position == Advanced(v.inodes[f.inode].length, old(f.position), length)
    ensures piece == Contents(v, f.inode)[old(f.position)..f.position]
  {
    GoodRead(v, f.inode, f.position, length);
    ghost var pos := f.position;
    var n := f.FileRead(v, buf, 0, length);
    piece := buf[..n];
    assert piece == Flat(v, v.inodes[f.inode], pos, n);
  }

  /** Any sequence of file_read sizes: the pieces join up to the file from where reading started,
      and both the join and the new position depend on the sum of the sizes only.  A read of a
      nonzero size comes back empty just when the file has been read to its end. */
  method ReadPieces(v: Volume, f: OpenFile, buf: array<Byte>, sizes: seq<nat>) returns (pieces: seq<seq<Byte>>)
    requires Readable(v, f.inode) && f.position <= v.inodes[f.inode].length
    requires forall i :: 0 <= i < |sizes| ==> sizes[i] <= buf.Length
    modifies f, buf
    ensures f.position == Advanced(v.inodes[f.inode].length, old(f.position), Sum(sizes))
    ensures Concat(pieces) == Contents(v, f.inode)[old(f.position)..f.position]
    ensures |pieces| == |sizes|
    ensures forall i :: 0 <= i < |sizes| ==>
      |pieces[i]| <= sizes[i] && (|pieces[i]| < sizes[i] ==> f.position == v.inodes[f.inode].length)
    ensures old(f.position) == v.inodes[f.inode].length ==> forall i :: 0 <= i < |sizes| ==> pieces[i] == []
    ensures forall i, j :: 0 <= i < j < |sizes| && |pieces[i]| < sizes[i] ==> pieces[j] == []
    decreases |sizes|
  {
    if sizes == [] {
      return [];
    }
    var piece := ReadPiece(v, f, buf, sizes[0]);
    var rest := ReadPieces(v, f, buf, sizes[1..]);
    pieces := [piece] + rest;
  }

  /** The text of any file: a blank stands for each byte whose block does not exist. */
  ghost function Text(v: Volume, inode: nat): (t: seq<Byte>)
    requires inode < |v.inodes|
    ensures |t| == v.inodes[inode].length
    ensures forall q :: 0 <= q < |t| && BlockOk(v, v.inodes[inode], q) ==> t[q] == FlatByte(v, v.inodes[inode], q)
  {
    var node := v.inodes[inode];
    seq<Byte>(node.length, q requires 0 <= q < node.length =>
      if BlockOk(v, node, q) then FlatByte(v, node, q) else BLANK)
  }

  lemma TextIsContents(v: Volume, inode: nat)
    requires Readable(v, inode)
    ensures Text(v, inode) == Contents(v, inode)
  {
    FileBlocks(v, inode);
  }

  /** file_read inside a file, byte by byte. */
  method ReadText(v: Volume, f: OpenFile, buf: array<Byte>, at: nat, length: nat, ghost text: seq<Byte>)
    returns (n: int)
    requires f.inode < |v.inodes| && text == Text(v, f.inode) && f.position <= |text|
    requires at + length <= buf.Length
    modifies f, buf
    ensures n >= 0 <==> ReadSucceeds(v, f.inode, old(f.position), length)
    ensures n < 0 ==> n == -1 && f.position == old(f.position)
    ensures n >= 0 ==> n == ReadCount(|text|, old(f.position), length) && f.position == old(f.position) + n
    ensures n >= 0 ==> forall i :: at <= i < at + n ==> buf[i] == text[old(f.position) + (i - at)]
    ensures n >= 0 ==> forall i :: 0 <= i < buf.Length && !(at <= i < at + n) ==> buf[i] == old(buf[i])
  {
    ghost var was, pos := buf[..], f.position;
    n := f.FileRead(v, buf, at, length);
    if n >= 0 {
      StoredAt(was, buf[..], at, Flat(v, v.inodes[f.inode], pos, n));
    }
  }

  lemma StoredAt(was: seq<Byte>, now: seq<Byte>, at: nat, piece: seq<Byte>)
    requires Stored(was, now, at, piece)
    ensures |now| == |was|
    ensures forall i :: at <= i < at + |piece| ==> now[i] == piece[i - at]
    ensures forall i :: 0 <= i < |now| && !(at <= i < at + |piece|) ==> now[i] == was[i]
  {
  }

  lemma FlatJoins(v: Volume, node: Inode, p: nat, n: nat)
    requires BlocksOk(v, node, 0, p + n)
    ensures Flat(v, node, 0, p) + Flat(v, node, p, n) == Flat(v, node, 0, p + n)
  {
  }

  lemma CheckedToTheEnd(v: Volume, inode: nat)
    requires inode < |v.inodes|
    requires BlocksOk(v, v.inodes[inode], 0, v.inodes[inode].length + 1)
    ensures Readable(v, inode)
  {
    var node := v.inodes[inode];
    assert BlockOk(v, node, node.length);
    forall b: nat | b <= node.length / BLOCK_SIZE
      ensures node.blockAt(b) < v.dataCount
    {
      assert BlockOk(v, node, b * BLOCK_SIZE);
    }
    ReadableIff(v, inode);
  }

  /** A file of exactly one block on a volume that has only this block. */
  function OneBlockVolume(): Volume {
    Volume([], [Inode(BLOCK_SIZE, b => b)], _ => BLANK, 1)
  }

  /** All its bytes exist, and still it cannot be read to its end. */
  lemma WholeFileUnreadable()
    ensures var v := OneBlockVolume();
      BlocksOk(v, v.inodes[0], 0, v.inodes[0].length) && !Readable(v, 0)
  {
    var v := OneBlockVolume();
    assert !BlockOk(v, v.inodes[0], BLOCK_SIZE);
    ReadableIff(v, 0);
    assert v.inodes[0].blockAt(1) == 1;
  }

  /** The cat program: 1024 bytes at a time until a read returns 0 or fails.  It ends well, having
      written the file exactly once, just when the file is readable; otherwise it has written a
      part of the file that starts at its beginning. */
  method Cat(v: Volume, inode: nat) returns (status: int, out: seq<Byte>)
    requires inode < |v.inodes|
    ensures status == 0 || status == 3
    ensures status == 0 <==> Readable(v, inode)
    ensures status == 0 ==> out == Contents(v, inode)
    ensures BlocksOk(v, v.inodes[inode], 0, |out|) && out == Flat(v, v.inodes[inode], 0, |out|)
  {
    var f := new OpenFile(inode);
    var buf := new Byte[1024];
    var node := v.inodes[inode];
    out := [];
    while true
      invariant f.inode == inode && f.position <= node.length && fresh(f) && fresh(buf)
      invariant BlocksOk(v, node, 0, f.position) && out == Flat(v, node, 0, f.position)
      decreases node.length - f.position
    {
      ghost var pos := f.position;
      var cnt := f.FileRead(v, buf, 0, 1024);
      if cnt == 0 {
        assert pos == node.length;
        CheckedToTheEnd(v, inode);
        return 0, out;
      }
      if cnt == -1 {
        assert !Readable(v, inode);
        return 3, out;
      }
      assert buf[..cnt] == Flat(v, node, pos, cnt);
      FlatJoins(v, node, pos, cnt);
      out := out + buf[..cnt];
    }
  }
}
