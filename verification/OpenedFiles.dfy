/** open and file_read together.  open works on the running program and file_read on the pid that
    get_current_pid guesses; while only the first terminal is used the two are the same. */
module OpenedFiles {
  import opened Memory
  import opened FileSystem
  import opened Directory
  import opened Programs
  import K = KernelModel
  import opened Kernel
  import opened SingleTerminal

  lemma AdvanceTwice(s: K.State, fd: nat, a: nat, b: nat)
    requires K.Sized(s) && fd < K.DESCRIPTORS
    ensures K.Sized(K.Advance(s, fd, a))
    ensures K.Advance(K.Advance(s, fd, a), fd, b) == K.Advance(s, fd, a + b)
  {
    var p := K.CurrentPid(s.process);
    var s1, s2, s3 := K.Advance(s, fd, a), K.Advance(K.Advance(s, fd, a), fd, b), K.Advance(s, fd, a + b);
    assert s2.pcbs[p].fds == s3.pcbs[p].fds;
    assert s2.pcbs == s3.pcbs;
  }

  /** The sum of two requests, and where reading stands in between. */
  lemma AdvancedOn(size: nat, pos: nat, sizes: seq<nat>)
    requires pos <= size && sizes != []
    ensures var mid := Advanced(size, pos, sizes[0]);
      && pos <= mid <= Advanced(size, pos, Sum(sizes)) <= size
      && Advanced(size, pos, Sum(sizes)) == Advanced(size, mid, Sum(sizes[1..]))
  {
  }

  lemma AdvanceNone(s: K.State, fd: nat)
    requires K.Sized(s) && fd < K.DESCRIPTORS
    ensures K.Advance(s, fd, 0) == s
  {
    var p := K.CurrentPid(s.process);
    assert K.Advance(s, fd, 0).pcbs[p].fds == s.pcbs[p].fds;
    assert K.Advance(s, fd, 0).pcbs == s.pcbs;
  }

  lemma JoinPieces(piece: seq<Byte>, rest: seq<seq<Byte>>, contents: seq<Byte>, from: nat, mid: nat, to: nat)
    requires from <= mid <= to <= |contents|
    requires piece == contents[from..mid] && Concat(rest) == contents[mid..to]
    ensures Concat([piece] + rest) == contents[from..to]
  {
    assert ([piece] + rest)[1..] == rest;
  }

  /** One file_read through a descriptor of the guessed pid. */
  method ReadOnce(m: Machine, fd: nat, buf: array<Byte>, size: nat) returns (piece: seq<Byte>)
    requires m.Valid() && fd < K.DESCRIPTORS && size <= buf.Length
    requires var slot := m.pcbs[K.CurrentPid(m.process[..])].fds[fd];
      Readable(m.volume, slot.inode) && slot.position <= m.volume.inodes[slot.inode].length
    modifies m.pcbs, buf
    ensures m.Valid()
    ensures var slot := old(m.pcbs[K.CurrentPid(m.process[..])].fds[fd]);
      var to := Advanced(m.volume.inodes[slot.inode].length, slot.position, size);
      && m.View() == K.Advance(old(m.View()), fd, to - slot.position)
      && piece == Contents(m.volume, slot.inode)[slot.position..to]
  {
    ghost var slot := m.pcbs[K.CurrentPid(m.process[..])].fds[fd];
    GoodRead(m.volume, slot.inode, slot.position, size);
    var n := m.FileReadCall(fd, buf, size);
    piece := buf[..n];
    assert piece == Flat(m.volume, m.volume.inodes[slot.inode], slot.position, n);
  }

  /** Any sequence of them. */
  method ReadOpened(m: Machine, fd: nat, buf: array<Byte>, sizes: seq<nat>) returns (pieces: seq<seq<Byte>>)
    requires m.Valid() && fd < K.DESCRIPTORS && forall i :: 0 <= i < |sizes| ==> sizes[i] <= buf.Length
    requires var slot := m.pcbs[K.CurrentPid(m.process[..])].fds[fd];
      Readable(m.volume, slot.inode) && slot.position <= m.volume.inodes[slot.inode].length
    modifies m.pcbs, buf
    ensures m.Valid()
    ensures var slot := old(m.pcbs[K.CurrentPid(m.process[..])].fds[fd]);
      var to := Advanced(m.volume.inodes[slot.inode].length, slot.position, Sum(sizes));
      && m.View() == K.Advance(old(m.View()), fd, to - slot.position)
      && Concat(pieces) == Contents(m.volume, slot.inode)[slot.position..to]
    decreases |sizes|
  {
    ghost var s, slot := m.View(), m.pcbs[K.CurrentPid(m.process[..])].fds[fd];
    ghost var size := m.volume.inodes[slot.inode].length;
    if sizes == [] {
      AdvanceNone(s, fd);
      return [];
    }
    var piece := ReadOnce(m, fd, buf, sizes[0]);
    ghost var mid := Advanced(size, slot.position, sizes[0]);
    assert m.pcbs[K.CurrentPid(m.process[..])].fds[fd] == slot.(position := mid);
    AdvancedOn(size, slot.position, sizes);
    var rest := ReadOpened(m, fd, buf, sizes[1..]);
    ghost var to := Advanced(size, slot.position, Sum(sizes));
    AdvanceTwice(s, fd, mid - slot.position, to - mid);
    pieces := [piece] + rest;
    JoinPieces(piece, rest, Contents(m.volume, slot.inode), slot.position, mid, to);
  }

  /** In a state of a single-terminal run: a file opened by its name, and then read in pieces of any
      sizes, gives its contents from the beginning. */
  method OpenAndRead(m: Machine, filename: seq<Byte>, buf: array<Byte>, sizes: seq<nat>, ghost k: nat)
    returns (fd: int, pieces: seq<seq<Byte>>)
    requires m.Valid() && Stack(m.View(), k) && NUL !in filename
    requires match FindEntry(m.volume, filename, 0)
      case NotFound => false
      case Found(_, filetype, inode) => filetype != 0 && filetype != 1 && Readable(m.volume, inode)
    requires exists i :: 2 <= i < K.DESCRIPTORS && !K.CurrentFds(m.View())[i].inUse
    requires forall i :: 0 <= i < |sizes| ==> sizes[i] <= buf.Length
    modifies m.pcbs, buf
    ensures 2 <= fd < K.DESCRIPTORS && !old(K.CurrentFds(m.View())[fd].inUse)
    ensures var inode := FindEntry(m.volume, filename, 0).inode;
      var to := Advanced(m.volume.inodes[inode].length, 0, Sum(sizes));
      && Concat(pieces) == Contents(m.volume, inode)[..to]
      && m.Valid() && K.InRange(m.View()) && K.CurrentFds(m.View())[fd] == K.Fd(K.FileOps, inode, to, true)
  {
    StackFirstFree(m.View(), k);
    fd := m.OpenFile(Chars(filename));
    pieces := ReadOpened(m, fd, buf, sizes);
  }
}
