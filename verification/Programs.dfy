/** Which names are programs: the command of execute against the directory and the first four bytes
    of the file. */
module Programs {
  import opened Memory
  import opened Commands
  import opened FileSystem
  import opened Directory
  import opened KernelModel

  const MAGIC: seq<Byte> := [0x7F, 0x45, 0x4C, 0x46]

  /** The first entry from index `i` on that bears the name. */
  function FindEntry(v: Volume, name: seq<Byte>, i: nat): (r: Lookup)
    requires i <= |v.dir| && forall j :: 0 <= j < i ==> NameOf(v.dir[j]) != name
    ensures IsLookup(v, name, r)
    decreases |v.dir| - i
  {
    if i == |v.dir| then NotFound
    else if NameOf(v.dir[i]) == name then Found(i, v.dir[i].filetype, v.dir[i].inode)
    else FindEntry(v, name, i + 1)
  }

  lemma LookupIsUnique(v: Volume, name: seq<Byte>, r: Lookup, r': Lookup)
    requires IsLookup(v, name, r) && IsLookup(v, name, r')
    ensures r == r'
  {
  }

  /** The four bytes that execute looks at: what the file has of them, and behind it `stale`, which
      the array held before. */
  function Head(v: Volume, inode: nat, stale: seq<Byte>): (h: seq<Byte>)
    requires |stale| == 4
    ensures |h| == 4
  {
    if inode < |v.inodes| && BlockOk(v, v.inodes[inode], 0) then
      var node := v.inodes[inode];
      seq(4, k requires 0 <= k < 4 => if k < node.length then HeadByte(v, node, k) else stale[k])
    else stale
  }

  function HeadByte(v: Volume, node: Inode, k: nat): Byte
    requires BlockOk(v, node, 0) && k < 4
  {
    v.byteAt(node.blockAt(0) * BLOCK_SIZE + k)
  }

  /** Missing, a program, or a file that is none. */
  function ImageOf(v: Volume, name: seq<Byte>, stale: seq<Byte>): Image
    requires NamesFit(v) && |stale| == 4
  {
    match FindEntry(v, name, 0)
    case NotFound => Missing
    case Found(_, _, inode) => if Head(v, inode, stale) == MAGIC then Executable else NotExecutable
  }

  method ReadHead(v: Volume, inode: nat, check: array<Byte>)
    requires check.Length == 4
    modifies check
    ensures check[..] == Head(v, inode, old(check[..]))
  {
    ghost var was := check[..];
    var n := ReadData(v, inode, 0, check, 0, 4);
    if inode < |v.inodes| && BlockOk(v, v.inodes[inode], 0) {
      var node := v.inodes[inode];
      forall q: nat | q < 4
        ensures BlockOk(v, node, q)
      {
      }
      StoredAt(was, check[..], 0, Flat(v, node, 0, n));
    }
  }

  /** The checks of execute on the name of a command. */
  method CheckImage(v: Volume, name: seq<Byte>, stale: seq<Byte>) returns (image: Image)
    requires NamesFit(v) && |stale| == 4 && NUL !in name
    ensures image == ImageOf(v, name, stale)
  {
    var entry := ReadDentryByName(v, name + [NUL]);
    CStringPrefix(name + [NUL], |name|);
    LookupIsUnique(v, name, entry, FindEntry(v, name, 0));
    if entry.NotFound? {
      return Missing;
    }
    var check := new Byte[4](i requires 0 <= i < 4 => stale[i]);
    assert check[..] == stale;
    ReadHead(v, entry.inode, check);
    if check[0] != 0x7F || check[1] != 0x45 || check[2] != 0x4C || check[3] != 0x46 {
      return NotExecutable;
    }
    assert check[..] == MAGIC;
    return Executable;
  }

  /** The magic number is that of an ELF file. */
  lemma MagicIsElf()
    ensures MAGIC == [127] + Bytes("ELF")
  {
  }

  /** A readable file is a program exactly when its first four bytes are the magic number; of a
      shorter file the rest is what the array held before. */
  lemma ShortProgramIff(v: Volume, i: nat, stale: seq<Byte>)
    requires NamesFit(v) && |stale| == 4
    requires i < |v.dir| && forall j :: 0 <= j < i ==> NameOf(v.dir[j]) != NameOf(v.dir[i])
    requires Readable(v, v.dir[i].inode) && v.inodes[v.dir[i].inode].length < 4
    ensures var contents := Contents(v, v.dir[i].inode);
      ImageOf(v, NameOf(v.dir[i]), stale) ==
      if contents + stale[|contents|..] == MAGIC then Executable else NotExecutable
  {
    var inode := v.dir[i].inode;
    LookupIsUnique(v, NameOf(v.dir[i]), Found(i, v.dir[i].filetype, inode), FindEntry(v, NameOf(v.dir[i]), 0));
    FileBlocks(v, inode);
    assert BlockOk(v, v.inodes[inode], 0);
    var contents := Contents(v, inode);
    assert Head(v, inode, stale) == contents + stale[|contents|..];
  }

  /** A readable file of at least four bytes is a program exactly when its contents say so, under
      every name of its first entry, and whatever the array held before. */
  lemma ProgramIff(v: Volume, i: nat, stale: seq<Byte>)
    requires NamesFit(v) && |stale| == 4
    requires i < |v.dir| && forall j :: 0 <= j < i ==> NameOf(v.dir[j]) != NameOf(v.dir[i])
    requires Readable(v, v.dir[i].inode) && v.inodes[v.dir[i].inode].length >= 4
    ensures ImageOf(v, NameOf(v.dir[i]), stale) ==
      if Contents(v, v.dir[i].inode)[..4] == MAGIC then Executable else NotExecutable
  {
    var inode := v.dir[i].inode;
    LookupIsUnique(v, NameOf(v.dir[i]), Found(i, v.dir[i].filetype, inode), FindEntry(v, NameOf(v.dir[i]), 0));
    FileBlocks(v, inode);
    assert Head(v, inode, stale) == Contents(v, inode)[..4];
  }

  /** An array of 32 bytes can hold the name of a command as a string. */
  ghost predicate NameFits(name: seq<Byte>) {
    exists cmd: seq<Byte> :: |cmd| == FILENAME_LEN && NUL in cmd && CString(cmd) == name
  }

  lemma NameFitsIff(name: seq<Byte>)
    requires NUL !in name
    ensures NameFits(name) <==> |name| <= 31
  {
    if |name| <= 31 {
      var cmd := Padded(name, FILENAME_LEN);
      assert cmd[|name|] == NUL;
      CStringPrefix(cmd, |name|);
    }
    if cmd: seq<Byte> :| |cmd| == FILENAME_LEN && NUL in cmd && CString(cmd) == name {
      assert |name| < |cmd|;
    }
  }

  /** A command line of 32 letters, which execute accepts: its name does not fit the array. */
  lemma LongNameOverruns()
    ensures var command: seq<Byte> := seq(32, _ => 97);
      |command| <= 128 && NUL !in command && SplitsInto(command, command, []) && !NameFits(command)
  {
    var command: seq<Byte> := seq(32, _ => 97);
    WordSplits(command);
    NameFitsIff(command);
  }
}
