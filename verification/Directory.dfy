/** Directory entries: fixed 32-byte name fields that need not be terminated, the kernel's string
    loops over them, lookup by name and reading the directory entry by entry. */
module Directory {
  import opened Memory
  import opened FileSystem

  const FILENAME_LEN: nat := 32

  /** A string in memory: the bytes before the first NUL, or all of them. */
  function CString(s: seq<Byte>): (c: seq<Byte>)
    ensures |c| <= |s| && c == s[..|c|]
    ensures NUL !in c
    ensures |c| < |s| ==> s[|c|] == NUL
  {
    if s == [] || s[0] == NUL then [] else [s[0]] + CString(s[1..])
  }

  lemma {:induction false} CStringPrefix(s: seq<Byte>, k: nat)
    requires k <= |s| && (forall i :: 0 <= i < k ==> s[i] != NUL) && (k < |s| ==> s[k] == NUL)
    ensures CString(s) == s[..k]
    decreases k
  {
    if k > 0 {
      CStringPrefix(s[1..], k - 1);
    }
  }

  function Signed(b: Byte): int { if b < 128 then b else b - 256 }

  lemma SignedIs(b: Byte)
    ensures -128 <= Signed(b) < 128 && (b - Signed(b)) % 256 == 0
  {
  }

  /** The first index below `n` at which the strings differ or both end, or `n`. */
  function Stop(s1: seq<Byte>, s2: seq<Byte>, n: nat): (k: nat)
    ensures k <= n
    ensures k <= |s1| && k <= |s2|
    ensures forall i :: 0 <= i < k ==> s1[i] == s2[i] != NUL
    ensures k < n && k < |s1| && k < |s2| ==> s1[k] != s2[k] || s1[k] == NUL
  {
    if n == 0 || s1 == [] || s2 == [] || s1[0] != s2[0] || s1[0] == NUL then 0
    else 1 + Stop(s1[1..], s2[1..], n - 1)
  }

  /** strncmp: the signed difference at the first mismatch. */
  method Strncmp(s1: seq<Byte>, s2: seq<Byte>, n: nat) returns (r: int)
    requires Stop(s1, s2, n) < n ==> Stop(s1, s2, n) < |s1| && Stop(s1, s2, n) < |s2|
    ensures var k := Stop(s1, s2, n);
      r == if k == n then 0 else Signed(s1[k]) - Signed(s2[k])
  {
    var stop := Stop(s1, s2, n);
    for i := 0 to n
      invariant i <= stop
    {
      if s1[i] != s2[i] || s1[i] == NUL {
        return Signed(s1[i]) - Signed(s2[i]);
      }
    }
    return 0;
  }

  method Strlen(s: seq<Byte>) returns (len: nat)
    requires NUL in s
    ensures len == |CString(s)|
  {
    len := 0;
    while s[len] != NUL
      invariant len < |s| && forall i :: 0 <= i < len ==> s[i] != NUL
      invariant exists i :: len <= i < |s| && s[i] == NUL
      decreases |s| - len
    {
      len := len + 1;
    }
    CStringPrefix(s, len);
  }

  /** strncpy: at most `n` bytes of the string, then NULs up to `n`. */
  method Strncpy(dest: array<Byte>, src: seq<Byte>, n: nat)
    requires n <= dest.Length && n <= |src|
    modifies dest
    ensures dest[..n] == Padded(CString(src[..n]), n)
    ensures dest[n..] == old(dest[n..])
  {
    var i := 0;
    while i < n && src[i] != NUL
      invariant 0 <= i <= n
      invariant forall j :: 0 <= j < i ==> src[j] != NUL && dest[j] == src[j]
      invariant dest[n..] == old(dest[n..])
    {
      dest[i] := src[i];
      i := i + 1;
    }
    assert forall j :: 0 <= j < i ==> src[..n][j] == src[j];
    assert i < n ==> src[..n][i] == src[i];
    CStringPrefix(src[..n], i);
    ghost var k := i;
    while i < n
      invariant k <= i <= n
      invariant forall j :: 0 <= j < k ==> dest[j] == src[j]
      invariant forall j :: k <= j < i ==> dest[j] == NUL
      invariant dest[n..] == old(dest[n..])
    {
      dest[i] := NUL;
      i := i + 1;
    }
  }

  function Padded(s: seq<Byte>, n: nat): (p: seq<Byte>)
    requires |s| <= n
    ensures |p| == n && p[..|s|] == s
  {
    s + seq(n - |s|, _ => NUL)
  }

  // ----- Lookup -----

  ghost predicate NamesFit(v: Volume) {
    forall i :: 0 <= i < |v.dir| ==> |v.dir[i].name| == FILENAME_LEN
  }

  function NameOf(d: Dentry): seq<Byte> { CString(d.name) }

  lemma {:induction false} StopInside(fname: seq<Byte>, name: seq<Byte>, n: nat)
    requires NUL in fname && |name| == n && Stop(fname, name, n) < n
    ensures Stop(fname, name, n) < |fname|
    decreases n
  {
    if fname[0] == name[0] && fname[0] != NUL {
      assert fname == [fname[0]] + fname[1..];
      StopInside(fname[1..], name[1..], n - 1);
    }
  }

  ghost predicate Matches(fname: seq<Byte>, name: seq<Byte>, n: nat) {
    var k := Stop(fname, name, n);
    k == n || (k < |fname| && k < |name| && fname[k] == name[k])
  }

  lemma CStringCons(s: seq<Byte>)
    requires s != [] && s[0] != NUL
    ensures CString(s) == [s[0]] + CString(s[1..]) && CString(s)[1..] == CString(s[1..])
  {
  }

  lemma MatchesCons(fname: seq<Byte>, name: seq<Byte>, n: nat)
    requires fname != [] && name != [] && fname[0] == name[0] != NUL && n > 0
    ensures Matches(fname, name, n) == Matches(fname[1..], name[1..], n - 1)
  {
  }

  lemma MatchAtHead(fname: seq<Byte>, name: seq<Byte>, n: nat)
    requires fname != [] && name != [] && n > 0 && (fname[0] != name[0] || fname[0] == NUL)
    ensures Matches(fname, name, n) <==> fname[0] == name[0]
    ensures CString(fname) == CString(name) <==> fname[0] == name[0]
  {
    if fname[0] != name[0] {
      assert fname[0] != NUL ==> CString(fname)[0] == fname[0];
      assert name[0] != NUL ==> CString(name)[0] == name[0];
    }
  }

  /** The comparison that lookup makes: a string of at most `n` bytes matches a field of `n` bytes
      exactly when the two strings are equal, whether or not the field is terminated. */
  lemma {:induction false} MatchIff(fname: seq<Byte>, name: seq<Byte>, n: nat)
    requires NUL in fname && |name| == n
    ensures Matches(fname, name, n) && |CString(fname)| <= n <==> CString(fname) == CString(name)
    decreases n
  {
    if n > 0 {
      if fname[0] == name[0] && fname[0] != NUL {
        assert fname == [fname[0]] + fname[1..];
        MatchIff(fname[1..], name[1..], n - 1);
        MatchesCons(fname, name, n);
        CStringCons(fname);
        CStringCons(name);
      } else {
        MatchAtHead(fname, name, n);
      }
    }
  }

  datatype Lookup = NotFound | Found(index: nat, filetype: int, inode: nat)

  /** The first entry with the given name. */
  ghost predicate IsLookup(v: Volume, fname: seq<Byte>, r: Lookup) {
    match r
    case NotFound => forall i :: 0 <= i < |v.dir| ==> NameOf(v.dir[i]) != fname
    case Found(index, filetype, inode) =>
      && index < |v.dir| && NameOf(v.dir[index]) == fname
      && filetype == v.dir[index].filetype && inode == v.dir[index].inode
      && forall i :: 0 <= i < index ==> NameOf(v.dir[i]) != fname
  }

  method ReadDentryByName(v: Volume, fname: seq<Byte>) returns (r: Lookup)
    requires NamesFit(v) && NUL in fname
    ensures IsLookup(v, CString(fname), r)
  {
    for i := 0 to |v.dir|
      invariant forall j :: 0 <= j < i ==> NameOf(v.dir[j]) != CString(fname)
    {
      MatchIff(fname, v.dir[i].name, FILENAME_LEN);
      if Stop(fname, v.dir[i].name, FILENAME_LEN) < FILENAME_LEN {
        StopInside(fname, v.dir[i].name, FILENAME_LEN);
      }
      var cmp := Strncmp(fname, v.dir[i].name, FILENAME_LEN);
      var len := Strlen(fname);
      if cmp == 0 && len <= 32 {
        return Found(i, v.dir[i].filetype, v.dir[i].inode);
      }
    }
    return NotFound;
  }

  // ----- Reading the directory -----

  /** An open directory; `position` counts entries. */
  class OpenDirectory {
    var position: nat

    constructor ()
      ensures position == 0
    {
      position := 0;
    }

    /** directory_read into a buffer of at least 32 bytes.  `after` stands for the bytes that
        follow the name field in the kernel's copy of the entry. */
    method DirectoryRead(v: Volume, buf: array?<Byte>, after: seq<Byte>) returns (n: int)
      requires NamesFit(v) && NUL in after
      requires buf != null ==> buf.Length >= FILENAME_LEN
      modifies this, buf
      ensures buf == null ==> n == -1 && position == old(position)
      ensures buf != null && old(position) >= |v.dir| ==>
        n == 0 && position == old(position) && buf[..] == old(buf[..])
      ensures buf != null && old(position) < |v.dir| ==>
        var name := NameOf(v.dir[old(position)]);
        n == |name| && position == old(position) + 1 && buf[..] == name + old(buf[|name|..])
    {
      if buf == null {
        return -1;
      }
      var local := new Byte[FILENAME_LEN];
      var found := ReadDentryByIndex(v, position, local);
      if found.NotFound? {
        return 0;
      }
      n := NameLength(local, after, NameOf(v.dir[position]));
      CopyName(buf, local, n);
      position := position + 1;
    }
  }

  /** The name field of an entry is copied up to its NUL and padded. */
  method ReadDentryByIndex(v: Volume, index: nat, local: array<Byte>) returns (r: Lookup)
    requires NamesFit(v) && local.Length == FILENAME_LEN
    modifies local
    ensures r == if index < |v.dir| then Found(index, v.dir[index].filetype, v.dir[index].inode) else NotFound
    ensures index < |v.dir| ==> local[..] == Padded(NameOf(v.dir[index]), FILENAME_LEN)
    ensures index >= |v.dir| ==> local[..] == old(local[..])
  {
    if index < |v.dir| {
      var name := v.dir[index].name;
      assert name[..FILENAME_LEN] == name;
      Strncpy(local, name, FILENAME_LEN);
      assert local[..FILENAME_LEN] == local[..];
      return Found(index, v.dir[index].filetype, v.dir[index].inode);
    }
    return NotFound;
  }

  /** strlen of the copied name, which for a 32-byte name runs on into what follows, cut to 32. */
  method NameLength(local: array<Byte>, after: seq<Byte>, ghost name: seq<Byte>) returns (n: int)
    requires NUL in after && NUL !in name && |name| <= FILENAME_LEN
    requires local[..] == Padded(name, FILENAME_LEN)
    ensures n == |name|
  {
    n := Strlen(local[..] + after);
    if |name| < FILENAME_LEN {
      CStringPrefix(local[..] + after, |name|);
    } else {
      assert local[..] == name;
      LongName(name, after);
    }
    if n >= FILENAME_LEN {
      n := FILENAME_LEN;
    }
  }

  method CopyName(buf: array<Byte>, local: array<Byte>, n: nat)
    requires n <= local.Length && n <= buf.Length && NUL !in local[..n] && buf != local
    modifies buf
    ensures buf[..] == local[..n] + old(buf[n..])
  {
    CStringPrefix(local[..n], n);
    Strncpy(buf, local[..], n);
    assert buf[..] == buf[..n] + buf[n..];
  }

  lemma {:induction false} LongName(name: seq<Byte>, after: seq<Byte>)
    requires NUL !in name
    ensures |CString(name + after)| >= |name|
    decreases |name|
  {
    if name != [] {
      assert (name + after)[1..] == name[1..] + after;
      LongName(name[1..], after);
    }
  }

  // ----- The client loop -----

  ghost function Names(v: Volume): seq<seq<Byte>> {
    seq(|v.dir|, i requires 0 <= i < |v.dir| => NameOf(v.dir[i]))
  }

  /** The names up to the first empty one, at which a reader takes the directory to end. */
  function UpToEmpty(names: seq<seq<Byte>>): (r: seq<seq<Byte>>)
    ensures |r| <= |names| && r == names[..|r|]
  {
    if names == [] || names[0] == [] then [] else [names[0]] + UpToEmpty(names[1..])
  }

  lemma {:induction false} UpToEmptyIs(names: seq<seq<Byte>>, k: nat)
    requires k <= |names| && (forall i :: 0 <= i < k ==> names[i] != []) && (k < |names| ==> names[k] == [])
    ensures UpToEmpty(names) == names[..k]
    decreases k
  {
    if k > 0 {
      UpToEmptyIs(names[1..], k - 1);
    }
  }

  /** The loop of ls and grep over the directory: read a name until a read returns 0. */
  method ListDirectory(v: Volume, after: seq<Byte>) returns (listed: seq<seq<Byte>>)
    requires NamesFit(v) && NUL in after
    ensures listed == UpToEmpty(Names(v))
  {
    var d := new OpenDirectory();
    var buf := new Byte[33];
    listed := [];
    while true
      invariant fresh(d) && fresh(buf) && buf.Length == 33
      invariant d.position == |listed| <= |v.dir| && listed == Names(v)[..|listed|]
      invariant forall i :: 0 <= i < |listed| ==> listed[i] != []
      decreases |v.dir| - d.position
    {
      var cnt := d.DirectoryRead(v, buf, after);
      if cnt == 0 {
        UpToEmptyIs(Names(v), |listed|);
        return;
      }
      assert cnt != -1;
      buf[cnt] := NUL;
      listed := listed + [buf[..cnt]];
    }
  }

  // ----- Round trip -----

  ghost predicate DistinctNames(v: Volume) {
    forall i, j :: 0 <= i < j < |v.dir| ==> NameOf(v.dir[i]) != NameOf(v.dir[j])
  }

  /** With nonempty names, listing returns every name once, in index order. */
  lemma ListingIsComplete(v: Volume)
    requires forall i :: 0 <= i < |v.dir| ==> NameOf(v.dir[i]) != []
    ensures UpToEmpty(Names(v)) == Names(v)
  {
    UpToEmptyIs(Names(v), |v.dir|);
    assert Names(v)[..|v.dir|] == Names(v);
  }

  /** Looking up the name of entry `i` finds entry `i` exactly when no earlier entry bears it. */
  lemma RoundTripIff(v: Volume, i: nat, r: Lookup)
    requires i < |v.dir| && IsLookup(v, NameOf(v.dir[i]), r)
    ensures r == Found(i, v.dir[i].filetype, v.dir[i].inode)
      <==> forall j :: 0 <= j < i ==> NameOf(v.dir[j]) != NameOf(v.dir[i])
  {
    if r.Found? && r.index < i {
      assert NameOf(v.dir[r.index]) == NameOf(v.dir[i]);
    }
  }

  /** A name as the reader holds it, terminated, stands for the string of its entry. */
  lemma ReturnedName(v: Volume, i: nat)
    requires i < |v.dir|
    ensures CString(NameOf(v.dir[i]) + [NUL]) == NameOf(v.dir[i])
  {
    var name := NameOf(v.dir[i]);
    CStringPrefix(name + [NUL], |name|);
  }

  /** The directory round trip: with distinct nonempty names the listing is complete, and looking up
      any listed name gives the entry it came from. */
  lemma DirectoryRoundTrip(v: Volume)
    requires DistinctNames(v) && forall i :: 0 <= i < |v.dir| ==> NameOf(v.dir[i]) != []
    ensures UpToEmpty(Names(v)) == Names(v)
    ensures forall i: nat, r :: i < |v.dir| && IsLookup(v, CString(Names(v)[i] + [NUL]), r) ==>
              r == Found(i, v.dir[i].filetype, v.dir[i].inode)
  {
    ListingIsComplete(v);
    forall i: nat, r | i < |v.dir| && IsLookup(v, CString(Names(v)[i] + [NUL]), r)
      ensures r == Found(i, v.dir[i].filetype, v.dir[i].inode)
    {
      ReturnedName(v, i);
      RoundTripIff(v, i, r);
    }
  }
}
