// The kernel's reader of FSSO disks.
module FssoReader {
  import opened Bytes
  import opened FssoImage
  import opened FssoRun

  type Buffer = s: seq<byte> | |s| == BLOCK_SIZE witness Zeros(BLOCK_SIZE)

  /** A disk, and what a read past its end leaves in the buffer. */
  datatype Device = Device(bytes: seq<byte>, beyond: Buffer)

  function ReadBlock(d: Device, b: nat): Buffer {
    if BLOCK_SIZE * (b + 1) <= |d.bytes| then d.bytes[BLOCK_SIZE * b..BLOCK_SIZE * (b + 1)] else d.beyond
  }

  const DOT: byte := 46
  const SUPER_SIZE: nat := 92
  const INODES_PER_BLOCK: nat := 13
  const ENTRIES_PER_BLOCK: nat := 3

  // ---- inodes ----------------------------------------------------------

  datatype Inode = Inode(size: nat, typ: byte, direct: seq<nat>)

  function InodeOf(s: seq<byte>): (r: Inode)
    requires |s| == INODE_SIZE
    ensures |r.direct| == DIRECT_BLOCKS
  {
    Inode(GetLe(s[0..4]), s[12],
      seq(DIRECT_BLOCKS, i requires 0 <= i < DIRECT_BLOCKS => GetLe(s[16 + 4 * i..20 + 4 * i])))
  }

  function ReadInode(d: Device, total: nat, n: nat): (r: Option<Inode>)
    ensures r.Some? ==> |r.value.direct| == DIRECT_BLOCKS
  {
    if n >= total then None
    else
      var q := INODE_SIZE * (n % INODES_PER_BLOCK);
      Some(InodeOf(ReadBlock(d, 3 + n / INODES_PER_BLOCK)[q..q + INODE_SIZE]))
  }

  // ---- directories -----------------------------------------------------

  /** The name in a directory entry is `name`. */
  predicate Matches(e: seq<byte>, name: seq<byte>) { name + [0] <= e }

  /** The inode number of the first entry from `j` on that has this name. */
  function ScanEntries(block: Buffer, j: nat, name: seq<byte>): Option<nat>
    decreases ENTRIES_PER_BLOCK - j
  {
    if j >= ENTRIES_PER_BLOCK then None
    else
      var p := ENTRY_SIZE * j;
      var inode := GetLe(block[p..p + 4]);
      if inode != 0 && Matches(block[p + 4..p + ENTRY_SIZE], name) then Some(inode) else ScanEntries(block, j + 1, name)
  }

  function ScanBlocks(d: Device, direct: seq<nat>, i: nat, name: seq<byte>): Option<nat>
    requires |direct| == DIRECT_BLOCKS
    decreases DIRECT_BLOCKS - i
  {
    if i >= DIRECT_BLOCKS || direct[i] == 0 then None
    else
      var r := ScanEntries(ReadBlock(d, direct[i]), 0, name);
      if r.Some? then r else ScanBlocks(d, direct, i + 1, name)
  }

  /** The results of `fsso_find_in_dir`: 0, -1, -2 and -3. */
  datatype Found = Found(inode: nat) | BadInode | NotDirectory | NotFound

  function FindInDir(d: Device, total: nat, dir: nat, name: seq<byte>): Found {
    var inode := ReadInode(d, total, dir);
    if inode.None? then BadInode
    else if inode.value.typ != TYPE_DIR then NotDirectory
    else
      match ScanBlocks(d, inode.value.direct, 0, name)
      case Some(n) => Found(n)
      case None => NotFound
  }

  // ---- paths -----------------------------------------------------------

  function DotPos(path: seq<byte>): (n: nat)
    ensures n <= |path| && DOT !in path[..n] && (n < |path| ==> path[n] == DOT)
  {
    if path == [] || path[0] == DOT then 0
    else
      var n := DotPos(path[1..]);
      assert path[..n + 1] == [path[0]] + path[1..][..n];
      n + 1
  }

  function AfterDot(path: seq<byte>): seq<byte> {
    var n := DotPos(path);
    if n < |path| then path[n + 1..] else []
  }

  /** The non-empty parts of a path between dots, each cut to 255 bytes. */
  function Components(path: seq<byte>): seq<seq<byte>>
    decreases |path|
  {
    if path == [] then []
    else (if DotPos(path) == 0 then [] else [Cut(path[..DotPos(path)])]) + Components(AfterDot(path))
  }

  /** Directory lookup folded over the components. */
  function Walk(d: Device, total: nat, current: nat, cs: seq<seq<byte>>): Option<nat>
    decreases |cs|
  {
    if cs == [] then Some(current)
    else
      match FindInDir(d, total, current, cs[0])
      case Found(n) => Walk(d, total, n, cs[1..])
      case _ => None
  }

  function ResolvePath(d: Device, total: nat, path: seq<byte>): Option<nat> {
    Walk(d, total, 0, Components(path))
  }

  // ---- files -----------------------------------------------------------

  /** The bytes of the direct blocks from the `i`th on, at most `room` of them. */
  function ReadBlocks(d: Device, direct: seq<nat>, i: nat, room: nat): (r: seq<byte>)
    requires |direct| == DIRECT_BLOCKS
    ensures |r| <= room
    decreases DIRECT_BLOCKS - i
  {
    if i >= DIRECT_BLOCKS || direct[i] == 0 || room == 0 then []
    else if room <= BLOCK_SIZE then ReadBlock(d, direct[i])[..room]
    else ReadBlock(d, direct[i]) + ReadBlocks(d, direct, i + 1, room - BLOCK_SIZE)
  }

  /** The results of `fsso_read_file`: the bytes read, -1 and -2. */
  datatype ReadResult = Read(bytes: seq<byte>) | BadRead | NotFile

  function ReadFile(d: Device, total: nat, n: nat, maxSize: nat): (r: ReadResult)
    ensures r.Read? ==> |r.bytes| <= maxSize
  {
    var inode := ReadInode(d, total, n);
    if inode.None? then BadRead
    else if inode.value.typ != TYPE_FILE then NotFile
    else Read(ReadBlocks(d, inode.value.direct, 0, maxSize))
  }

  // ---- the code --------------------------------------------------------

  method WordOf(s: seq<byte>, p: nat) returns (v: nat)
    requires p + 4 <= |s|
    ensures v == GetLe(s[p..p + 4])
  {
    v := GetLe(s[p..p + 4]);
  }

  /** The byte-by-byte comparison of a directory entry's name. */
  method NameMatches(block: Buffer, p: nat, name: seq<byte>) returns (same: bool)
    requires p + 256 <= BLOCK_SIZE && |name| <= MAX_FILENAME && NulFree(name)
    ensures same <==> Matches(block[p..p + 256], name)
  {
    var k := 0;
    while block[p + k] != 0 || k < |name|
      invariant k <= |name| && block[p..p + 256][..k] == name[..k]
      decreases |name| - k
    {
      if block[p + k] != (if k < |name| then name[k] else 0) {
        assert (name + [0])[k] != block[p..p + 256][k];
        return false;
      }
      k := k + 1;
    }
    assert name + [0] == block[p..p + 256][..k + 1];
    return true;
  }

  /** `FSSO_Filesystem` and the disk it was mounted from. */
  class Filesystem {
    const disk: array<byte>
    const beyond: Buffer
    var superblock: seq<byte>

    constructor (disk: array<byte>, beyond: Buffer)
      ensures this.disk == disk && this.beyond == beyond && superblock == Zeros(SUPER_SIZE)
    {
      this.disk, this.beyond, superblock := disk, beyond, Zeros(SUPER_SIZE);
    }

    ghost function Dev(): Device
      reads disk
    {
      Device(disk[..], beyond)
    }

    ghost predicate Valid()
      reads this
    {
      |superblock| == SUPER_SIZE
    }

    function Total(): nat
      requires Valid()
      reads this
    {
      GetLe(superblock[16..20])
    }

    method FetchBlock(b: nat) returns (buffer: Buffer)
      ensures buffer == ReadBlock(Dev(), b)
    {
      if BLOCK_SIZE * (b + 1) <= disk.Length {
        buffer := disk[BLOCK_SIZE * b..BLOCK_SIZE * (b + 1)];
      } else {
        buffer := beyond;
      }
    }

    /** `fsso_mount`. */
    method Mount() returns (ok: bool)
      requires Valid()
      modifies this
      ensures Valid()
      ensures ok <==> GetLe(ReadBlock(Dev(), 0)[0..8]) == FSSO_MAGIC
      ensures superblock == if ok then ReadBlock(Dev(), 0)[..SUPER_SIZE] else old(superblock)
    {
      var buffer := FetchBlock(0);
      ok := GetLe(buffer[0..8]) == FSSO_MAGIC;
      if ok {
        superblock := buffer[..SUPER_SIZE];
      }
    }

    /** `fsso_read_inode`. */
    method FetchInode(n: nat) returns (r: Option<Inode>)
      requires Valid()
      ensures r == ReadInode(Dev(), Total(), n)
    {
      if n >= Total() {
        return None;
      }
      var buffer := FetchBlock(3 + n / INODES_PER_BLOCK);
      var q := INODE_SIZE * (n % INODES_PER_BLOCK);
      return Some(InodeOf(buffer[q..q + INODE_SIZE]));
    }

    /** The entries of one directory block. */
    method SearchBlock(buffer: Buffer, name: seq<byte>) returns (r: Option<nat>)
      requires |name| <= MAX_FILENAME && NulFree(name)
      ensures r == ScanEntries(buffer, 0, name)
    {
      hide Matches;
      var j := 0;
      while j < BLOCK_SIZE / ENTRY_SIZE
        invariant j <= ENTRIES_PER_BLOCK && ScanEntries(buffer, j, name) == ScanEntries(buffer, 0, name)
      {
        var inode := WordOf(buffer, ENTRY_SIZE * j);
        if inode != 0 {
          var same := NameMatches(buffer, ENTRY_SIZE * j + 4, name);
          if same {
            return Some(inode);
          }
        }
        j := j + 1;
      }
      return None;
    }

    /** `fsso_find_in_dir`. */
    method FindName(dir: nat, name: seq<byte>) returns (r: Found)
      requires Valid() && |name| <= MAX_FILENAME && NulFree(name)
      ensures r == FindInDir(Dev(), Total(), dir, name)
    {
      hide ReadInode, ScanEntries;
      var inode := FetchInode(dir);
      if inode.None? {
        return BadInode;
      }
      if inode.value.typ != TYPE_DIR {
        return NotDirectory;
      }
      var direct, i := inode.value.direct, 0;
      while i < DIRECT_BLOCKS
        invariant i <= DIRECT_BLOCKS && ScanBlocks(Dev(), direct, i, name) == ScanBlocks(Dev(), direct, 0, name)
      {
        if direct[i] == 0 {
          break;
        }
        var buffer := FetchBlock(direct[i]);
        var n := SearchBlock(buffer, name);
        if n.Some? {
          return Found(n.value);
        }
        i := i + 1;
      }
      return NotFound;
    }

    /** The next component, up to a dot or the end: where it ends and what of it is kept. */
    method NextComponent(path: seq<byte>, start: nat) returns (component: seq<byte>, p: nat)
      requires start <= |path|
      ensures p == start + DotPos(path[start..]) && component == Cut(path[start..p])
    {
      hide Cut;
      p, component := start, [];
      CutMore([], 0);
      while p < |path| && path[p] != DOT
        invariant start <= p <= |path| && component == Cut(path[start..p])
        invariant p + DotPos(path[p..]) == start + DotPos(path[start..])
      {
        if |component| < MAX_FILENAME {
          component := component + [path[p]];
        }
        assert path[p..][1..] == path[p + 1..];
        CutMore(path[start..p], path[p]);
        assert path[start..p + 1] == path[start..p] + [path[p]];
        p := p + 1;
      }
    }

    /** `fsso_resolve_path`. */
    method Resolve(path: seq<byte>) returns (r: Option<nat>)
      requires Valid() && NulFree(path)
      ensures r == ResolvePath(Dev(), Total(), path)
    {
      hide FindInDir, DotPos, Components, Walk, Cut;
      var current, p := 0, 0;
      assert path[0..] == path;
      while p < |path|
        invariant p <= |path|
        invariant ResolvePath(Dev(), Total(), path)
          == Walk(Dev(), Total(), current, Components(path[p..]))
      {
        ComponentsStep(path, p);
        var component, q := NextComponent(path, p);
        CutEmpty(path[p..q]);
        p := if q < |path| && path[q] == DOT then q + 1 else q;
        if |component| != 0 {
          WalkStep(Dev(), Total(), current, component, Components(path[p..]));
          var next := FindName(current, component);
          if !next.Found? {
            return None;
          }
          current := next.inode;
        } else {
          assert [] + Components(path[p..]) == Components(path[p..]);
        }
      }
      NoComponents(Dev(), Total(), current, path[p..]);
      return Some(current);
    }

    /** `fsso_read_file`, into a buffer. */
    method ReadInto(n: nat, out: array<byte>, maxSize: nat) returns (count: int)
      requires Valid() && maxSize <= out.Length && out != disk
      modifies out
      ensures var r := ReadFile(Dev(), Total(), n, maxSize);
        && count == (if r.Read? then |r.bytes| else if r.BadRead? then -1 else -2)
        && out[..] == if r.Read? then r.bytes + old(out[..])[|r.bytes|..] else old(out[..])
    {
      hide ReadInode, ReadBlocks;
      var inode := FetchInode(n);
      if inode.None? {
        return -1;
      }
      if inode.value.typ != TYPE_FILE {
        return -2;
      }
      count := CopyBlocks(inode.value.direct, out, maxSize);
    }

    method CopyBlocks(direct: seq<nat>, out: array<byte>, maxSize: nat) returns (bytesRead: nat)
      requires |direct| == DIRECT_BLOCKS && maxSize <= out.Length && out != disk
      modifies out
      ensures var r := ReadBlocks(Dev(), direct, 0, maxSize); bytesRead == |r| && out[..] == r + old(out[..])[|r|..]
    {
      hide ReadBlock, ReadBlocks, Splice;
      ghost var d := Dev();
      bytesRead := 0;
      var i := 0;
      ghost var done: seq<byte>, was := [], out[..];
      while i < DIRECT_BLOCKS
        invariant i <= DIRECT_BLOCKS && bytesRead == |done| <= maxSize
        invariant Dev() == d
        invariant done + ReadBlocks(d, direct, i, maxSize - bytesRead) == ReadBlocks(d, direct, 0, maxSize)
        invariant out[..] == done + was[|done|..]
      {
        if direct[i] == 0 || bytesRead >= maxSize {
          break;
        }
        ghost var room := maxSize - bytesRead;
        var block := FetchBlock(direct[i]);
        var toCopy := BLOCK_SIZE;
        if bytesRead + toCopy > maxSize {
          toCopy := maxSize - bytesRead;
        }
        CopyOut(out, bytesRead, block, toCopy);
        SpliceAfter(done, was, block[..toCopy]);
        BlocksStep(d, direct, i, room, done);
        done := done + block[..toCopy];
        bytesRead := bytesRead + toCopy;
        i := i + 1;
      }
      BlocksEnd(d, direct, i, maxSize - bytesRead);
      assert done + [] == done;
    }
  }

  lemma SpliceAfter(done: seq<byte>, was: seq<byte>, s: seq<byte>)
    requires |done| + |s| <= |was|
    ensures Splice(done + was[|done|..], |done|, s) == done + s + was[|done + s|..]
  {
  }

  /** One more block behind what has been copied. */
  lemma BlocksStep(d: Device, direct: seq<nat>, i: nat, room: nat, done: seq<byte>)
    requires |direct| == DIRECT_BLOCKS && i < DIRECT_BLOCKS && direct[i] != 0 && room > 0
    ensures var n := if room <= BLOCK_SIZE then room else BLOCK_SIZE;
      done + ReadBlocks(d, direct, i, room)
        == done + ReadBlock(d, direct[i])[..n] + ReadBlocks(d, direct, i + 1, room - n)
  {
    hide ReadBlock;
    var n := if room <= BLOCK_SIZE then room else BLOCK_SIZE;
    var block, rest := ReadBlock(d, direct[i])[..n], ReadBlocks(d, direct, i + 1, room - n);
    assert ReadBlocks(d, direct, i, room) == block + rest;
    assert done + (block + rest) == done + block + rest;
  }

  lemma BlocksEnd(d: Device, direct: seq<nat>, i: nat, room: nat)
    requires |direct| == DIRECT_BLOCKS && i <= DIRECT_BLOCKS && (i == DIRECT_BLOCKS || direct[i] == 0 || room == 0)
    ensures ReadBlocks(d, direct, i, room) == []
  {
  }

  /** Cutting a name to the longest an entry can hold, a byte at a time. */
  lemma CutMore(s: seq<byte>, c: byte)
    ensures Cut(s + [c]) == (if |Cut(s)| < MAX_FILENAME then Cut(s) + [c] else Cut(s)) && Cut([]) == []
  {
  }

  lemma CutEmpty(s: seq<byte>)
    ensures |Cut(s)| == 0 <==> |s| == 0
  {
  }

  lemma WalkStep(d: Device, total: nat, current: nat, c: seq<byte>, cs: seq<seq<byte>>)
    ensures var f := FindInDir(d, total, current, c);
      Walk(d, total, current, [c] + cs) == if f.Found? then Walk(d, total, f.inode, cs) else None
  {
    hide FindInDir;
    assert ([c] + cs)[1..] == cs;
  }

  lemma NoComponents(d: Device, total: nat, current: nat, path: seq<byte>)
    requires path == []
    ensures Walk(d, total, current, Components(path)) == Some(current)
  {
  }

  lemma ComponentsStep(path: seq<byte>, p: nat)
    requires p < |path|
    ensures var n := DotPos(path[p..]);
      && p + n <= |path| && path[p..][..n] == path[p..p + n] && (p + n < |path| ==> path[p + n] == DOT)
      && Components(path[p..]) == (if n == 0 then [] else [Cut(path[p..p + n])])
                                  + Components(path[if p + n < |path| then p + n + 1 else p + n..])
  {
    hide DotPos, Cut;
    var rest := path[p..];
    var n := DotPos(rest);
    assert rest[..n] == path[p..p + n];
    assert n < |rest| ==> AfterDot(rest) == path[p + n + 1..];
  }

  method CopyOut(out: array<byte>, at: nat, block: Buffer, n: nat)
    requires at + n <= out.Length && n <= BLOCK_SIZE
    modifies out
    ensures out[..] == Splice(old(out[..]), at, block[..n])
  {
    ghost var was := out[..];
    var j := 0;
    while j < n
      invariant j <= n && out[..] == Splice(was, at, block[..j])
    {
      out[at + j] := block[j];
      j := j + 1;
    }
  }
}
