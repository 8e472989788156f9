// Reading an FSSO disk gives back what was put on it.
module FssoRoundTrip {
  import opened Bytes
  import opened FssoImage
  import opened FssoParts
  import opened FssoRun
  import opened FssoReader
  import opened FssoWriter

  // ---- inodes ----------------------------------------------------------

  function WriterAddress(n: nat): nat { INODE_TABLE + INODE_SIZE * n }

  function ReaderAddress(n: nat): nat {
    BLOCK_SIZE * (3 + n / INODES_PER_BLOCK) + INODE_SIZE * (n % INODES_PER_BLOCK)
  }

  /** The writer packs inodes without gaps, the reader 13 to a block; they mean the same place exactly for
      the first 13. */
  lemma InodeAddresses(n: nat)
    ensures ReaderAddress(n) == WriterAddress(n) + 36 * (n / INODES_PER_BLOCK)
    ensures ReaderAddress(n) == WriterAddress(n) <==> n < INODES_PER_BLOCK
  {
    assert n == INODES_PER_BLOCK * (n / INODES_PER_BLOCK) + n % INODES_PER_BLOCK;
  }

  function Dev(fs: Fs, beyond: Buffer): Device
    requires WellFormed(fs)
  {
    Device(Disk(fs), beyond)
  }

  /** The bytes of inode `n` as the writer left them. */
  function InodeAs(fs: Fs, n: nat): (r: seq<byte>)
    requires WellFormed(fs)
    ensures |r| == INODE_SIZE
  {
    if n <= |fs.slots| then TableInode(fs.slots, n) else Zeros(INODE_SIZE)
  }

  /** The inode with number `n` of a table. */
  function TableInode(slots: seq<Slot>, n: nat): (r: seq<byte>)
    requires SmallSlots(slots) && n <= |slots|
    ensures |r| == INODE_SIZE
  {
    if n == 0 then RootInode() else SlotInode(slots[n - 1], First(slots, n - 1))
  }

  lemma TableInodeBefore(slots: seq<Slot>, n: nat)
    requires SmallSlots(slots) && n < |slots|
    ensures TableInode(slots[..|slots| - 1], n) == TableInode(slots, n)
  {
    hide RootInode, SlotInode, StoredBlocks;
    assert n > 0 ==> slots[..|slots| - 1][..n - 1] == slots[..n - 1];
  }

  lemma {:induction false} SlotInTable(slots: seq<Slot>, n: nat)
    requires SmallSlots(slots) && n <= |slots|
    ensures At(Table(slots), INODE_SIZE * n, TableInode(slots, n))
    decreases |slots|
  {
    hide RootInode, SlotInode, StoredBlocks;
    if n < |slots| {
      var m := |slots| - 1;
      SlotInTable(slots[..m], n);
      TableInodeBefore(slots, n);
      InFront(Table(slots[..m]), SlotInode(slots[m], First(slots, m)), INODE_SIZE * n, TableInode(slots, n));
    }
  }

  lemma InFront(a: seq<byte>, b: seq<byte>, p: nat, s: seq<byte>)
    requires At(a, p, s)
    ensures At(a + b, p, s)
  {
    AtParts(a, b);
    AtInside(a + b, 0, a, p, s);
  }

  lemma InodeInTable(fs: Fs, n: nat)
    requires WellFormed(fs) && n < INODES_PER_BLOCK
    ensures At(Filled(Table(fs.slots), ROOT_BLOCK - INODE_TABLE), INODE_SIZE * n, InodeAs(fs, n))
  {
    hide SlotInode, RootInode, Table;
    var table, size := Table(fs.slots), ROOT_BLOCK - INODE_TABLE;
    if n <= |fs.slots| {
      SlotInTable(fs.slots, n);
      InFront(table, Zeros(size - |table|), INODE_SIZE * n, InodeAs(fs, n));
    }
  }

  lemma SliceOfSlice(s: seq<byte>, a: nat, b: nat, lo: nat, hi: nat)
    requires a <= b <= |s| && lo <= hi <= b - a
    ensures s[a..b][lo..hi] == s[a + lo..a + hi]
  {
    var t, u := s[a..b], s[a + lo..a + hi];
    assert |t[lo..hi]| == |u|;
    assert forall i :: 0 <= i < |u| ==> t[lo..hi][i] == t[lo + i] == s[a + (lo + i)] == u[i];
  }

  lemma FirstInodes(n: nat)
    requires n < INODES_PER_BLOCK
    ensures n / INODES_PER_BLOCK == 0 && n % INODES_PER_BLOCK == n
  {
  }

  /** Below 13 the reader gets the bytes the writer wrote. */
  lemma InodeReads(fs: Fs, beyond: Buffer, n: nat)
    requires WellFormed(fs) && n < INODES_PER_BLOCK && n < fs.totalInodes
    ensures ReadInode(Dev(fs, beyond), fs.totalInodes, n) == Some(InodeOf(InodeAs(fs, n)))
  {
    hide InodeOf, InodeAs, Table, Disk, Filled, ReadInode;
    var d, p := Dev(fs, beyond), INODE_TABLE + INODE_SIZE * n;
    InodeOnDisk(fs, n);
    InodeInFirstBlock(d, fs.totalInodes, n);
    assert d.bytes == Disk(fs);
    assert d.bytes[p..p + INODE_SIZE] == InodeAs(fs, n);
  }

  lemma InodeOnDisk(fs: Fs, n: nat)
    requires WellFormed(fs) && n < INODES_PER_BLOCK
    ensures At(Disk(fs), INODE_TABLE + INODE_SIZE * n, InodeAs(fs, n)) && |InodeAs(fs, n)| == INODE_SIZE
    ensures |Disk(fs)| >= 4096
  {
    hide InodeAs, Table, Disk, Filled;
    var filled, q := Filled(Table(fs.slots), ROOT_BLOCK - INODE_TABLE), INODE_SIZE * n;
    InodeInTable(fs, n);
    DiskTable(fs);
    AtInside(Disk(fs), INODE_TABLE, filled, q, InodeAs(fs, n));
  }

  lemma InodeInFirstBlock(d: Device, total: nat, n: nat)
    requires n < INODES_PER_BLOCK && n < total && 4096 <= |d.bytes|
    ensures var p := INODE_TABLE + INODE_SIZE * n; ReadInode(d, total, n) == Some(InodeOf(d.bytes[p..p + INODE_SIZE]))
  {
    hide InodeOf;
    var q := INODE_SIZE * n;
    FirstInodes(n);
    SliceOfSlice(d.bytes, 3072, 4096, q, q + INODE_SIZE);
    assert ReadBlock(d, 3 + n / INODES_PER_BLOCK)[q..q + INODE_SIZE] == d.bytes[3072 + q..3072 + q + INODE_SIZE];
  }

  /** Where the inode table is on a disk. */
  lemma DiskTable(fs: Fs)
    requires WellFormed(fs)
    ensures At(Disk(fs), INODE_TABLE, Filled(Table(fs.slots), ROOT_BLOCK - INODE_TABLE))
  {
    hide Image, Table, Filled;
    TableRegion(PartsOf(fs));
  }

  lemma {:induction false} DirectAt(first: nat, n: nat, i: nat)
    requires i < n
    ensures At(Directs(first, n), 4 * i, PutLe(first + i, 4))
  {
    hide PutLe;
    if i < n - 1 {
      DirectAt(first, n - 1, i);
      AtParts(Directs(first, n - 1), PutLe(first + n - 1, 4));
      AtInside(Directs(first, n), 0, Directs(first, n - 1), 4 * i, PutLe(first + i, 4));
    }
  }

  /** The fields of an inode come back. */
  lemma InodeFields(size: nat, typ: byte, first: nat, blocks: nat)
    requires size < TWO32 && first + DIRECT_BLOCKS < TWO32 && blocks <= DIRECT_BLOCKS
    ensures var r := InodeOf(InodeBytes(size, typ, first, blocks));
      && r.size == size && r.typ == typ
      && forall i :: 0 <= i < DIRECT_BLOCKS ==> r.direct[i] == if i < blocks then first + i else 0
  {
    hide PutLe, GetLe, Directs;
    var s := InodeBytes(size, typ, first, blocks);
    AtParts(InodeHead(size, typ) + Directs(first, blocks), Zeros(60 - 4 * blocks));
    AtParts(InodeHead(size, typ), Directs(first, blocks));
    AtInside(s, 0, InodeHead(size, typ) + Directs(first, blocks), 16, Directs(first, blocks));
    assert s[0..4] == PutLe(size, 4);
    Pow256Values();
    GetPutLe(size, 4);
    forall i | 0 <= i < DIRECT_BLOCKS
      ensures InodeOf(s).direct[i] == if i < blocks then first + i else 0
    {
      if i < blocks {
        DirectAt(first, blocks, i);
        AtInside(s, 16, Directs(first, blocks), 4 * i, PutLe(first + i, 4));
        GetPutLe(first + i, 4);
      } else {
        assert s[16 + 4 * i..20 + 4 * i] == Zeros(4);
        WordZero();
        GetPutLe(0, 4);
      }
    }
  }

  /** What kind of inode the reader finds. */
  lemma InodeKinds(fs: Fs, n: nat)
    requires WellFormed(fs)
    ensures InodeOf(InodeAs(fs, n)).typ
      == if n == 0 then TYPE_DIR else if n <= |fs.slots| && fs.slots[n - 1].Stored? then TYPE_FILE else 0
  {
    hide PutLe, GetLe, Directs;
  }

  // ---- directories -----------------------------------------------------

  /** The first entry from `j` on that has this name. */
  function Lookup(es: seq<Entry>, j: nat, name: seq<byte>): Option<nat>
    decreases |es| - j
  {
    if j >= |es| then None else if es[j].name == name then Some(es[j].inode) else Lookup(es, j + 1, name)
  }

  lemma NameField(stored: seq<byte>, name: seq<byte>)
    requires NulFree(stored) && NulFree(name) && |stored| <= MAX_FILENAME && |name| <= MAX_FILENAME
    ensures Matches(stored + Zeros(256 - |stored|), name) <==> stored == name
  {
    var e := stored + Zeros(256 - |stored|);
    CStrReads(e, 0, stored);
    if name + [0] <= e {
      assert e[|name|] == (name + [0])[|name|] == 0;
      assert e[0..|name|] == (name + [0])[..|name|] == name;
      CStrReads(e, 0, name);
    }
  }

  /** One slot of the root block. */
  lemma EntryReads(es: seq<Entry>, j: nat, name: seq<byte>)
    requires ShortNames(es) && Inodes(es) && |es| <= ROOT_ENTRIES && j < |es| && NulFree(name) && |name| <= MAX_FILENAME
    ensures var b := Filled(RootBytes(es), BLOCK_SIZE);
      Matches(b[ENTRY_SIZE * j + 4..ENTRY_SIZE * j + ENTRY_SIZE], name) <==> es[j].name == name
  {
    hide RootBytes, PutLe, Matches;
    var root, q, e := RootBytes(es), ENTRY_SIZE * j, es[j];
    var b := Filled(root, BLOCK_SIZE);
    EntryAt(es, j);
    AtParts(root, Zeros(BLOCK_SIZE - |root|));
    AtInside(b, 0, root, q, EntryBytes(e));
    assert EntryBytes(e) == PutLe(e.inode, 4) + (e.name + Zeros(256 - |e.name|));
    AtSplit(b, q, PutLe(e.inode, 4), e.name + Zeros(256 - |e.name|));
    NameField(e.name, name);
  }

  lemma {:induction false} RootScan(es: seq<Entry>, j: nat, name: seq<byte>)
    requires ShortNames(es) && Inodes(es) && |es| <= ROOT_ENTRIES && NulFree(name) && |name| <= MAX_FILENAME
    ensures ScanEntries(Filled(RootBytes(es), BLOCK_SIZE), j, name) == Lookup(es, j, name)
    decreases ROOT_ENTRIES - j
  {
    hide RootBytes, Filled, GetLe, Matches;
    if j < ROOT_ENTRIES {
      RootScan(es, j + 1, name);
      if j < |es| {
        SlotNumber(es, j);
        EntryReads(es, j, name);
      } else {
        SlotNumbersZero(es, j);
      }
    }
  }

  lemma RootBlockReads(fs: Fs, beyond: Buffer)
    requires WellFormed(fs)
    ensures ReadBlock(Dev(fs, beyond), FIRST_DATA_BLOCK) == Filled(RootBytes(Named(fs.slots)), BLOCK_SIZE)
  {
    hide Image, Filled, RootBytes, Named;
    RootRegion(PartsOf(fs));
  }

  /** Looking a name up in the root finds the first entry of that name. */
  lemma FindInRoot(fs: Fs, beyond: Buffer, name: seq<byte>)
    requires WellFormed(fs) && NulFree(name) && |name| <= MAX_FILENAME
    ensures FindInDir(Dev(fs, beyond), fs.totalInodes, 0, name)
      == if Lookup(Named(fs.slots), 0, name).Some? then Found(Lookup(Named(fs.slots), 0, name).value) else NotFound
  {
    hide Disk, Filled, RootBytes, Named, InodeOf, ReadBlock, ScanEntries, Lookup, InodeBytes;
    var d, es := Dev(fs, beyond), Named(fs.slots);
    InodeReads(fs, beyond, 0);
    InodeFields(0, TYPE_DIR, FIRST_DATA_BLOCK, 1);
    NamedInodes(fs.slots);
    RootScan(es, 0, name);
    RootBlockReads(fs, beyond);
    var direct := InodeOf(RootInode()).direct;
    assert direct[0] == FIRST_DATA_BLOCK && direct[1] == 0;
    assert ScanBlocks(d, direct, 1, name) == None;
  }

  /** Nothing but the root is a directory. */
  lemma FindElsewhere(fs: Fs, beyond: Buffer, n: nat, name: seq<byte>)
    requires WellFormed(fs) && 0 < n < INODES_PER_BLOCK && n < fs.totalInodes
    ensures FindInDir(Dev(fs, beyond), fs.totalInodes, n, name) == NotDirectory
  {
    hide Disk, InodeOf, ScanBlocks, InodeAs;
    InodeReads(fs, beyond, n);
    InodeKinds(fs, n);
  }

  // ---- files -----------------------------------------------------------

  function Min(a: nat, b: nat): nat { if a < b then a else b }

  /** Where a file's blocks are in the data region. */
  lemma {:induction false} PaddedAt(slots: seq<Slot>, k: nat)
    requires k < |slots| && slots[k].Stored?
    ensures At(Packed(slots), BLOCK_SIZE * StoredBlocks(slots[..k]), Padded(slots[k].data))
    decreases |slots|
  {
    hide Padded, StoredBlocks;
    var m := |slots| - 1;
    if k < m {
      PaddedAt(slots[..m], k);
      assert slots[..m][..k] == slots[..k];
      var last := if slots[m].Stored? then Padded(slots[m].data) else [];
      AtParts(Packed(slots[..m]), last);
      AtInside(Packed(slots), 0, Packed(slots[..m]), BLOCK_SIZE * StoredBlocks(slots[..k]), Padded(slots[k].data));
    }
  }

  /** The `i`th block of a file. */
  lemma FileBlock(fs: Fs, beyond: Buffer, k: nat, i: nat)
    requires WellFormed(fs) && k < |fs.slots| && fs.slots[k].Stored? && i < SlotBlocks(fs.slots[k])
    ensures ReadBlock(Dev(fs, beyond), First(fs.slots, k) + i)
      == Padded(fs.slots[k].data)[BLOCK_SIZE * i..BLOCK_SIZE * (i + 1)]
  {
    hide Image, Filled, Packed, Padded, SmallSlots, StoredBlocks, Named, NamedBlocks, ShortNames;
    var b, data, size := First(fs.slots, k) + i, fs.slots[k].data, BLOCK_SIZE * (fs.totalBlocks - 12);
    var q := BLOCK_SIZE * StoredBlocks(fs.slots[..k]);
    StoredUpTo(fs.slots, k, |fs.slots|);
    DataRegion(PartsOf(fs));
    PaddedAt(fs.slots, k);
    FilledStarts(Packed(fs.slots), size);
    AtInside(Filled(Packed(fs.slots), size), 0, Packed(fs.slots), q, Padded(data));
    AtInside(Disk(fs), DATA, Filled(Packed(fs.slots), size), q, Padded(data));
    AtSlice(Disk(fs), DATA + q, Padded(data), BLOCK_SIZE * i, BLOCK_SIZE * (i + 1));
  }

  lemma FilledStarts(used: seq<byte>, size: nat)
    requires |used| <= size
    ensures At(Filled(used, size), 0, used)
  {
  }

  /** The front of what is left, block by block. */
  lemma RestInBlocks(all: seq<byte>, lo: nat, hi: nat, room: nat)
    requires lo <= hi <= |all|
    ensures var block, rest, more := all[lo..hi], all[lo..], all[hi..];
      && (room <= hi - lo ==> block[..room] == rest[..room])
      && (room > hi - lo ==> block + more[..Min(room - (hi - lo), |more|)] == rest[..Min(room, |rest|)])
  {
    assert all[lo..] == all[lo..hi] + all[hi..];
  }

  lemma {:induction false} BlocksRead(fs: Fs, beyond: Buffer, k: nat, direct: seq<nat>, i: nat, room: nat)
    requires WellFormed(fs) && k < |fs.slots| && fs.slots[k].Stored? && i <= SlotBlocks(fs.slots[k])
    requires |direct| == DIRECT_BLOCKS
    requires forall j :: 0 <= j < DIRECT_BLOCKS ==>
      direct[j] == if j < SlotBlocks(fs.slots[k]) then First(fs.slots, k) + j else 0
    ensures var rest := Padded(fs.slots[k].data)[BLOCK_SIZE * i..];
      ReadBlocks(Dev(fs, beyond), direct, i, room) == rest[..Min(room, |rest|)]
    decreases DIRECT_BLOCKS - i
  {
    hide Disk, Filled, Packed, StoredBlocks, Named, NamedBlocks, ShortNames, ReadBlock, Padded;
    var all := Padded(fs.slots[k].data);
    var rest := all[BLOCK_SIZE * i..];
    if i < SlotBlocks(fs.slots[k]) && room > 0 {
      FileBlock(fs, beyond, k, i);
      RestInBlocks(all, BLOCK_SIZE * i, BLOCK_SIZE * (i + 1), room);
      if room > BLOCK_SIZE {
        BlocksRead(fs, beyond, k, direct, i + 1, room - BLOCK_SIZE);
      }
    }
  }

  /** Reading a stored file gives its data padded to whole blocks, as far as the buffer goes. */
  lemma FileReads(fs: Fs, beyond: Buffer, k: nat, maxSize: nat)
    requires WellFormed(fs) && k < |fs.slots| && fs.slots[k].Stored? && k + 1 < INODES_PER_BLOCK
    ensures var all := Padded(fs.slots[k].data);
      ReadFile(Dev(fs, beyond), fs.totalInodes, k + 1, maxSize) == Read(all[..Min(maxSize, |all|)])
  {
    hide Disk, Filled, Packed, Table, Named, NamedBlocks, ShortNames, InodeOf, InodeBytes, StoredBlocks, ReadBlocks,
      Padded;
    var s := fs.slots[k];
    InodeReads(fs, beyond, k + 1);
    StoredUpTo(fs.slots, k, |fs.slots|);
    InodeFields(|s.data|, TYPE_FILE, First(fs.slots, k), SlotBlocks(s));
    BlocksRead(fs, beyond, k, InodeOf(InodeAs(fs, k + 1)).direct, 0, maxSize);
    assert Padded(s.data)[0..] == Padded(s.data);
  }

  // ---- mounting --------------------------------------------------------

  /** Mounting a disk succeeds, and the reader then knows its number of inodes. */
  lemma Mounts(fs: Fs, beyond: Buffer)
    requires WellFormed(fs)
    ensures var block := ReadBlock(Dev(fs, beyond), 0);
      GetLe(block[0..8]) == FSSO_MAGIC && GetLe(block[..SUPER_SIZE][16..20]) == fs.totalInodes
  {
    hide Image, SuperBytes, GetLe, Named, NamedBlocks, StoredBlocks;
    var x := PartsOf(fs);
    SuperRegion(x);
    SuperFields(Image(x), 0, x.totalBlocks, x.totalInodes, x.freeBlocks, x.freeInodes);
    var block := ReadBlock(Dev(fs, beyond), 0);
    assert block == Disk(fs)[0..BLOCK_SIZE];
    assert block[0..8] == Disk(fs)[0..8] && block[..SUPER_SIZE][16..20] == Disk(fs)[16..20];
  }

  /** The reader on a disk the writer made: mount it, and look up and read with what was mounted. */
  method MountDisk(disk: array<byte>, beyond: Buffer, ghost fs: Fs) returns (reader: Filesystem)
    requires WellFormed(fs) && disk[..] == Disk(fs)
    ensures reader.Valid() && reader.Dev() == Dev(fs, beyond) && reader.Total() == fs.totalInodes
  {
    reader := new Filesystem(disk, beyond);
    Mounts(fs, beyond);
    var ok := reader.Mount();
    assert ok;
  }
}
