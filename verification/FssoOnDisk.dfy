// An FSSO disk byte for byte, and what an add takes from it.
module FssoOnDisk {
  import opened Bytes
  import opened FssoImage
  import opened FssoParts
  import opened FssoRun
  import opened FssoRoundTrip
  import FssoWriter

  /** The four bytes from `p` on as a number, the least significant first. */
  function Word(d: seq<byte>, p: nat): nat
    requires p + 4 <= |d|
  {
    var a: nat, b: nat, c: nat, e: nat := d[p], d[p + 1], d[p + 2], d[p + 3];
    a + 0x100 * b + 0x1_0000 * c + 0x100_0000 * e
  }

  lemma WordIs(d: seq<byte>, p: nat)
    requires p + 4 <= |d|
    ensures GetLe(d[p..p + 4]) == Word(d, p)
  {
    var s := d[p..p + 4];
    assert s[1..][1..] == s[2..] && s[2..][1..] == s[3..] && s[3..][1..] == [];
    assert GetLe(s[3..]) == s[3] && GetLe(s[2..]) == s[2] + 256 * GetLe(s[3..]);
    assert GetLe(s[1..]) == s[1] + 256 * GetLe(s[2..]);
  }

  lemma PutWord(d: seq<byte>, p: nat, v: nat)
    requires At(d, p, PutLe(v, 4)) && v < TWO32
    ensures Word(d, p) == v
  {
    hide PutLe, GetLe;
    WordIs(d, p);
    Pow256Values();
    GetPutLe(v, 4);
  }

  predicate Blank(d: seq<byte>, lo: nat, hi: nat) {
    hi <= |d| && forall k :: lo <= k < hi ==> d[k] == 0
  }

  // ---- what an add takes -----------------------------------------------

  /** The clear bits of the two bitmaps, and the root's entries that have a number. */
  function FreeInodes(d: seq<byte>, total: nat): nat
    requires |d| >= INODE_TABLE && total <= BITMAP_BITS
  {
    ClearBits(d[1024..2048], 0, total)
  }

  function FreeBlocks(d: seq<byte>, total: nat): nat
    requires |d| >= INODE_TABLE && total <= BITMAP_BITS
  {
    ClearBits(d[2048..3072], 0, total)
  }

  lemma FreeAre(fs: Fs)
    requires WellFormed(fs)
    ensures FreeInodes(Disk(fs), fs.totalInodes) == fs.totalInodes - 1 - |fs.slots|
    ensures FreeBlocks(Disk(fs), fs.totalBlocks) == fs.totalBlocks - fs.nextBlock
  {
    hide Image, SmallSlots, ShortNames, Named, NamedBlocks, StoredBlocks, Marked, Bitmap, ClearBits;
    var x := PartsOf(fs);
    InodeMapRegion(x);
    BlockMapRegion(x);
    ClearBitsOf(x.inodes, 0, fs.totalInodes);
    ClearBitsOf(x.blocks, 0, fs.totalBlocks);
  }

  /** Of a disk of these sizes, `before` and `after` an add of a file of `needed` blocks: what it found decides what it
      did.  It fails for want of an inode when no inode bit is clear, for want of blocks when fewer block bits are
      clear than the file has blocks, and for want of an entry when the root has three names.  It takes one inode
      number unless there was none; and as many blocks as the file has, or all that are left if they are too few. */
  predicate Taken(before: seq<byte>, after: seq<byte>, totalInodes: nat, totalBlocks: nat, names: nat, needed: nat,
                  o: Outcome)
    requires |before| >= INODE_TABLE && |after| >= INODE_TABLE && totalInodes <= BITMAP_BITS
      && totalBlocks <= BITMAP_BITS
  {
    var inodes, blocks := FreeInodes(before, totalInodes), FreeBlocks(before, totalBlocks);
    && o == (if inodes == 0 then NoFreeInodes else if blocks < needed then NotEnoughBlocks
             else if names == 3 then RootFull else Added)
    && FreeInodes(after, totalInodes) == (if inodes == 0 then 0 else inodes - 1)
    && FreeBlocks(after, totalBlocks)
       == (if inodes == 0 then blocks else if blocks < needed then 0 else blocks - needed)
  }

  /** What an add does is settled by the bitmaps and the number of names alone; and it makes an entry, for as much of
      the name as fits, only if all goes well. */
  lemma AddTakes(fs: Fs, name: seq<byte>, data: seq<byte>)
    requires WellFormed(fs) && CanAdd(fs, name, data)
    ensures var fs', o := AddTo(fs, name, data), OutcomeOf(fs, data);
      && WellFormed(fs') && fs'.totalInodes == fs.totalInodes && fs'.totalBlocks == fs.totalBlocks
      && Taken(Disk(fs), Disk(fs'), fs.totalInodes, fs.totalBlocks, |Named(fs.slots)|, (|data| + 1023) / 1024, o)
      && Named(fs'.slots) == Named(fs.slots) + if o.Added? then [Entry(Stem(name), |fs.slots| + 1)] else []
  {
    hide SmallSlots, ShortNames, Named, NamedBlocks, StoredBlocks, SlotBlocks, ClearBits, Disk, FreeInodes, FreeBlocks,
      Cut, Packed, Table, First, Stem;
    var fs' := AddTo(fs, name, data);
    AddKeepsWellFormed(fs, name, data);
    CutIs(name);
    FreeAre(fs);
    FreeAre(fs');
    if fs'.slots != fs.slots {
      SlotAdded(fs.slots, fs'.slots[|fs.slots|]);
      assert fs'.slots == fs.slots + [fs'.slots[|fs.slots|]];
    }
  }

  /** A name's first 255 bytes. */
  function Stem(name: seq<byte>): seq<byte> { name[..Min(255, |name|)] }

  lemma CutIs(name: seq<byte>)
    ensures Cut(name) == Stem(name)
  {
  }

  // ---- the superblock --------------------------------------------------

  /** The superblock, word for word; what is not counted changes in no run. */
  lemma SuperOnDisk(fs: Fs)
    requires WellFormed(fs)
    ensures var d := Disk(fs);
      && Word(d, 0) == 0x4F5F5631 && Word(d, 4) == 0x465353 && Word(d, 8) == 1024
      && Word(d, 12) == fs.totalBlocks && Word(d, 16) == fs.totalInodes && Word(d, 28) == 11
      && d[32..40] == [0x46, 0x53, 0x53, 0x4F, 0x20, 0x20, 0x20, 0x20] && Word(d, 40) == 1
      && Blank(d, 44, 1024)
  {
    hide Image, SmallSlots, ShortNames, Named, NamedBlocks, StoredBlocks, GetLe, PutLe, Zeros;
    var x, d := PartsOf(fs), Disk(fs);
    SuperRegion(x);
    var a, b, c, e := PutLe(FSSO_MAGIC, 8), PutLe(BLOCK_SIZE, 4), PutLe(x.totalBlocks, 4), PutLe(x.totalInodes, 4);
    var f, g := PutLe(x.freeBlocks, 4), PutLe(x.freeInodes, 4);
    var h, i, j, k := PutLe(FIRST_DATA_BLOCK, 4), FS_NAME, PutLe(1, 4), Zeros(980);
    AtSplit(d, 0, SuperHead(x.totalBlocks, x.totalInodes) + f + g, SuperTail());
    AtSplit(d, 28, h + i + j, k);
    AtSplit(d, 28, h + i, j);
    AtSplit(d, 28, h, i);
    AtSplit(d, 0, SuperHead(x.totalBlocks, x.totalInodes) + f, g);
    AtSplit(d, 0, SuperHead(x.totalBlocks, x.totalInodes), f);
    AtSplit(d, 0, a + b + c, e);
    AtSplit(d, 0, a + b, c);
    AtSplit(d, 0, a, b);
    MagicBytes();
    AtSplit(d, 0, PutLe(0x4F5F5631, 4), PutLe(0x465353, 4));
    PutWord(d, 0, 0x4F5F5631);
    PutWord(d, 4, 0x465353);
    PutWord(d, 8, BLOCK_SIZE);
    PutWord(d, 12, x.totalBlocks);
    PutWord(d, 16, x.totalInodes);
    PutWord(d, 28, FIRST_DATA_BLOCK);
    PutWord(d, 40, 1);
    AtZeros(d, 44, 980);
  }

  lemma AtZeros(d: seq<byte>, p: nat, n: nat)
    requires At(d, p, Zeros(n))
    ensures Blank(d, p, p + n)
  {
    forall k | p <= k < p + n
      ensures d[k] == 0
    {
      AtIndex(d, p, Zeros(n), k - p);
    }
  }

  lemma MagicBytes()
    ensures PutLe(FSSO_MAGIC, 8) == PutLe(0x4F5F5631, 4) + PutLe(0x465353, 4)
  {
    hide PutLe;
    PutFour(FSSO_MAGIC, 4);
    PutFour(0x4F5F5631, 0);
    PutNothing();
    assert PutLe(FSSO_MAGIC, 8) == [0x31, 0x56, 0x5F, 0x4F] + PutLe(0x465353, 4);
  }

  lemma PutNothing()
    ensures PutLe(0, 0) == []
  {
  }

  lemma PutNext(v: nat, n: nat)
    ensures PutLe(v, n + 1) == [v % 0x100] + PutLe(v / 0x100, n)
  {
  }

  /** The low four bytes, and the rest. */
  lemma PutFour(v: nat, n: nat)
    ensures PutLe(v, n + 4)
      == [v % 0x100, v / 0x100 % 0x100, v / 0x1_0000 % 0x100, v / 0x100_0000 % 0x100] + PutLe(v / 0x1_0000_0000, n)
  {
    hide PutLe;
    PutNext(v, n + 3);
    PutNext(v / 0x100, n + 2);
    PutNext(v / 0x1_0000, n + 1);
    PutNext(v / 0x100_0000, n);
    assert v / 0x100 / 0x100 == v / 0x1_0000 && v / 0x1_0000 / 0x100 == v / 0x100_0000;
    assert v / 0x100_0000 / 0x100 == v / 0x1_0000_0000;
  }

  // ---- inodes and entries ----------------------------------------------

  /** The inode of number `n` is one of a size and a type, with these blocks and nothing else. */
  predicate InodeSays(d: seq<byte>, n: nat, size: nat, typ: byte, first: nat, blocks: nat)
    requires 3072 + 76 * n + 76 <= |d|
  {
    var p := 3072 + 76 * n;
    && Word(d, p) == size && d[p + 12] == typ
    && (forall i :: 0 <= i < 12 ==> Word(d, p + 16 + 4 * i) == if i < blocks then first + i else 0)
    && Word(d, p + 4) == Word(d, p + 8) == 0
    && Blank(d, p + 13, p + 16) && Blank(d, p + 64, p + 76)
  }

  lemma InodeIs(d: seq<byte>, n: nat, size: nat, typ: byte, first: nat, blocks: nat)
    requires blocks <= DIRECT_BLOCKS && At(d, INODE_TABLE + INODE_SIZE * n, InodeBytes(size, typ, first, blocks))
    requires size < TWO32 && first + DIRECT_BLOCKS < TWO32
    ensures InodeSays(d, n, size, typ, first, blocks)
  {
    hide PutLe, Directs, Word, Zeros;
    var p, head, list, rest := INODE_TABLE + INODE_SIZE * n, InodeHead(size, typ), Directs(first, blocks),
      Zeros(60 - 4 * blocks);
    AtSplit(d, p, head + list, rest);
    AtSplit(d, p, head, list);
    HeadIs(d, p, size, typ);
    AtZeros(d, p + 16 + 4 * blocks, 60 - 4 * blocks);
    ListIs(d, p + 16, first, blocks);
    assert forall i :: 0 <= i < 12 ==> Word(d, p + 16 + 4 * i) == if i < blocks then first + i else 0;
  }

  lemma ListIs(d: seq<byte>, q: nat, first: nat, blocks: nat)
    requires blocks <= DIRECT_BLOCKS && At(d, q, Directs(first, blocks)) && Blank(d, q + 4 * blocks, q + 48)
    requires first + DIRECT_BLOCKS < TWO32
    ensures forall i :: 0 <= i < 12 ==> Word(d, q + 4 * i) == if i < blocks then first + i else 0
  {
    hide PutLe, Directs, Word;
    forall i | 0 <= i < 12
      ensures Word(d, q + 4 * i) == if i < blocks then first + i else 0
    {
      if i < blocks {
        DirectAt(first, blocks, i);
        AtInside(d, q, Directs(first, blocks), 4 * i, PutLe(first + i, 4));
        PutWord(d, q + 4 * i, first + i);
      } else {
        NoWord(d, q + 4 * i);
      }
    }
  }

  lemma NoWord(d: seq<byte>, p: nat)
    requires Blank(d, p, p + 4)
    ensures Word(d, p) == 0
  {
  }

  lemma HeadIs(d: seq<byte>, p: nat, size: nat, typ: byte)
    requires At(d, p, InodeHead(size, typ)) && size < TWO32
    ensures Word(d, p) == size && d[p + 12] == typ && Word(d, p + 4) == Word(d, p + 8) == 0
    ensures Blank(d, p + 13, p + 16)
  {
    hide PutLe, Word, Zeros;
    AtSplit(d, p, PutLe(size, 4) + Zeros(8) + [typ], Zeros(3));
    AtSplit(d, p, PutLe(size, 4) + Zeros(8), [typ]);
    AtSplit(d, p, PutLe(size, 4), Zeros(8));
    AtZeros(d, p + 4, 8);
    AtZeros(d, p + 13, 3);
    AtIndex(d, p + 12, [typ], 0);
    PutWord(d, p, size);
    NoWord(d, p + 4);
    NoWord(d, p + 8);
  }

  /** The inodes of the disk: the root's, a directory of one block; and for every add that got a number, the file's
      size and its blocks, or nothing if the blocks ran out. */
  lemma InodesOnDisk(fs: Fs, n: nat)
    requires WellFormed(fs) && n <= |fs.slots|
    ensures 3072 + 76 * n + 76 <= |Disk(fs)|
    ensures n == 0 ==> InodeSays(Disk(fs), 0, 0, 2, 11, 1)
    ensures n > 0 && fs.slots[n - 1].Stored? ==>
      InodeSays(Disk(fs), n, |fs.slots[n - 1].data|, 1, First(fs.slots, n - 1), SlotBlocks(fs.slots[n - 1]))
    ensures n > 0 && fs.slots[n - 1].NoBlocks? ==> InodeSays(Disk(fs), n, 0, 0, 0, 0)
  {
    hide Disk, Table, SlotInode, RootInode, Filled, InodeSays, Named, NamedBlocks, StoredBlocks, ShortNames, InodeBytes;
    var t, q := Table(fs.slots), INODE_SIZE * n;
    DiskTable(fs);
    SlotInTable(fs.slots, n);
    FilledStarts(t, ROOT_BLOCK - INODE_TABLE);
    AtInside(Filled(t, ROOT_BLOCK - INODE_TABLE), 0, t, q, TableInode(fs.slots, n));
    AtInside(Disk(fs), INODE_TABLE, Filled(t, ROOT_BLOCK - INODE_TABLE), q, TableInode(fs.slots, n));
    InodeParts(fs, n);
    if n == 0 {
      InodeIs(Disk(fs), 0, 0, TYPE_DIR, FIRST_DATA_BLOCK, 1);
    } else if fs.slots[n - 1].Stored? {
      StoredUpTo(fs.slots, n - 1, |fs.slots|);
      InodeIs(Disk(fs), n, |fs.slots[n - 1].data|, TYPE_FILE, First(fs.slots, n - 1), SlotBlocks(fs.slots[n - 1]));
    } else {
      InodeIs(Disk(fs), n, 0, 0, 0, 0);
    }
  }

  lemma InodeParts(fs: Fs, n: nat)
    requires WellFormed(fs) && n <= |fs.slots|
    ensures TableInode(fs.slots, n) == if n == 0 then InodeBytes(0, TYPE_DIR, FIRST_DATA_BLOCK, 1)
      else if fs.slots[n - 1].Stored? then InodeBytes(|fs.slots[n - 1].data|, TYPE_FILE, First(fs.slots, n - 1),
        SlotBlocks(fs.slots[n - 1]))
      else InodeBytes(0, 0, 0, 0)
  {
    hide StoredBlocks;
    NoInode();
  }

  lemma NoInode()
    ensures InodeBytes(0, 0, 0, 0) == Zeros(INODE_SIZE)
  {
    NoBytes();
    assert InodeHead(0, 0) == Zeros(16);
  }

  lemma NoBytes()
    ensures PutLe(0, 4) == Zeros(4)
  {
    PutFour(0, 0);
    PutNothing();
  }

  /** The entries of the root, in the order of the adds, and nothing behind the last. */
  lemma EntriesOnDisk(fs: Fs, j: nat)
    requires WellFormed(fs) && j < |Named(fs.slots)|
    ensures var d, e, p := Disk(fs), Named(fs.slots)[j], 11264 + 260 * j;
      && Word(d, p) == e.inode && d[p + 4..p + 4 + |e.name|] == e.name
      && Blank(d, p + 4 + |e.name|, p + 260)
  {
    hide Disk, Filled, RootBytes, Named, StoredBlocks, NamedBlocks, Word, PutLe, Zeros;
    var es, d := Named(fs.slots), Disk(fs);
    var e, root, p := es[j], RootBytes(es), ROOT_BLOCK + ENTRY_SIZE * j;
    FssoWriter.NamedInodes(fs.slots);
    DiskRoot(fs);
    FssoWriter.EntryAt(es, j);
    AtInside(d, ROOT_BLOCK, root, ENTRY_SIZE * j, EntryBytes(e));
    AtSplit(d, p, PutLe(e.inode, 4) + e.name, Zeros(256 - |e.name|));
    AtSplit(d, p, PutLe(e.inode, 4), e.name);
    AtZeros(d, p + 4 + |e.name|, 256 - |e.name|);
    PutWord(d, p, e.inode);
  }

  lemma DiskRoot(fs: Fs)
    requires WellFormed(fs)
    ensures At(Disk(fs), ROOT_BLOCK, RootBytes(Named(fs.slots)))
  {
    hide Image, Table, Filled, RootBytes, Named, NamedBlocks;
    var root := RootBytes(Named(fs.slots));
    RootRegion(PartsOf(fs));
    FilledStarts(root, BLOCK_SIZE);
    AtInside(Disk(fs), ROOT_BLOCK, Filled(root, BLOCK_SIZE), 0, root);
  }

  // ---- data ------------------------------------------------------------

  /** The data of a file: in its blocks, one after another, with zeros to the end of the last. */
  lemma DataOnDisk(fs: Fs, k: nat)
    requires WellFormed(fs) && k < |fs.slots| && fs.slots[k].Stored?
    ensures var d, data, p := Disk(fs), fs.slots[k].data, 1024 * First(fs.slots, k);
      var end := p + (|data| + 1023) / 1024 * 1024;
      && end <= |d| && d[p..p + |data|] == data && Blank(d, p + |data|, end)
  {
    hide Disk, Packed, Filled, SmallSlots, ShortNames, Named, NamedBlocks, StoredBlocks, Zeros, Blank;
    var d, data, q := Disk(fs), fs.slots[k].data, BLOCK_SIZE * StoredBlocks(fs.slots[..k]);
    var size := BLOCK_SIZE * (fs.totalBlocks - 12);
    DiskData(fs);
    PaddedAt(fs.slots, k);
    AtInside(d, DATA, Packed(fs.slots), q, Padded(data));
    AtSplit(d, DATA + q, data, Zeros(BLOCK_SIZE * Blocks(|data|) - |data|));
    AtZeros(d, DATA + q + |data|, BLOCK_SIZE * Blocks(|data|) - |data|);
  }

  lemma DiskData(fs: Fs)
    requires WellFormed(fs)
    ensures At(Disk(fs), DATA, Packed(fs.slots))
  {
    hide Image, Table, Filled, RootBytes, Named, NamedBlocks, Packed, SmallSlots, ShortNames;
    var size := BLOCK_SIZE * (fs.totalBlocks - 12);
    DataRegion(PartsOf(fs));
    FilledStarts(Packed(fs.slots), size);
    AtInside(Disk(fs), DATA, Filled(Packed(fs.slots), size), 0, Packed(fs.slots));
  }
}
