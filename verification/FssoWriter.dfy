// mkfsso: formatting a disk and adding files to it, in place.
module FssoWriter {
  import opened Bytes
  import opened FssoImage
  import opened FssoParts
  import opened FssoRun

  /** A `uint32_t` of a packed struct. */
  method PutWord(disk: array<byte>, p: nat, v: nat)
    requires p + 4 <= disk.Length
    modifies disk
    ensures disk[..] == Splice(old(disk[..]), p, PutLe(v, 4))
  {
    disk[p] := v % 256;
    disk[p + 1] := v / 256 % 256;
    disk[p + 2] := v / 256 / 256 % 256;
    disk[p + 3] := v / 256 / 256 / 256 % 256;
    PutLeWord(v);
  }

  lemma PutLeWord(v: nat)
    ensures PutLe(v, 4) == [v % 256, v / 256 % 256, v / 256 / 256 % 256, v / 256 / 256 / 256 % 256]
  {
    assert PutLe(v / 256 / 256, 2) == [v / 256 / 256 % 256, v / 256 / 256 / 256 % 256];
  }

  method GetWord(disk: array<byte>, p: nat) returns (v: nat)
    requires p + 4 <= disk.Length
    ensures v == GetLe(disk[..][p..p + 4])
  {
    v := disk[p] as nat + 256 * (disk[p + 1] as nat + 256 * (disk[p + 2] as nat + 256 * disk[p + 3] as nat));
    GetLeWord(disk[p], disk[p + 1], disk[p + 2], disk[p + 3]);
    assert disk[..][p..p + 4] == [disk[p], disk[p + 1], disk[p + 2], disk[p + 3]];
  }

  lemma GetLeWord(a: byte, b: byte, c: byte, d: byte)
    ensures GetLe([a, b, c, d]) == a as nat + 256 * (b as nat + 256 * (c as nat + 256 * d as nat))
  {
    assert [a, b, c, d][1..] == [b, c, d] && [b, c, d][1..] == [c, d] && [c, d][1..] == [d] && [d][1..] == [];
    assert GetLe([d]) == d as nat;
    assert GetLe([c, d]) == c as nat + 256 * GetLe([d]);
    assert GetLe([b, c, d]) == b as nat + 256 * GetLe([c, d]);
  }

  method PutByte(disk: array<byte>, p: nat, b: byte)
    requires p < disk.Length
    modifies disk
    ensures disk[..] == Splice(old(disk[..]), p, [b])
  {
    disk[p] := b;
  }

  // ---- allocation ------------------------------------------------------

  /** The first inode number from 1 on whose bit is clear, now marked; 0 if there is none. */
  method AllocInode(disk: array<byte>, ghost x: Parts) returns (n: nat)
    requires Fit(x) && disk[..] == Image(x) && 1 <= x.inodes <= x.totalInodes <= BITMAP_BITS && x.totalBlocks < TWO32
    requires x.freeBlocks < TWO32 && x.freeInodes < TWO32
    modifies disk
    ensures n == if x.inodes < x.totalInodes then x.inodes else 0
    ensures disk[..] == Image(if x.inodes < x.totalInodes then x.(inodes := x.inodes + 1) else x)
  {
    hide Image, SuperBytes, Bitmap, Marked, Bit, GetLe, PutLe;
    SuperRegion(x);
    SuperFields(Image(x), 0, x.totalBlocks, x.totalInodes, x.freeBlocks, x.freeInodes);
    InodeMapRegion(x);
    var total := GetWord(disk, 16);
    var i := 1;
    while i < total
      invariant 1 <= i <= x.inodes && disk[..] == Image(x)
    {
      var clear := BitClear(disk, INODE_MAP, i, x.inodes);
      if clear {
        PutInodeBit(x);
        SetBit(disk, INODE_MAP, i);
        return i;
      }
      i := i + 1;
    }
    return 0;
  }

  /** `!(bitmap[i / 8] & (1 << i % 8))`. */
  method BitClear(disk: array<byte>, base: nat, i: nat, ghost n: nat) returns (clear: bool)
    requires At(disk[..], base, Bitmap(n)) && i < BITMAP_BITS
    ensures clear <==> i >= n
  {
    hide Bitmap, Bit;
    clear := disk[base + i / 8] as nat / Bit(i % 8) % 2 == 0;
    MarkedIff(n, i);
    AtIndex(disk[..], base, Bitmap(n), i / 8);
  }

  /** `bitmap[i / 8] |= 1 << i % 8`, for a clear bit. */
  method SetBit(disk: array<byte>, base: nat, i: nat)
    requires base + i / 8 < disk.Length && disk[..][base + i / 8] as nat + Bit(i % 8) < 256
    modifies disk
    ensures disk[..] == Splice(old(disk[..]), base + i / 8, [old(disk[..])[base + i / 8] as nat + Bit(i % 8)])
  {
    hide Bit;
    PutByte(disk, base + i / 8, disk[base + i / 8] as nat + Bit(i % 8));
  }

  /** Mark block `i` if it is free. */
  method TakeIfClear(disk: array<byte>, i: nat, ghost x: Parts) returns (clear: bool)
    requires Fit(x) && disk[..] == Image(x) && i <= x.blocks && i < BITMAP_BITS
    modifies disk
    ensures clear <==> i == x.blocks
    ensures disk[..] == Image(if clear then x.(blocks := x.blocks + 1) else x)
  {
    hide Image, Bitmap, Bit;
    BlockMapRegion(x);
    clear := BitClear(disk, BLOCK_MAP, i, x.blocks);
    if clear {
      PutBlockBit(x);
      SetBit(disk, BLOCK_MAP, i);
    }
  }

  /** The search for free blocks: the first `needed` ones there are. */
  method AllocBlocks(disk: array<byte>, needed: nat, ghost x: Parts) returns (taken: array<nat>, found: nat)
    requires Fit(x) && disk[..] == Image(x) && FIRST_DATA_BLOCK < x.blocks <= x.totalBlocks <= BITMAP_BITS
    requires x.totalInodes < TWO32 && x.freeBlocks < TWO32 && x.freeInodes < TWO32
    requires needed <= DIRECT_BLOCKS
    modifies disk
    ensures fresh(taken) && taken.Length == DIRECT_BLOCKS
    ensures found == if x.blocks + needed <= x.totalBlocks then needed else x.totalBlocks - x.blocks
    ensures forall k :: 0 <= k < found ==> taken[k] == x.blocks + k
    ensures disk[..] == Image(x.(blocks := x.blocks + found))
  {
    hide Image, SuperBytes, Bitmap, Marked, Bit, GetLe, PutLe;
    taken := new nat[DIRECT_BLOCKS](_ => 0);
    SuperRegion(x);
    SuperFields(Image(x), 0, x.totalBlocks, x.totalInodes, x.freeBlocks, x.freeInodes);
    var total := GetWord(disk, 12);
    found := 0;
    var i := FIRST_DATA_BLOCK;
    assert x == x.(blocks := x.blocks + 0);
    while i < total && found < needed
      invariant FIRST_DATA_BLOCK <= i <= total && found <= needed
      invariant if i < x.blocks then found == 0 else i == x.blocks + found
      invariant forall k :: 0 <= k < found ==> taken[k] == x.blocks + k
      invariant disk[..] == Image(x.(blocks := x.blocks + found))
    {
      ghost var y := x.(blocks := x.blocks + found);
      var clear := TakeIfClear(disk, i, y);
      if clear {
        taken[found] := i;
        found := found + 1;
        assert y.(blocks := y.blocks + 1) == x.(blocks := x.blocks + found);
      }
      i := i + 1;
    }
  }

  // ---- writing ---------------------------------------------------------

  /** The bytes of one block, right behind the data already there. */
  method CopyBlock(disk: array<byte>, p: nat, data: seq<byte>, offset: nat, n: nat, ghost x: Parts)
    requires Fit(x) && disk[..] == Image(x) && p == DATA + |x.data|
    requires offset + n <= |data| && |x.data| + n <= BLOCK_SIZE * (x.totalBlocks - 12)
    modifies disk
    ensures disk[..] == Image(x.(data := x.data + data[offset..offset + n]))
  {
    hide Image;
    var j := 0;
    assert x.data + data[offset..offset + 0] == x.data;
    while j < n
      invariant j <= n && disk[..] == Image(x.(data := x.data + data[offset..offset + j]))
    {
      ghost var y := x.(data := x.data + data[offset..offset + j]);
      PutData(y, [data[offset + j]]);
      PutByte(disk, p + j, data[offset + j]);
      assert y.data + [data[offset + j]] == x.data + data[offset..offset + j + 1];
      j := j + 1;
    }
  }

  /** The file's data into its blocks. */
  method WriteData(disk: array<byte>, taken: array<nat>, found: nat, data: seq<byte>, ghost x: Parts, ghost q: nat)
    requires Fit(x) && disk[..] == Image(x) && taken as object != disk
    requires found == Blocks(|data|) <= taken.Length && |x.data| == BLOCK_SIZE * q
    requires forall k :: 0 <= k < found ==> taken[k] == FIRST_DATA_BLOCK + 1 + q + k
    requires |x.data| + BLOCK_SIZE * found <= BLOCK_SIZE * (x.totalBlocks - 12)
    modifies disk
    ensures disk[..] == Image(x.(data := x.data + Padded(data)))
  {
    hide Image;
    var i := 0;
    assert x.data + data[..0] == x.data;
    while i < found
      invariant i <= found
      invariant disk[..] == Image(x.(data := x.data
        + data[..if BLOCK_SIZE * i <= |data| then BLOCK_SIZE * i else |data|]))
    {
      var offset := i * BLOCK_SIZE;
      var toCopy := |data| - offset;
      if toCopy > BLOCK_SIZE {
        toCopy := BLOCK_SIZE;
      }
      ghost var y := x.(data := x.data + data[..offset]);
      CopyBlock(disk, taken[i] * BLOCK_SIZE, data, offset, toCopy, y);
      assert y.data + data[offset..offset + toCopy] == x.data + data[..offset + toCopy];
      i := i + 1;
    }
    ghost var y := x.(data := x.data + data);
    assert data[..|data|] == data;
    DataZeros(y, BLOCK_SIZE * found - |data|);
    assert x.data + Padded(data) == x.data + data + Zeros(BLOCK_SIZE * found - |data|);
  }

  /** The inode's fixed fields. */
  method WriteInodeHead(disk: array<byte>, p: nat, size: nat, typ: byte, ghost x: Parts)
    requires Fit(x) && disk[..] == Image(x) && p == INODE_TABLE + |x.table|
      && |x.table| + 16 <= ROOT_BLOCK - INODE_TABLE
    modifies disk
    ensures disk[..] == Image(x.(table := x.table + InodeHead(size, typ)))
  {
    hide Image, PutLe;
    PutTable(x, PutLe(size, 4));
    PutWord(disk, p, size);
    ghost var y := x.(table := x.table + PutLe(size, 4));
    TableZeros(y, 8);
    ghost var z := x.(table := x.table + PutLe(size, 4) + Zeros(8));
    PutTable(z, [typ]);
    PutByte(disk, p + 12, typ);
    ghost var w := x.(table := x.table + PutLe(size, 4) + Zeros(8) + [typ]);
    ClearWord(disk, p + 4, |x.table| + 4, w);
    ClearWord(disk, p + 8, |x.table| + 8, w);
    TableZeros(w, 3);
    assert x.table + InodeHead(size, typ) == w.table + Zeros(3);
  }

  /** Clear a word of the inode table that is zero as it is. */
  method ClearWord(disk: array<byte>, p: nat, ghost q: nat, ghost w: Parts)
    requires p == INODE_TABLE + q && Fit(w) && disk[..] == Image(w) && q + 4 <= |w.table|
      && w.table[q..q + 4] == Zeros(4)
    modifies disk
    ensures disk[..] == Image(w)
  {
    hide Image, PutLe;
    WordZero();
    InodeZeros(w, q);
    SpliceSame(Image(w), p, Zeros(4));
    PutWord(disk, p, 0);
  }

  lemma WordZero()
    ensures PutLe(0, 4) == Zeros(4)
  {
    PutLeWord(0);
  }

  lemma InodeZeros(w: Parts, q: nat)
    requires Fit(w) && q + 4 <= |w.table| && w.table[q..q + 4] == Zeros(4)
    ensures At(Image(w), INODE_TABLE + q, Zeros(4))
  {
    hide Image;
    TableRegion(w);
    var size := ROOT_BLOCK - INODE_TABLE;
    assert Filled(w.table, size)[q..q + 4] == w.table[q..q + 4];
    AtSlice(Image(w), INODE_TABLE, Filled(w.table, size), q, q + 4);
  }

  /** The inode of a new file. */
  method WriteInode(disk: array<byte>, n: nat, size: nat, taken: array<nat>, found: nat, ghost x: Parts,
                    ghost first: nat)
    requires Fit(x) && disk[..] == Image(x) && taken as object != disk
    requires |x.table| == INODE_SIZE * n && n < TABLE_INODES
    requires found <= taken.Length && found <= DIRECT_BLOCKS
    requires forall k :: 0 <= k < found ==> taken[k] == first + k
    modifies disk
    ensures disk[..] == Image(x.(table := x.table + InodeBytes(size, TYPE_FILE, first, found)))
  {
    hide Image, PutLe, InodeHead;
    var p := INODE_TABLE + INODE_SIZE * n;
    WriteInodeHead(disk, p, size, TYPE_FILE, x);
    ghost var head := x.table + InodeHead(size, TYPE_FILE);
    var i := 0;
    assert head + Directs(first, 0) == head;
    while i < found
      invariant i <= found && disk[..] == Image(x.(table := head + Directs(first, i)))
    {
      ghost var y := x.(table := head + Directs(first, i));
      PutTable(y, PutLe(first + i, 4));
      PutWord(disk, p + 16 + 4 * i, taken[i]);
      assert y.table + PutLe(first + i, 4) == head + Directs(first, i + 1);
      i := i + 1;
    }
    ghost var y := x.(table := head + Directs(first, found));
    TableZeros(y, 60 - 4 * found);
    assert y.table + Zeros(60 - 4 * found) == x.table + InodeBytes(size, TYPE_FILE, first, found);
  }

  // ---- the directory ---------------------------------------------------

  predicate Inodes(es: seq<Entry>) {
    forall k :: 0 <= k < |es| ==> 0 < es[k].inode < TWO32
  }

  lemma {:induction false} EntryAt(es: seq<Entry>, k: nat)
    requires ShortNames(es) && k < |es|
    ensures At(RootBytes(es), ENTRY_SIZE * k, EntryBytes(es[k]))
    decreases |es|
  {
    hide EntryBytes;
    var n := |es| - 1;
    if k < n {
      EntryAt(es[..n], k);
      AtParts(RootBytes(es[..n]), EntryBytes(es[n]));
      AtInside(RootBytes(es), 0, RootBytes(es[..n]), ENTRY_SIZE * k, EntryBytes(es[k]));
    }
  }

  lemma SlotNumbersZero(es: seq<Entry>, j: nat)
    requires ShortNames(es) && |es| <= j < ROOT_ENTRIES
    ensures GetLe(Filled(RootBytes(es), BLOCK_SIZE)[ENTRY_SIZE * j..ENTRY_SIZE * j + 4]) == 0
  {
    hide RootBytes, PutLe, GetLe;
    assert Filled(RootBytes(es), BLOCK_SIZE)[ENTRY_SIZE * j..ENTRY_SIZE * j + 4] == Zeros(4);
    WordZero();
    Pow256Values();
    GetPutLe(0, 4);
  }

  lemma SlotTaken(es: seq<Entry>, k: nat)
    requires ShortNames(es) && Inodes(es) && k < |es| <= ROOT_ENTRIES
    ensures GetLe(Filled(RootBytes(es), BLOCK_SIZE)[ENTRY_SIZE * k..ENTRY_SIZE * k + 4]) == es[k].inode
  {
    hide RootBytes, GetLe, PutLe, Zeros;
    var root, q := RootBytes(es), ENTRY_SIZE * k;
    Pow256Values();
    EntryAt(es, k);
    AtParts(root, Zeros(BLOCK_SIZE - |root|));
    AtInside(Filled(root, BLOCK_SIZE), 0, root, q, EntryBytes(es[k]));
    AtSplit(Filled(root, BLOCK_SIZE), q, PutLe(es[k].inode, 4) + es[k].name, Zeros(256 - |es[k].name|));
    AtSplit(Filled(root, BLOCK_SIZE), q, PutLe(es[k].inode, 4), es[k].name);
    GetPutLe(es[k].inode, 4);
  }

  /** The inode number of a directory entry slot. */
  lemma SlotNumber(es: seq<Entry>, k: nat)
    requires ShortNames(es) && Inodes(es) && k <= |es| <= ROOT_ENTRIES && k < ROOT_ENTRIES
    ensures GetLe(Filled(RootBytes(es), BLOCK_SIZE)[ENTRY_SIZE * k..ENTRY_SIZE * k + 4])
      == if k < |es| then es[k].inode else 0
  {
    hide RootBytes, GetLe, Filled;
    if k < |es| {
      SlotTaken(es, k);
    } else {
      SlotNumbersZero(es, k);
    }
  }

  /** The name of a new entry, byte by byte, up to 255 bytes and the NUL. */
  method CopyName(disk: array<byte>, p: nat, name: seq<byte>, ghost x: Parts)
    requires Fit(x) && disk[..] == Image(x) && p == ROOT_BLOCK + |x.root| && |x.root| + 256 <= BLOCK_SIZE
    modifies disk
    ensures disk[..] == Image(x.(root := x.root + Cut(name) + Zeros(256 - |Cut(name)|)))
  {
    hide Image;
    var j := 0;
    assert x.root + name[..0] == x.root;
    while j < |name| && j < MAX_FILENAME
      invariant j <= |name| && j <= MAX_FILENAME && disk[..] == Image(x.(root := x.root + name[..j]))
    {
      ghost var y := x.(root := x.root + name[..j]);
      PutRoot(y, [name[j]]);
      PutByte(disk, p + j, name[j]);
      assert y.root + [name[j]] == x.root + name[..j + 1];
      j := j + 1;
    }
    assert name[..j] == Cut(name);
    PutNul(disk, p + j, x.(root := x.root + Cut(name)), 256 - j);
  }

  method PutNul(disk: array<byte>, p: nat, ghost x: Parts, ghost n: nat)
    requires Fit(x) && disk[..] == Image(x) && p == ROOT_BLOCK + |x.root| && 0 < n && |x.root| + n <= BLOCK_SIZE
    modifies disk
    ensures disk[..] == Image(x.(root := x.root + Zeros(n)))
  {
    hide Image;
    PutRoot(x, [0]);
    PutByte(disk, p, 0);
    RootZeros(x.(root := x.root + [0]), n - 1);
    assert x.root + [0] + Zeros(n - 1) == x.root + Zeros(n);
  }

  /** The new entry in the first free slot of the root, if there is one. */
  method AddEntry(disk: array<byte>, name: seq<byte>, n: nat, ghost x: Parts, ghost es: seq<Entry>) returns (ok: bool)
    requires Fit(x) && disk[..] == Image(x) && At(disk[..], INODE_TABLE + 16, PutLe(FIRST_DATA_BLOCK, 4))
    requires ShortNames(es) && Inodes(es) && |es| <= ROOT_ENTRIES && x.root == RootBytes(es)
    modifies disk
    ensures ok == (|es| < ROOT_ENTRIES)
    ensures disk[..] == Image(if ok then x.(root := x.root + EntryBytes(Entry(Cut(name), n))) else x)
  {
    hide Image, PutLe, GetLe, Cut, RootBytes, Filled;
    WordAt(disk[..], INODE_TABLE + 16, FIRST_DATA_BLOCK);
    var direct := GetWord(disk, INODE_TABLE + 16);
    var root := direct * BLOCK_SIZE;
    RootRegion(x);
    var i := 0;
    while i < BLOCK_SIZE / ENTRY_SIZE
      invariant i <= |es| && i <= 3 && disk[..] == Image(x)
    {
      SlotNumber(es, i);
      AtSlice(disk[..], ROOT_BLOCK, Filled(x.root, BLOCK_SIZE), ENTRY_SIZE * i, ENTRY_SIZE * i + 4);
      var inode := GetWord(disk, root + ENTRY_SIZE * i);
      if inode == 0 {
        PutRoot(x, PutLe(n, 4));
        PutWord(disk, root + ENTRY_SIZE * i, n);
        ghost var y := x.(root := x.root + PutLe(n, 4));
        CopyName(disk, root + ENTRY_SIZE * i + 4, name, y);
        assert y.root + Cut(name) + Zeros(256 - |Cut(name)|) == x.root + EntryBytes(Entry(Cut(name), n));
        return true;
      }
      i := i + 1;
    }
    return false;
  }

  // ---- the whole add ---------------------------------------------------

  lemma {:induction false} NamedInodes(slots: seq<Slot>)
    ensures forall k :: 0 <= k < |Named(slots)| ==> 0 < Named(slots)[k].inode <= |slots|
  {
    if slots != [] {
      NamedInodes(slots[..|slots| - 1]);
    }
  }

  lemma {:induction false} TableStarts(slots: seq<Slot>)
    requires SmallSlots(slots)
    ensures RootInode() <= Table(slots)
  {
    hide RootInode, SlotInode;
    if slots != [] {
      TableStarts(slots[..|slots| - 1]);
    }
  }

  /** The root's first block number. */
  lemma RootDirect(x: Parts, slots: seq<Slot>)
    requires Fit(x) && SmallSlots(slots) && Table(slots) <= x.table
    ensures At(Image(x), INODE_TABLE + 16, PutLe(FIRST_DATA_BLOCK, 4))
  {
    hide Image, InodeHead, Table, PutLe, Filled;
    TableStarts(slots);
    TableRegion(x);
    var size := ROOT_BLOCK - INODE_TABLE;
    assert At(Filled(x.table, size), 0, RootInode()) by {
      assert Filled(x.table, size)[..|x.table|][..INODE_SIZE] == Filled(x.table, size)[0..INODE_SIZE];
    }
    AtInside(Image(x), INODE_TABLE, Filled(x.table, size), 0, RootInode());
    assert Directs(FIRST_DATA_BLOCK, 1) == Directs(FIRST_DATA_BLOCK, 0) + PutLe(FIRST_DATA_BLOCK, 4)
      == PutLe(FIRST_DATA_BLOCK, 4);
    AtSplit(Image(x), INODE_TABLE, InodeHead(0, TYPE_DIR) + Directs(FIRST_DATA_BLOCK, 1), Zeros(56));
    AtSplit(Image(x), INODE_TABLE, InodeHead(0, TYPE_DIR), Directs(FIRST_DATA_BLOCK, 1));
  }

  /** The regions after an add that had an inode number but no entry, whether or not it had blocks. */
  lemma UnnamedParts(fs: Fs, name: seq<byte>, data: seq<byte>)
    requires WellFormed(fs) && CanAdd(fs, name, data)
      && (OutcomeOf(fs, data).NotEnoughBlocks? || OutcomeOf(fs, data).RootFull?)
    ensures var fs', x := AddTo(fs, name, data), PartsOf(fs);
      && WellFormed(fs')
      && PartsOf(fs') == if OutcomeOf(fs, data).NotEnoughBlocks?
         then x.(inodes := x.inodes + 1, blocks := fs.totalBlocks, table := x.table + Zeros(INODE_SIZE))
         else x.(inodes := x.inodes + 1, blocks := x.blocks + Blocks(|data|), data := x.data + Padded(data),
                 table := x.table + InodeBytes(|data|, TYPE_FILE, First(fs.slots, |fs.slots|), Blocks(|data|)))
  {
    hide Table, Packed, Named, NamedBlocks, InodeBytes, EntryBytes, RootBytes, Padded, Cut, StoredBlocks;
    var fs' := AddTo(fs, name, data);
    AddKeepsWellFormed(fs, name, data);
    SlotAdded(fs.slots, fs'.slots[|fs.slots|]);
    assert fs'.slots == fs.slots + [fs'.slots[|fs.slots|]];
    assert Named(fs'.slots) == Named(fs.slots);
    assert OutcomeOf(fs, data).NotEnoughBlocks? ==> Packed(fs'.slots) == Packed(fs.slots);
  }

  /** The regions after an add that succeeded. */
  lemma AddedParts(fs: Fs, name: seq<byte>, data: seq<byte>)
    requires WellFormed(fs) && CanAdd(fs, name, data) && OutcomeOf(fs, data).Added?
    ensures var fs', x := AddTo(fs, name, data), PartsOf(fs);
      && WellFormed(fs') && x.freeInodes > 0 && x.freeBlocks >= Blocks(|data|)
      && PartsOf(fs') == x.(inodes := x.inodes + 1, blocks := x.blocks + Blocks(|data|), data := x.data + Padded(data),
                            table := x.table + InodeBytes(|data|, TYPE_FILE, First(fs.slots, |fs.slots|),
                              Blocks(|data|)),
                            root := x.root + EntryBytes(Entry(Cut(name), |fs.slots| + 1)),
                            freeInodes := x.freeInodes - 1, freeBlocks := x.freeBlocks - Blocks(|data|))
  {
    hide Table, Packed, Named, NamedBlocks, InodeBytes, EntryBytes, Padded, Cut, StoredBlocks;
    var fs' := AddTo(fs, name, data);
    AddKeepsWellFormed(fs, name, data);
    SlotAdded(fs.slots, fs'.slots[|fs.slots|]);
    assert fs'.slots == fs.slots + [fs'.slots[|fs.slots|]];
    assert Named(fs'.slots)[..|Named(fs.slots)|] == Named(fs.slots);
    assert fs.slots[..|fs.slots|] == fs.slots;
  }

  /** `fsso_add_file`. */
  method AddFile(disk: array<byte>, name: seq<byte>, data: seq<byte>, ghost fs: Fs) returns (r: Outcome)
    requires WellFormed(fs) && CanAdd(fs, name, data) && disk[..] == Disk(fs)
    modifies disk
    ensures r == OutcomeOf(fs, data)
    ensures WellFormed(AddTo(fs, name, data)) && disk[..] == Disk(AddTo(fs, name, data))
  {
    hide Image, Table, Packed, Named, NamedBlocks, InodeBytes, EntryBytes, Padded, Cut, StoredBlocks, AddTo, RootBytes;
    ghost var x, fs' := PartsOf(fs), AddTo(fs, name, data);
    AddKeepsWellFormed(fs, name, data);
    var n := AllocInode(disk, x);
    if n == 0 {
      assert fs' == fs by { NoInodeLeft(fs, name, data); }
      return NoFreeInodes;
    }
    var needed := (|data| + BLOCK_SIZE - 1) / BLOCK_SIZE;
    ghost var x1 := x.(inodes := x.inodes + 1);
    var taken, found := AllocBlocks(disk, needed, x1);
    ghost var x2 := x1.(blocks := x1.blocks + found);
    if found < needed {
      UnnamedParts(fs, name, data);
      TableZeros(x2, INODE_SIZE);
      return NotEnoughBlocks;
    }
    ghost var first := First(fs.slots, |fs.slots|);
    assert fs.slots[..|fs.slots|] == fs.slots;
    WriteData(disk, taken, found, data, x2, StoredBlocks(fs.slots));
    ghost var x3 := x2.(data := x2.data + Padded(data));
    WriteInode(disk, n, |data|, taken, found, x3, first);
    ghost var x4 := x3.(table := x3.table + InodeBytes(|data|, TYPE_FILE, first, found));
    NamedInodes(fs.slots);
    RootDirect(x4, fs.slots);
    var ok := AddEntry(disk, name, n, x4, Named(fs.slots));
    if !ok {
      UnnamedParts(fs, name, data);
      return RootFull;
    }
    AddedParts(fs, name, data);
    ghost var x5 := x4.(root := x4.root + EntryBytes(Entry(Cut(name), n)));
    CountDown(disk, found, x5);
    return Added;
  }

  lemma NoInodeLeft(fs: Fs, name: seq<byte>, data: seq<byte>)
    requires |fs.slots| + 1 >= fs.totalInodes
    ensures AddTo(fs, name, data) == fs
  {
  }

  /** The superblock's counters. */
  method CountDown(disk: array<byte>, found: nat, ghost x: Parts)
    requires Fit(x) && disk[..] == Image(x) && 0 < x.freeInodes < TWO32 && found <= x.freeBlocks < TWO32
    requires x.totalBlocks < TWO32 && x.totalInodes < TWO32
    modifies disk
    ensures disk[..] == Image(x.(freeInodes := x.freeInodes - 1, freeBlocks := x.freeBlocks - found))
  {
    hide Image, SuperBytes, PutLe, GetLe;
    SuperRegion(x);
    SuperFields(Image(x), 0, x.totalBlocks, x.totalInodes, x.freeBlocks, x.freeInodes);
    var free := GetWord(disk, 24);
    PutFreeInodes(x, x.freeInodes - 1);
    PutWord(disk, 24, free - 1);
    ghost var y := x.(freeInodes := x.freeInodes - 1);
    SuperRegion(y);
    SuperFields(Image(y), 0, y.totalBlocks, y.totalInodes, y.freeBlocks, y.freeInodes);
    free := GetWord(disk, 20);
    PutFreeBlocks(y, x.freeBlocks - found);
    PutWord(disk, 20, free - found);
  }

  // ---- formatting ------------------------------------------------------

  method PutBytes(disk: array<byte>, p: nat, s: seq<byte>)
    requires p + |s| <= disk.Length
    modifies disk
    ensures disk[..] == Splice(old(disk[..]), p, s)
  {
    hide Splice;
    ghost var d := disk[..];
    var j := 0;
    SpliceSame(d, p, []);
    while j < |s|
      invariant j <= |s| && disk[..] == Splice(d, p, s[..j])
    {
      assert s[..j + 1] == s[..j] + [s[j]];
      SpliceTwice(d, p, s[..j], [s[j]]);
      PutByte(disk, p + j, s[j]);
      j := j + 1;
    }
    assert s[..|s|] == s;
  }

  /** The superblock of a zeroed disk. */
  method PutSuper(disk: array<byte>, totalBlocks: nat, totalInodes: nat)
    requires disk.Length >= BLOCK_SIZE && disk[..] == Zeros(disk.Length) && totalBlocks >= FIRST_DATA_BLOCK
      && totalInodes >= 1
    modifies disk
    ensures disk[..] == SuperBytes(totalBlocks, totalInodes, totalBlocks - FIRST_DATA_BLOCK, totalInodes - 1)
      + Zeros(disk.Length - BLOCK_SIZE)
  {
    hide PutLe;
    ghost var n := disk.Length;
    ghost var a := PutLe(FSSO_MAGIC, 8);
    PutBytes(disk, 0, PutLe(FSSO_MAGIC, 8));
    SpliceTwice(Zeros(n), 0, a, PutLe(BLOCK_SIZE, 4));
    PutWord(disk, 8, BLOCK_SIZE);
    a := a + PutLe(BLOCK_SIZE, 4);
    SpliceTwice(Zeros(n), 0, a, PutLe(totalBlocks, 4));
    PutWord(disk, 12, totalBlocks);
    a := a + PutLe(totalBlocks, 4);
    SpliceTwice(Zeros(n), 0, a, PutLe(totalInodes, 4));
    PutWord(disk, 16, totalInodes);
    assert disk[..] == Splice(Zeros(n), 0, SuperHead(totalBlocks, totalInodes));
    PutSuperRest(disk, totalBlocks, totalInodes);
  }

  /** One more word or string behind what has been written. */
  lemma PutNext(n: nat, a: seq<byte>, s: seq<byte>)
    requires |a| + |s| <= n
    ensures Splice(Splice(Zeros(n), 0, a), |a|, s) == Splice(Zeros(n), 0, a + s)
  {
    SpliceTwice(Zeros(n), 0, a, s);
  }

  method PutSuperRest(disk: array<byte>, totalBlocks: nat, totalInodes: nat)
    requires disk.Length >= BLOCK_SIZE && totalBlocks >= FIRST_DATA_BLOCK && totalInodes >= 1
    requires disk[..] == Splice(Zeros(disk.Length), 0, SuperHead(totalBlocks, totalInodes))
    modifies disk
    ensures disk[..] == SuperBytes(totalBlocks, totalInodes, totalBlocks - FIRST_DATA_BLOCK, totalInodes - 1)
      + Zeros(disk.Length - BLOCK_SIZE)
  {
    hide PutLe, SuperHead, Splice, Zeros;
    ghost var n := disk.Length;
    ghost var a := SuperHead(totalBlocks, totalInodes);
    PutNext(n, a, PutLe(totalBlocks - FIRST_DATA_BLOCK, 4));
    PutWord(disk, 20, totalBlocks - FIRST_DATA_BLOCK);
    a := a + PutLe(totalBlocks - FIRST_DATA_BLOCK, 4);
    PutNext(n, a, PutLe(totalInodes - 1, 4));
    PutWord(disk, 24, totalInodes - 1);
    a := a + PutLe(totalInodes - 1, 4);
    PutSuperTail(disk, a);
  }

  method PutSuperTail(disk: array<byte>, ghost head: seq<byte>)
    requires disk.Length >= BLOCK_SIZE && |head| == 28 && disk[..] == Splice(Zeros(disk.Length), 0, head)
    modifies disk
    ensures disk[..] == head + SuperTail() + Zeros(disk.Length - BLOCK_SIZE)
  {
    hide PutLe, Splice;
    ghost var n, a := disk.Length, head;
    PutNext(n, a, PutLe(FIRST_DATA_BLOCK, 4));
    PutWord(disk, 28, FIRST_DATA_BLOCK);
    a := a + PutLe(FIRST_DATA_BLOCK, 4);
    PutNext(n, a, FS_NAME);
    PutBytes(disk, 32, FS_NAME);
    a := a + FS_NAME;
    PutNext(n, a, PutLe(1, 4));
    PutWord(disk, 40, 1);
    a := a + PutLe(1, 4);
    assert head + SuperTail() == a + Zeros(980);
    ZeroTail(n, a, 980);
  }

  lemma ZeroTail(n: nat, a: seq<byte>, k: nat)
    requires |a| + k <= n
    ensures Splice(Zeros(n), 0, a) == a + Zeros(k) + Zeros(n - |a| - k)
  {
  }

  /** The formatted but empty disk. */
  function Blank(totalBlocks: nat, totalInodes: nat): (x: Parts)
    requires FIRST_DATA_BLOCK < totalBlocks && 1 <= totalInodes
    ensures Fit(x)
  {
    Parts(totalBlocks, totalInodes, totalBlocks - FIRST_DATA_BLOCK, totalInodes - 1, 0, 0, [], [], [])
  }

  lemma BlankImage(totalBlocks: nat, totalInodes: nat)
    requires FIRST_DATA_BLOCK < totalBlocks && 1 <= totalInodes
    ensures Image(Blank(totalBlocks, totalInodes))
      == SuperBytes(totalBlocks, totalInodes, totalBlocks - FIRST_DATA_BLOCK, totalInodes - 1)
         + Zeros(BLOCK_SIZE * totalBlocks - BLOCK_SIZE)
  {
    hide SuperBytes;
    assert Bitmap(0) == Zeros(BLOCK_SIZE);
    ghost var d := Bitmap(0) + Bitmap(0) + Filled([], ROOT_BLOCK - INODE_TABLE) + Filled([], BLOCK_SIZE)
                   + Filled([], BLOCK_SIZE * (totalBlocks - 12));
    assert d == Zeros(BLOCK_SIZE * totalBlocks - BLOCK_SIZE);
    assert Image(Blank(totalBlocks, totalInodes))
        == SuperBytes(totalBlocks, totalInodes, totalBlocks - FIRST_DATA_BLOCK, totalInodes - 1) + d;
  }

  /** The bitmaps as far as the blocks below the root's. */
  method PutBitmaps(disk: array<byte>, ghost x: Parts)
    requires Fit(x) && disk[..] == Image(x) && x.inodes == 0 && x.blocks == 0
    modifies disk
    ensures disk[..] == Image(x.(inodes := 1, blocks := 11))
  {
    hide Image, SuperBytes;
    InodeMapRegion(x);
    AtIndex(Image(x), INODE_MAP, Bitmap(0), 0);
    PutInodeBit(x);
    PutByte(disk, INODE_MAP, 0x01);
    ghost var y := x.(inodes := 1);
    FirstBlocks(y);
    PutBytes(disk, BLOCK_MAP, [0xFF]);
    PutByte(disk, BLOCK_MAP + 1, 0x07);
  }

  lemma FirstBlocks(x: Parts)
    requires Fit(x) && x.blocks == 0
    ensures Splice(Splice(Image(x), BLOCK_MAP, [0xFF]), BLOCK_MAP + 1, [0x07]) == Image(x.(blocks := 11))
  {
    hide SuperBytes, Filled;
    SpliceTwice(Image(x), BLOCK_MAP, [0xFF], [0x07]);
    var head := SuperBytes(x.totalBlocks, x.totalInodes, x.freeBlocks, x.freeInodes) + Bitmap(x.inodes);
    var tail := Filled(x.table, ROOT_BLOCK - INODE_TABLE) + Filled(x.root, BLOCK_SIZE)
                + Filled(x.data, BLOCK_SIZE * (x.totalBlocks - 12));
    SpliceInside(head, Bitmap(0), tail, 0, [0xFF, 0x07]);
    assert [0xFF] + [0x07] == [0xFF, 0x07];
    assert Splice(Bitmap(0), 0, [0xFF, 0x07]) == Bitmap(11);
    assert Image(x) == head + Bitmap(0) + tail;
    assert Image(x.(blocks := 11)) == head + Bitmap(11) + tail;
  }

  /** The formatting steps of `main`. */
  method FormatDisk(totalBlocks: nat, totalInodes: nat) returns (disk: array<byte>)
    requires FIRST_DATA_BLOCK < totalBlocks <= BITMAP_BITS && 1 <= totalInodes <= BITMAP_BITS
    ensures fresh(disk) && disk[..] == Disk(Format(totalBlocks, totalInodes))
  {
    hide Image, SuperBytes, InodeHead, PutLe;
    disk := new byte[totalBlocks * BLOCK_SIZE](_ => 0);
    assert disk[..] == Zeros(disk.Length);
    PutSuper(disk, totalBlocks, totalInodes);
    ghost var x := Blank(totalBlocks, totalInodes);
    BlankImage(totalBlocks, totalInodes);
    PutBitmaps(disk, x);
    x := x.(inodes := 1, blocks := 11);
    WriteInodeHead(disk, INODE_TABLE, 0, TYPE_DIR, x);
    x := x.(table := InodeHead(0, TYPE_DIR));
    assert x.table == [] + InodeHead(0, TYPE_DIR);
    PutTable(x, PutLe(FIRST_DATA_BLOCK, 4));
    PutWord(disk, INODE_TABLE + 16, FIRST_DATA_BLOCK);
    x := x.(table := x.table + PutLe(FIRST_DATA_BLOCK, 4));
    TableZeros(x, 56);
    assert x.table + Zeros(56) == RootInode() by {
      assert Directs(FIRST_DATA_BLOCK, 1) == Directs(FIRST_DATA_BLOCK, 0) + PutLe(FIRST_DATA_BLOCK, 4);
    }
    x := x.(table := RootInode());
    PutBlockBit(x);
    SetBit(disk, BLOCK_MAP, FIRST_DATA_BLOCK);
    assert x.(blocks := 12) == PartsOf(Format(totalBlocks, totalInodes));
  }
}
