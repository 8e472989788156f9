// What adding a file does, and what every run of adds keeps.
module FssoRun {
  import opened Bytes
  import opened FssoImage
  import opened FssoParts

  datatype Outcome = Added | NoFreeInodes | NotEnoughBlocks | RootFull

  /** The part of a name that a directory entry, or a path component, can hold. */
  function Cut(name: seq<byte>): (r: seq<byte>)
    ensures |r| <= MAX_FILENAME && r <= name
  {
    if |name| <= MAX_FILENAME then name else name[..MAX_FILENAME]
  }

  /** What the adder asks of its caller: the name is a C string, the file fits the direct blocks, and the
      inode it will get lies in the table. */
  predicate CanAdd(fs: Fs, name: seq<byte>, data: seq<byte>) {
    && NulFree(name)
    && |data| <= DIRECT_BLOCKS * BLOCK_SIZE
    && (|fs.slots| + 1 < fs.totalInodes ==> |fs.slots| + 1 < TABLE_INODES)
  }

  function OutcomeOf(fs: Fs, data: seq<byte>): Outcome {
    if |fs.slots| + 1 >= fs.totalInodes then NoFreeInodes
    else if fs.nextBlock + Blocks(|data|) > fs.totalBlocks then NotEnoughBlocks
    else if |Named(fs.slots)| >= ROOT_ENTRIES then RootFull
    else Added
  }

  /** The disk after an add.  A failure keeps what was taken before it: the inode number, and the blocks
      that were found. */
  function AddTo(fs: Fs, name: seq<byte>, data: seq<byte>): Fs {
    match OutcomeOf(fs, data)
    case NoFreeInodes => fs
    case NotEnoughBlocks => fs.(nextBlock := fs.totalBlocks, slots := fs.slots + [NoBlocks])
    case RootFull => fs.(nextBlock := fs.nextBlock + Blocks(|data|), slots := fs.slots + [Stored(data, None)])
    case Added => fs.(nextBlock := fs.nextBlock + Blocks(|data|), slots := fs.slots + [Stored(data, Some(Cut(name)))])
  }

  /** One more slot. */
  lemma SlotAdded(slots: seq<Slot>, s: Slot)
    ensures var r := slots + [s];
      && StoredBlocks(r) == StoredBlocks(slots) + SlotBlocks(s)
      && Packed(r) == Packed(slots) + (if s.Stored? then Padded(s.data) else [])
      && Named(r) == Named(slots) + (if s.Stored? && s.name.Some? then [Entry(s.name.value, |slots| + 1)] else [])
      && NamedBlocks(r) == NamedBlocks(slots) + (if s.Stored? && s.name.Some? then SlotBlocks(s) else 0)
      && First(r, |slots|) == First(slots, |slots|)
    ensures SmallSlots(slots) && SlotBlocks(s) <= DIRECT_BLOCKS ==>
      SmallSlots(slots + [s]) && Table(slots + [s]) == Table(slots) + SlotInode(s, First(slots, |slots|))
  {
    hide SlotInode, Padded, SlotBlocks, Named, NamedBlocks, Table, Packed;
    var r := slots + [s];
    assert r[..|slots|] == slots && slots[..|slots|] == slots;
    SlotNamed(slots, s);
    if SmallSlots(slots) && SlotBlocks(s) <= DIRECT_BLOCKS {
      SlotTabled(slots, s);
    }
  }

  lemma SlotNamed(slots: seq<Slot>, s: Slot)
    ensures var r := slots + [s];
      && Packed(r) == Packed(slots) + (if s.Stored? then Padded(s.data) else [])
      && Named(r) == Named(slots) + (if s.Stored? && s.name.Some? then [Entry(s.name.value, |slots| + 1)] else [])
      && NamedBlocks(r) == NamedBlocks(slots) + (if s.Stored? && s.name.Some? then SlotBlocks(s) else 0)
  {
    hide SlotInode, Padded, SlotBlocks;
    assert (slots + [s])[..|slots|] == slots;
  }

  lemma SlotTabled(slots: seq<Slot>, s: Slot)
    requires SmallSlots(slots) && SlotBlocks(s) <= DIRECT_BLOCKS
    ensures SmallSlots(slots + [s]) && Table(slots + [s]) == Table(slots) + SlotInode(s, First(slots, |slots|))
  {
    hide SlotInode, SlotBlocks, First, RootInode;
    var r := slots + [s];
    assert r[..|slots|] == slots && r[|slots|] == s;
    SmallNext(slots, s);
    FirstSame(slots, s);
    assert Table(r) == Table(r[..|slots|]) + SlotInode(r[|slots|], First(r, |slots|));
  }

  lemma SmallNext(slots: seq<Slot>, s: Slot)
    requires SmallSlots(slots) && SlotBlocks(s) <= DIRECT_BLOCKS
    ensures SmallSlots(slots + [s])
  {
    hide SlotBlocks;
  }

  lemma FirstSame(slots: seq<Slot>, s: Slot)
    ensures First(slots + [s], |slots|) == First(slots, |slots|)
  {
    hide StoredBlocks;
    assert (slots + [s])[..|slots|] == slots && slots[..|slots|] == slots;
  }

  lemma AddKeepsWellFormed(fs: Fs, name: seq<byte>, data: seq<byte>)
    requires WellFormed(fs) && CanAdd(fs, name, data)
    ensures WellFormed(AddTo(fs, name, data))
  {
    hide StoredBlocks, Named, NamedBlocks, Packed, Table;
    var n, r := |fs.slots|, AddTo(fs, name, data);
    if r.slots != fs.slots {
      SlotAdded(fs.slots, r.slots[n]);
      assert r.slots == fs.slots + [r.slots[n]] && r.slots[..n + 1] == r.slots && fs.slots[..n] == fs.slots;
      assert Blocks(|data|) <= DIRECT_BLOCKS;
    }
  }

  // ---- runs ------------------------------------------------------------

  datatype Add = Add(name: seq<byte>, data: seq<byte>)

  function Format(totalBlocks: nat, totalInodes: nat): (fs: Fs)
    requires FIRST_DATA_BLOCK < totalBlocks <= BITMAP_BITS && 1 <= totalInodes <= BITMAP_BITS
    ensures WellFormed(fs)
  {
    Fs(totalBlocks, totalInodes, FIRST_DATA_BLOCK + 1, [])
  }

  function Run(fs: Fs, adds: seq<Add>): Fs {
    if adds == [] then fs
    else
      var a := adds[|adds| - 1];
      AddTo(Run(fs, adds[..|adds| - 1]), a.name, a.data)
  }

  /** Every add of the run is one the adder can be asked for. */
  predicate RunsWithin(fs: Fs, adds: seq<Add>) {
    forall k {:trigger adds[k]} :: 0 <= k < |adds| ==> CanAdd(Run(fs, adds[..k]), adds[k].name, adds[k].data)
  }

  lemma RunsWithinPrefix(fs: Fs, adds: seq<Add>, n: nat)
    requires RunsWithin(fs, adds) && n <= |adds|
    ensures RunsWithin(fs, adds[..n])
  {
    hide CanAdd;
    forall k {:trigger adds[..n][k]} | 0 <= k < n
      ensures CanAdd(Run(fs, adds[..n][..k]), adds[..n][k].name, adds[..n][k].data)
    {
      assert adds[..n][..k] == adds[..k] && adds[..n][k] == adds[k];
    }
  }

  lemma {:induction false} RunKeepsWellFormed(fs: Fs, adds: seq<Add>)
    requires WellFormed(fs) && RunsWithin(fs, adds)
    ensures WellFormed(Run(fs, adds))
    ensures Run(fs, adds).totalBlocks == fs.totalBlocks && Run(fs, adds).totalInodes == fs.totalInodes
    ensures fs.slots <= Run(fs, adds).slots
    decreases |adds|
  {
    hide WellFormed, CanAdd, OutcomeOf;
    if adds != [] {
      var n := |adds| - 1;
      RunsWithinPrefix(fs, adds, n);
      RunKeepsWellFormed(fs, adds[..n]);
      assert CanAdd(Run(fs, adds[..n]), adds[n].name, adds[n].data);
      AddKeepsWellFormed(Run(fs, adds[..n]), adds[n].name, adds[n].data);
    }
  }

  // ---- allocation ------------------------------------------------------

  lemma {:induction false} StoredUpTo(slots: seq<Slot>, j: nat, k: nat)
    requires j < k <= |slots|
    ensures First(slots, j) + SlotBlocks(slots[j]) <= First(slots, k)
    decreases k
  {
    assert slots[..k][..k - 1] == slots[..k - 1];
    if j + 1 < k {
      StoredUpTo(slots, j, k - 1);
    }
  }

  /** The blocks slot `k` owns. */
  predicate Owns(slots: seq<Slot>, k: nat, b: nat)
    requires k < |slots|
  {
    First(slots, k) <= b < First(slots, k) + SlotBlocks(slots[k])
  }

  /** No block has two owners, and every owned block lies above the root's and is marked. */
  lemma OwnersDisjoint(fs: Fs, j: nat, k: nat, b: nat)
    requires WellFormed(fs) && j < |fs.slots| && k < |fs.slots| && Owns(fs.slots, j, b)
    ensures Owns(fs.slots, k, b) ==> j == k
    ensures FIRST_DATA_BLOCK < b < fs.nextBlock && b < BITMAP_BITS
    ensures At(Disk(fs), BLOCK_MAP, Bitmap(fs.nextBlock)) && Marked(Bitmap(fs.nextBlock), b)
  {
    hide Bitmap, Marked, Image, SmallSlots, ShortNames, Named, NamedBlocks, StoredBlocks, SlotBlocks;
    if j < k {
      StoredUpTo(fs.slots, j, k);
    } else if k < j {
      StoredUpTo(fs.slots, k, j);
    }
    StoredUpTo(fs.slots, j, |fs.slots|);
    BlockMapRegion(PartsOf(fs));
    MarkedIff(fs.nextBlock, b);
  }

  /** A data block. */
  function BlockOf(d: seq<byte>, b: nat): (r: seq<byte>)
    requires BLOCK_SIZE * (b + 1) <= |d|
    ensures |r| == BLOCK_SIZE
  {
    d[BLOCK_SIZE * b..BLOCK_SIZE * (b + 1)]
  }

  lemma DataBlock(fs: Fs, b: nat)
    requires WellFormed(fs) && FIRST_DATA_BLOCK < b < fs.totalBlocks
    ensures BlockOf(Disk(fs), b)
      == Filled(Packed(fs.slots), BLOCK_SIZE * (fs.totalBlocks - 12))[BLOCK_SIZE * (b - 12)..BLOCK_SIZE * (b - 11)]
  {
    hide Image, SmallSlots, ShortNames, Named, NamedBlocks, StoredBlocks, SlotBlocks, Filled, Packed;
    DataRegion(PartsOf(fs));
    AtSlice(Disk(fs), DATA, Filled(Packed(fs.slots), BLOCK_SIZE * (fs.totalBlocks - 12)), BLOCK_SIZE * (b - 12),
      BLOCK_SIZE * (b - 11));
  }

  /** A data block that is not marked is all zero. */
  lemma UnmarkedIsZero(fs: Fs, b: nat)
    requires WellFormed(fs) && FIRST_DATA_BLOCK < b < fs.totalBlocks && !Marked(Bitmap(fs.nextBlock), b)
    ensures BlockOf(Disk(fs), b) == Zeros(BLOCK_SIZE)
  {
    hide Image, SmallSlots, ShortNames, Named, NamedBlocks, StoredBlocks, SlotBlocks, Packed, Marked, Bitmap, Disk;
    MarkedIff(fs.nextBlock, b);
    assert fs.slots[..|fs.slots|] == fs.slots;
    DataBlock(fs, b);
  }

  /** An add only appends to the data. */
  lemma AddAppends(fs: Fs, name: seq<byte>, data: seq<byte>)
    requires WellFormed(fs) && CanAdd(fs, name, data)
    ensures var fs' := AddTo(fs, name, data);
      && WellFormed(fs') && fs'.totalBlocks == fs.totalBlocks
      && fs.slots <= fs'.slots && Packed(fs.slots) <= Packed(fs'.slots)
      && |Packed(fs'.slots)| <= BLOCK_SIZE * (fs.totalBlocks - 12)
  {
    hide SmallSlots, ShortNames, Named, NamedBlocks, StoredBlocks, SlotBlocks, Packed, OutcomeOf, CanAdd;
    var fs' := AddTo(fs, name, data);
    AddKeepsWellFormed(fs, name, data);
    assert fs'.slots[..|fs'.slots|] == fs'.slots;
    if fs'.slots != fs.slots {
      SlotAdded(fs.slots, fs'.slots[|fs.slots|]);
      assert fs'.slots == fs.slots + [fs'.slots[|fs.slots|]];
    }
  }

  /** An add changes no block that is already owned. */
  lemma AddKeepsBlocks(fs: Fs, name: seq<byte>, data: seq<byte>, k: nat, b: nat)
    requires WellFormed(fs) && CanAdd(fs, name, data) && k < |fs.slots| && Owns(fs.slots, k, b)
    ensures var fs' := AddTo(fs, name, data);
      && WellFormed(fs') && Owns(fs'.slots, k, b) && b < fs.totalBlocks
      && BlockOf(Disk(fs'), b) == BlockOf(Disk(fs), b)
  {
    hide Image, SmallSlots, ShortNames, Named, NamedBlocks, StoredBlocks, SlotBlocks, Packed, Marked, Bitmap, Disk,
      OutcomeOf, Filled, CanAdd, AddTo, BlockOf;
    var fs' := AddTo(fs, name, data);
    AddAppends(fs, name, data);
    OwnersDisjoint(fs, k, k, b);
    assert fs'.slots[..k] == fs.slots[..k] && fs.slots[..|fs.slots|] == fs.slots;
    StoredUpTo(fs.slots, k, |fs.slots|);
    DataBlock(fs, b);
    DataBlock(fs', b);
    FilledPrefix(Packed(fs.slots), Packed(fs'.slots), BLOCK_SIZE * (fs.totalBlocks - 12), BLOCK_SIZE * (b - 12),
      BLOCK_SIZE * (b - 11));
  }

  lemma FilledPrefix(a: seq<byte>, b: seq<byte>, size: nat, lo: nat, hi: nat)
    requires a <= b && |b| <= size && lo <= hi <= |a|
    ensures Filled(a, size)[lo..hi] == Filled(b, size)[lo..hi]
  {
  }

  // ---- free counts -----------------------------------------------------

  /** How many adds took an inode number and failed. */
  function Failed(slots: seq<Slot>): nat { |slots| - |Named(slots)| }

  /** The counters in the superblock against the bitmaps, as they stand on the disk: `free_inodes` exceeds
      the clear inode bits by the inode numbers that failed adds took, and `free_blocks` exceeds the clear
      block bits by one, for the root's own block, and the blocks that failed adds took. */
  lemma FreeCounts(fs: Fs)
    requires WellFormed(fs)
    ensures var d := Disk(fs);
      && GetLe(d[24..28]) == ClearBits(d[INODE_MAP..BLOCK_MAP], 0, fs.totalInodes) + Failed(fs.slots)
      && GetLe(d[20..24]) == ClearBits(d[BLOCK_MAP..INODE_TABLE], 0, fs.totalBlocks) + 1
                             + (fs.nextBlock - FIRST_DATA_BLOCK - 1 - NamedBlocks(fs.slots))
  {
    hide Image, SmallSlots, ShortNames, Named, NamedBlocks, StoredBlocks, Marked, Bitmap, GetLe, ClearBits, SuperBytes;
    var x := PartsOf(fs);
    SuperRegion(x);
    SuperFields(Image(x), 0, x.totalBlocks, x.totalInodes, x.freeBlocks, x.freeInodes);
    InodeMapRegion(x);
    BlockMapRegion(x);
    ClearBitsOf(x.inodes, 0, fs.totalInodes);
    ClearBitsOf(x.blocks, 0, fs.totalBlocks);
  }

  predicate AllAdded(fs: Fs, adds: seq<Add>) {
    forall k {:trigger adds[k]} :: 0 <= k < |adds| ==> OutcomeOf(Run(fs, adds[..k]), adds[k].data).Added?
  }

  lemma {:induction false} AllNamed(fs: Fs, adds: seq<Add>)
    requires WellFormed(fs) && RunsWithin(fs, adds) && AllAdded(fs, adds)
    requires Failed(fs.slots) == 0 && fs.nextBlock == FIRST_DATA_BLOCK + 1 + NamedBlocks(fs.slots)
    ensures var r := Run(fs, adds); Failed(r.slots) == 0 && r.nextBlock == FIRST_DATA_BLOCK + 1 + NamedBlocks(r.slots)
    decreases |adds|
  {
    hide WellFormed, CanAdd, OutcomeOf, Named, NamedBlocks;
    if adds != [] {
      var n := |adds| - 1;
      RunsWithinPrefix(fs, adds, n);
      assert AllAdded(fs, adds[..n]) by {
        forall k {:trigger adds[..n][k]} | 0 <= k < n
          ensures OutcomeOf(Run(fs, adds[..n][..k]), adds[..n][k].data).Added?
        {
          assert adds[..n][..k] == adds[..k] && adds[..n][k] == adds[k];
        }
      }
      AllNamed(fs, adds[..n]);
      assert OutcomeOf(Run(fs, adds[..n]), adds[n].data).Added?;
      SlotAdded(Run(fs, adds[..n]).slots, Stored(adds[n].data, Some(Cut(adds[n].name))));
    }
  }

  /** Over any run of successful adds on a fresh disk, `free_inodes` is the number of clear inode bits
      and `free_blocks` one more than the number of clear block bits. */
  lemma FreeCountsConserved(totalBlocks: nat, totalInodes: nat, adds: seq<Add>)
    requires FIRST_DATA_BLOCK < totalBlocks <= BITMAP_BITS && 1 <= totalInodes <= BITMAP_BITS
    requires RunsWithin(Format(totalBlocks, totalInodes), adds) && AllAdded(Format(totalBlocks, totalInodes), adds)
    ensures var fs := Run(Format(totalBlocks, totalInodes), adds);
      && WellFormed(fs)
      && GetLe(Disk(fs)[24..28]) == ClearBits(Disk(fs)[INODE_MAP..BLOCK_MAP], 0, totalInodes)
      && GetLe(Disk(fs)[20..24]) == ClearBits(Disk(fs)[BLOCK_MAP..INODE_TABLE], 0, totalBlocks) + 1
  {
    hide Image, SmallSlots, ShortNames, StoredBlocks, Marked, Bitmap, GetLe, ClearBits, SuperBytes, Disk, WellFormed,
      RunsWithin, AllAdded, Run;
    var fs0 := Format(totalBlocks, totalInodes);
    RunKeepsWellFormed(fs0, adds);
    AllNamed(fs0, adds);
    FreeCounts(Run(fs0, adds));
  }
}
