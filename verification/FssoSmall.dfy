// Disks too small for three files of the largest size, where a named inode can lie past the reader's first
// block of inodes.
module FssoSmall {
  import opened Bytes
  import opened FssoImage
  import opened FssoParts
  import opened FssoRun
  import opened FssoReader
  import opened FssoRoundTrip
  import opened FssoWriter
  import opened FssoFiles
  import opened FssoPaths

  const NAME_A: seq<byte> := [97]
  const NAME_B: seq<byte> := [98]

  /** An add of the largest size. */
  function Largest(): Add { Add(NAME_A, Zeros(DIRECT_BLOCKS * BLOCK_SIZE)) }

  function Burn(k: nat): seq<Add> { seq(k, _ => Largest()) }

  /** Twelve adds of the largest size, and an empty file. */
  function SmallRun(): seq<Add> { Burn(12) + [Add(NAME_B, [])] }

  /** After some of the large adds: each took an inode number, and at most two of them had room. */
  predicate Burning(fs: Fs) {
    && WellFormed(fs) && fs.totalBlocks < ROOMY && 14 <= fs.totalInodes
    && 12 + DIRECT_BLOCKS * |Named(fs.slots)| <= fs.nextBlock
    && forall j :: 0 <= j < |Named(fs.slots)| ==> Named(fs.slots)[j].name == NAME_A
  }

  lemma LargestBlocks()
    ensures Blocks(|Largest().data|) == DIRECT_BLOCKS && NulFree(NAME_A) && Cut(NAME_A) == NAME_A
  {
  }

  lemma BurnsAllowed(fs: Fs)
    requires |fs.slots| < 12
    ensures CanAdd(fs, NAME_A, Largest().data)
  {
  }

  lemma BurnStep(fs: Fs)
    requires Burning(fs) && |fs.slots| < 12
    ensures CanAdd(fs, NAME_A, Largest().data)
    ensures var r := AddTo(fs, NAME_A, Largest().data);
      Burning(r) && |r.slots| == |fs.slots| + 1 && r.totalBlocks == fs.totalBlocks && r.totalInodes == fs.totalInodes
  {
    hide Named, StoredBlocks, NamedBlocks, Largest, Cut, Blocks, ShortNames, SmallSlots;
    LargestBlocks();
    BurnsAllowed(fs);
    AddKeepsWellFormed(fs, NAME_A, Largest().data);
    var s := if OutcomeOf(fs, Largest().data).NotEnoughBlocks? then NoBlocks else Stored(Largest().data, Some(NAME_A));
    SlotAdded(fs.slots, s);
  }

  lemma RunsWithinMore(fs: Fs, adds: seq<Add>, a: Add)
    requires RunsWithin(fs, adds) && CanAdd(Run(fs, adds), a.name, a.data)
    ensures RunsWithin(fs, adds + [a]) && Run(fs, adds + [a]) == AddTo(Run(fs, adds), a.name, a.data)
  {
    hide CanAdd, AddTo;
    var more := adds + [a];
    assert more[..|adds|] == adds;
    forall k {:trigger more[k]} | 0 <= k < |more|
      ensures CanAdd(Run(fs, more[..k]), more[k].name, more[k].data)
    {
      if k < |adds| {
        assert more[..k] == adds[..k] && more[k] == adds[k];
      }
    }
  }

  lemma {:induction false} BurnRun(totalBlocks: nat, totalInodes: nat, k: nat)
    requires 12 <= totalBlocks < ROOMY && 14 <= totalInodes <= BITMAP_BITS && k <= 12
    ensures RunsWithin(Format(totalBlocks, totalInodes), Burn(k))
    ensures var fs := Run(Format(totalBlocks, totalInodes), Burn(k));
      Burning(fs) && |fs.slots| == k && fs.totalBlocks == totalBlocks && fs.totalInodes == totalInodes
  {
    hide AddTo, CanAdd;
    if k > 0 {
      BurnRun(totalBlocks, totalInodes, k - 1);
      BurnStep(Run(Format(totalBlocks, totalInodes), Burn(k - 1)));
      RunsWithinMore(Format(totalBlocks, totalInodes), Burn(k - 1), Largest());
      assert Burn(k) == Burn(k - 1) + [Largest()];
    }
  }

  /** The empty file gets inode 13, and a name. */
  lemma SmallRunEnds(totalBlocks: nat, totalInodes: nat)
    requires 12 <= totalBlocks < ROOMY && 14 <= totalInodes <= BITMAP_BITS
    ensures RunsWithin(Format(totalBlocks, totalInodes), SmallRun())
    ensures var fs := Run(Format(totalBlocks, totalInodes), SmallRun());
      && WellFormed(fs) && fs.totalInodes == totalInodes
      && |fs.slots| == 13 && fs.slots[12] == Stored([], Some(NAME_B)) && Named(fs.slots) != []
      && Named(fs.slots)[|Named(fs.slots)| - 1] == Entry(NAME_B, 13)
      && Lookup(Named(fs.slots), 0, NAME_B) == Some(13)
  {
    hide Named, StoredBlocks, NamedBlocks, Burn, Run, Lookup, AddTo, RunsWithin;
    BurnRun(totalBlocks, totalInodes, 12);
    var u := Run(Format(totalBlocks, totalInodes), Burn(12));
    assert CanAdd(u, NAME_B, []);
    EmptyAdded(u);
    RunsWithinMore(Format(totalBlocks, totalInodes), Burn(12), Add(NAME_B, []));
    AddKeepsWellFormed(u, NAME_B, []);
  }

  lemma EmptyAdded(fs: Fs)
    requires Burning(fs) && |fs.slots| == 12
    ensures var r := AddTo(fs, NAME_B, []);
      && r.totalInodes == fs.totalInodes && r.slots == fs.slots + [Stored([], Some(NAME_B))]
      && Named(r.slots) == Named(fs.slots) + [Entry(NAME_B, 13)]
      && Lookup(Named(r.slots), 0, NAME_B) == Some(13)
  {
    hide Named, StoredBlocks, NamedBlocks, Lookup, WellFormed, Packed, Table, SmallSlots, OutcomeOf;
    EmptyFits(fs);
    SlotAdded(fs.slots, Stored([], Some(NAME_B)));
    NameIsNew(Named(fs.slots));
  }

  lemma EmptyFits(fs: Fs)
    requires Burning(fs) && |fs.slots| == 12
    ensures OutcomeOf(fs, []).Added? && Cut(NAME_B) == NAME_B
  {
    hide Named, StoredBlocks, NamedBlocks, Packed, Table, SmallSlots;
    assert Blocks(0) == 0;
  }

  lemma NameIsNew(es: seq<Entry>)
    requires forall j :: 0 <= j < |es| ==> es[j].name == NAME_A
    ensures Lookup(es + [Entry(NAME_B, 13)], 0, NAME_B) == Some(13)
  {
    assert NAME_A[0] != NAME_B[0];
    LookupFinds(es + [Entry(NAME_B, 13)], 0, NAME_B, |es|);
  }

  /** Named inodes stay below 13 in every run exactly on disks of 48 blocks or more, and on those with no more
      than 13 inodes at all. */
  lemma LowInodesIff(totalBlocks: nat, totalInodes: nat)
    requires FIRST_DATA_BLOCK < totalBlocks <= BITMAP_BITS && 1 <= totalInodes <= BITMAP_BITS
    ensures (forall adds :: RunsWithin(Format(totalBlocks, totalInodes), adds) ==>
      LowInodes(Run(Format(totalBlocks, totalInodes), adds)))
      <==> totalBlocks >= ROOMY || totalInodes <= INODES_PER_BLOCK
  {
    hide RunsWithin, Run, Named;
    var fs0 := Format(totalBlocks, totalInodes);
    if totalBlocks >= ROOMY || totalInodes <= INODES_PER_BLOCK {
      forall adds | RunsWithin(fs0, adds)
        ensures LowInodes(Run(fs0, adds))
      {
        if totalBlocks >= ROOMY {
          LowInodesAlways(totalBlocks, totalInodes, adds);
        } else {
          RunKeepsWellFormed(fs0, adds);
          NamedInodes(Run(fs0, adds).slots);
        }
      }
    } else {
      SmallRunEnds(totalBlocks, totalInodes);
      assert !LowInodes(Run(fs0, SmallRun()));
    }
  }

  // ---- the failed read -------------------------------------------------

  /** Where the reader looks for inode 13 there is nothing. */
  lemma InodeThirteenMissed(fs: Fs, beyond: Buffer)
    requires WellFormed(fs) && |fs.slots| == 13 && fs.slots[12] == Stored([], Some(NAME_B))
    ensures ReadInode(Dev(fs, beyond), fs.totalInodes, 13) == Some(InodeOf(Zeros(INODE_SIZE)))
  {
    hide Disk, Filled, InodeOf, Table;
    var size, table := ROOT_BLOCK - INODE_TABLE, Table(fs.slots);
    DiskTable(fs);
    SlotInTable(fs.slots, 13);
    LastInodeZeros(fs, table);
    AtInside(Disk(fs), INODE_TABLE, Filled(table, size), BLOCK_SIZE, Zeros(INODE_SIZE));
    assert 13 / INODES_PER_BLOCK == 1 && 13 % INODES_PER_BLOCK == 0;
    assert ReadBlock(Dev(fs, beyond), 4) == Disk(fs)[4096..5120];
    SliceOfSlice(Disk(fs), 4096, 5120, 0, INODE_SIZE);
  }

  /** From the end of the first block of inodes on, the table of 13 slots holds the end of an empty inode. */
  lemma LastInodeZeros(fs: Fs, table: seq<byte>)
    requires SmallSlots(fs.slots) && |fs.slots| == 13 && fs.slots[12] == Stored([], Some(NAME_B))
    requires |table| == 14 * INODE_SIZE && At(table, 13 * INODE_SIZE, TableInode(fs.slots, 13))
    ensures At(Filled(table, ROOT_BLOCK - INODE_TABLE), BLOCK_SIZE, Zeros(INODE_SIZE))
  {
    hide First, PutLe;
    var tail := Zeros(60);
    assert Directs(First(fs.slots, 12), 0) == [];
    assert TableInode(fs.slots, 13) == InodeHead(0, TYPE_FILE) + tail;
    AtSplit(table, 13 * INODE_SIZE, InodeHead(0, TYPE_FILE), tail);
    AtSlice(table, 13 * INODE_SIZE + 16, tail, 20, 60);
    assert tail[20..60] == Zeros(40) && table[BLOCK_SIZE..BLOCK_SIZE + 40] == Zeros(40);
    assert table[BLOCK_SIZE..] == Zeros(40);
    var filled := Filled(table, ROOT_BLOCK - INODE_TABLE);
    assert filled[BLOCK_SIZE..BLOCK_SIZE + INODE_SIZE] == table[BLOCK_SIZE..] + Zeros(36);
  }

  lemma ZeroInodeKind()
    ensures InodeOf(Zeros(INODE_SIZE)).typ == 0
  {
  }

  /** On any such disk that run leaves a file that is found under its name and cannot be read. */
  lemma SmallDiskLosesFile(totalBlocks: nat, totalInodes: nat, beyond: Buffer, maxSize: nat)
    requires 12 <= totalBlocks < ROOMY && 14 <= totalInodes <= BITMAP_BITS
    ensures RunsWithin(Format(totalBlocks, totalInodes), SmallRun())
    ensures var fs := Run(Format(totalBlocks, totalInodes), SmallRun());
      && WellFormed(fs)
      && FindInDir(Dev(fs, beyond), totalInodes, 0, NAME_B) == Found(13)
      && ReadFile(Dev(fs, beyond), totalInodes, 13, maxSize) == NotFile
  {
    hide Run, RunsWithin, SmallRun, Named, Disk, FindInDir, InodeOf, ReadInode, WellFormed, Lookup;
    SmallRunEnds(totalBlocks, totalInodes);
    var fs := Run(Format(totalBlocks, totalInodes), SmallRun());
    FindInRoot(fs, beyond, NAME_B);
    InodeThirteenMissed(fs, beyond);
    ZeroInodeKind();
  }
}
