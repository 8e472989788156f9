// Reading and overwriting the regions of an FSSO disk.
module FssoParts {
  import opened Bytes
  import opened FssoImage

  lemma SuperRegion(x: Parts)
    requires Fit(x)
    ensures At(Image(x), 0, SuperBytes(x.totalBlocks, x.totalInodes, x.freeBlocks, x.freeInodes))
  {
  }

  lemma InodeMapRegion(x: Parts)
    requires Fit(x)
    ensures At(Image(x), INODE_MAP, Bitmap(x.inodes))
  {
    hide Bitmap, SuperBytes, Filled;
  }

  lemma BlockMapRegion(x: Parts)
    requires Fit(x)
    ensures At(Image(x), BLOCK_MAP, Bitmap(x.blocks))
  {
    hide Bitmap, SuperBytes, Filled;
  }

  lemma TableRegion(x: Parts)
    requires Fit(x)
    ensures At(Image(x), INODE_TABLE, Filled(x.table, ROOT_BLOCK - INODE_TABLE))
  {
    hide Bitmap, SuperBytes, Filled;
  }

  lemma RootRegion(x: Parts)
    requires Fit(x)
    ensures At(Image(x), ROOT_BLOCK, Filled(x.root, BLOCK_SIZE))
  {
    hide Bitmap, SuperBytes, Filled;
  }

  lemma DataRegion(x: Parts)
    requires Fit(x)
    ensures At(Image(x), DATA, Filled(x.data, BLOCK_SIZE * (x.totalBlocks - 12)))
  {
    hide Bitmap, SuperBytes, Filled;
  }

  // ---- words -----------------------------------------------------------

  lemma WordAt(d: seq<byte>, p: nat, v: nat)
    requires At(d, p, PutLe(v, 4)) && v < TWO32
    ensures GetLe(d[p..p + 4]) == v
  {
    Pow256Values();
    GetPutLe(v, 4);
  }

  /** The fields of the superblock. */
  lemma SuperFields(d: seq<byte>, p: nat, totalBlocks: nat, totalInodes: nat, freeBlocks: nat, freeInodes: nat)
    requires At(d, p, SuperBytes(totalBlocks, totalInodes, freeBlocks, freeInodes))
    requires totalBlocks < TWO32 && totalInodes < TWO32 && freeBlocks < TWO32 && freeInodes < TWO32
    ensures GetLe(d[p..p + 8]) == FSSO_MAGIC
    ensures GetLe(d[p + 12..p + 16]) == totalBlocks && GetLe(d[p + 16..p + 20]) == totalInodes
    ensures GetLe(d[p + 20..p + 24]) == freeBlocks && GetLe(d[p + 24..p + 28]) == freeInodes
  {
    hide PutLe, GetLe, SuperTail;
    var a, b, c, e := PutLe(FSSO_MAGIC, 8), PutLe(BLOCK_SIZE, 4), PutLe(totalBlocks, 4), PutLe(totalInodes, 4);
    var f, g := PutLe(freeBlocks, 4), PutLe(freeInodes, 4);
    AtSplit(d, p, SuperHead(totalBlocks, totalInodes) + f + g, SuperTail());
    AtSplit(d, p, SuperHead(totalBlocks, totalInodes) + f, g);
    AtSplit(d, p, SuperHead(totalBlocks, totalInodes), f);
    AtSplit(d, p, a + b + c, e);
    AtSplit(d, p, a + b, c);
    AtSplit(d, p, a, b);
    Pow256Values();
    GetPutLe(FSSO_MAGIC, 8);
    WordAt(d, p + 12, totalBlocks);
    WordAt(d, p + 16, totalInodes);
    WordAt(d, p + 20, freeBlocks);
    WordAt(d, p + 24, freeInodes);
  }

  // ---- overwriting -----------------------------------------------------

  lemma PutFreeBlocks(x: Parts, v: nat)
    requires Fit(x)
    ensures Splice(Image(x), 20, PutLe(v, 4)) == Image(x.(freeBlocks := v))
  {
    hide Bitmap, Filled, PutLe, SuperHead, SuperTail;
    var tail := PutLe(x.freeInodes, 4) + SuperTail() + Bitmap(x.inodes) + Bitmap(x.blocks)
                + Filled(x.table, ROOT_BLOCK - INODE_TABLE) + Filled(x.root, BLOCK_SIZE)
                + Filled(x.data, BLOCK_SIZE * (x.totalBlocks - 12));
    assert Image(x) == SuperHead(x.totalBlocks, x.totalInodes) + PutLe(x.freeBlocks, 4) + tail;
    assert Image(x.(freeBlocks := v)) == SuperHead(x.totalBlocks, x.totalInodes) + PutLe(v, 4) + tail;
  }

  lemma PutFreeInodes(x: Parts, v: nat)
    requires Fit(x)
    ensures Splice(Image(x), 24, PutLe(v, 4)) == Image(x.(freeInodes := v))
  {
    hide Bitmap, Filled, PutLe, SuperHead, SuperTail;
    var head := SuperHead(x.totalBlocks, x.totalInodes) + PutLe(x.freeBlocks, 4);
    var tail := SuperTail() + Bitmap(x.inodes) + Bitmap(x.blocks)
                + Filled(x.table, ROOT_BLOCK - INODE_TABLE) + Filled(x.root, BLOCK_SIZE)
                + Filled(x.data, BLOCK_SIZE * (x.totalBlocks - 12));
    SpliceInside(head, PutLe(x.freeInodes, 4), tail, 0, PutLe(v, 4));
    assert Splice(PutLe(x.freeInodes, 4), 0, PutLe(v, 4)) == PutLe(v, 4);
    assert Image(x) == head + PutLe(x.freeInodes, 4) + tail;
    assert Image(x.(freeInodes := v)) == head + PutLe(v, 4) + tail;
  }

  lemma SpliceOne(m: seq<byte>, i: nat, b: byte)
    requires i < |m|
    ensures Splice(m, i, [b]) == m[i := b]
  {
  }

  /** Setting the first clear bit of a bitmap. */
  lemma PutInodeBit(x: Parts)
    requires Fit(x) && x.inodes < BITMAP_BITS
    ensures var p := INODE_MAP + x.inodes / 8; var b := Image(x)[p] as nat + Bit(x.inodes % 8);
      b < 256 && Splice(Image(x), p, [b]) == Image(x.(inodes := x.inodes + 1))
  {
    hide Bitmap, SuperBytes, Filled, Bit, Splice;
    InodeMapRegion(x);
    AtIndex(Image(x), INODE_MAP, Bitmap(x.inodes), x.inodes / 8);
    MarkNext(x.inodes);
    var i, b := x.inodes / 8, Bitmap(x.inodes)[x.inodes / 8] as nat + Bit(x.inodes % 8);
    SpliceOne(Bitmap(x.inodes), i, b);
    var head := SuperBytes(x.totalBlocks, x.totalInodes, x.freeBlocks, x.freeInodes);
    var tail := Bitmap(x.blocks) + Filled(x.table, ROOT_BLOCK - INODE_TABLE) + Filled(x.root, BLOCK_SIZE)
                + Filled(x.data, BLOCK_SIZE * (x.totalBlocks - 12));
    SpliceInside(head, Bitmap(x.inodes), tail, i, [b]);
    assert Image(x) == head + Bitmap(x.inodes) + tail;
    assert Image(x.(inodes := x.inodes + 1)) == head + Bitmap(x.inodes + 1) + tail;
  }

  lemma PutBlockBit(x: Parts)
    requires Fit(x) && x.blocks < BITMAP_BITS
    ensures var p := BLOCK_MAP + x.blocks / 8; var b := Image(x)[p] as nat + Bit(x.blocks % 8);
      b < 256 && Splice(Image(x), p, [b]) == Image(x.(blocks := x.blocks + 1))
  {
    hide Bitmap, SuperBytes, Filled, Bit, Splice;
    BlockMapRegion(x);
    AtIndex(Image(x), BLOCK_MAP, Bitmap(x.blocks), x.blocks / 8);
    MarkNext(x.blocks);
    var i, b: byte := x.blocks / 8, Bitmap(x.blocks)[x.blocks / 8] as nat + Bit(x.blocks % 8);
    SpliceOne(Bitmap(x.blocks), i, b);
    var head := SuperBytes(x.totalBlocks, x.totalInodes, x.freeBlocks, x.freeInodes) + Bitmap(x.inodes);
    var tail := Filled(x.table, ROOT_BLOCK - INODE_TABLE) + Filled(x.root, BLOCK_SIZE)
                + Filled(x.data, BLOCK_SIZE * (x.totalBlocks - 12));
    SpliceInside(head, Bitmap(x.blocks), tail, i, [b]);
    assert Image(x) == head + Bitmap(x.blocks) + tail;
    assert Image(x.(blocks := x.blocks + 1)) == head + Bitmap(x.blocks + 1) + tail;
  }

  /** Writing right behind what a region already holds. */
  lemma PutTable(x: Parts, s: seq<byte>)
    requires Fit(x) && |x.table| + |s| <= ROOT_BLOCK - INODE_TABLE
    ensures Splice(Image(x), INODE_TABLE + |x.table|, s) == Image(x.(table := x.table + s))
  {
    hide Bitmap, SuperBytes, Filled;
    FillMore(x.table, ROOT_BLOCK - INODE_TABLE, s);
    var head := SuperBytes(x.totalBlocks, x.totalInodes, x.freeBlocks, x.freeInodes) + Bitmap(x.inodes)
      + Bitmap(x.blocks);
    var tail := Filled(x.root, BLOCK_SIZE) + Filled(x.data, BLOCK_SIZE * (x.totalBlocks - 12));
    SpliceInside(head, Filled(x.table, ROOT_BLOCK - INODE_TABLE), tail, |x.table|, s);
    assert Image(x) == head + Filled(x.table, ROOT_BLOCK - INODE_TABLE) + tail;
    assert Image(x.(table := x.table + s)) == head + Filled(x.table + s, ROOT_BLOCK - INODE_TABLE) + tail;
  }

  lemma PutRoot(x: Parts, s: seq<byte>)
    requires Fit(x) && |x.root| + |s| <= BLOCK_SIZE
    ensures Splice(Image(x), ROOT_BLOCK + |x.root|, s) == Image(x.(root := x.root + s))
  {
    hide Bitmap, SuperBytes, Filled;
    FillMore(x.root, BLOCK_SIZE, s);
    var head := SuperBytes(x.totalBlocks, x.totalInodes, x.freeBlocks, x.freeInodes) + Bitmap(x.inodes)
      + Bitmap(x.blocks)
                + Filled(x.table, ROOT_BLOCK - INODE_TABLE);
    var tail := Filled(x.data, BLOCK_SIZE * (x.totalBlocks - 12));
    SpliceInside(head, Filled(x.root, BLOCK_SIZE), tail, |x.root|, s);
    assert Image(x) == head + Filled(x.root, BLOCK_SIZE) + tail;
    assert Image(x.(root := x.root + s)) == head + Filled(x.root + s, BLOCK_SIZE) + tail;
  }

  lemma PutData(x: Parts, s: seq<byte>)
    requires Fit(x) && |x.data| + |s| <= BLOCK_SIZE * (x.totalBlocks - 12)
    ensures Splice(Image(x), DATA + |x.data|, s) == Image(x.(data := x.data + s))
  {
    hide Bitmap, SuperBytes, Filled;
    FillMore(x.data, BLOCK_SIZE * (x.totalBlocks - 12), s);
    var size := BLOCK_SIZE * (x.totalBlocks - 12);
    var head := SuperBytes(x.totalBlocks, x.totalInodes, x.freeBlocks, x.freeInodes) + Bitmap(x.inodes)
      + Bitmap(x.blocks)
                + Filled(x.table, ROOT_BLOCK - INODE_TABLE) + Filled(x.root, BLOCK_SIZE);
    SpliceInside(head, Filled(x.data, size), [], |x.data|, s);
    assert Image(x) == head + Filled(x.data, size) + [];
    assert Image(x.(data := x.data + s)) == head + Filled(x.data + s, size) + [];
  }

  /** The zeros behind a region's contents are as good as written. */
  lemma TableZeros(x: Parts, n: nat)
    requires Fit(x) && |x.table| + n <= ROOT_BLOCK - INODE_TABLE
    ensures Image(x.(table := x.table + Zeros(n))) == Image(x)
  {
    hide Bitmap, SuperBytes, Filled;
    FillZeros(x.table, ROOT_BLOCK - INODE_TABLE, n);
  }

  lemma RootZeros(x: Parts, n: nat)
    requires Fit(x) && |x.root| + n <= BLOCK_SIZE
    ensures Image(x.(root := x.root + Zeros(n))) == Image(x)
  {
    hide Bitmap, SuperBytes, Filled;
    FillZeros(x.root, BLOCK_SIZE, n);
  }

  lemma DataZeros(x: Parts, n: nat)
    requires Fit(x) && |x.data| + n <= BLOCK_SIZE * (x.totalBlocks - 12)
    ensures Image(x.(data := x.data + Zeros(n))) == Image(x)
  {
    hide Bitmap, SuperBytes, Filled;
    FillZeros(x.data, BLOCK_SIZE * (x.totalBlocks - 12), n);
  }

  lemma SpliceSame(d: seq<byte>, p: nat, s: seq<byte>)
    requires At(d, p, s)
    ensures Splice(d, p, s) == d
  {
  }
}
