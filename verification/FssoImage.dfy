// The bytes of an FSSO disk, as a function of what has been put on it.
module FssoImage {
  import opened Bytes

  const BLOCK_SIZE: nat := 1024
  const DIRECT_BLOCKS: nat := 12
  const MAX_FILENAME: nat := 255
  const FIRST_DATA_BLOCK: nat := 11
  const FSSO_MAGIC: nat := 0x4653534F5F5631
  const TYPE_FILE: byte := 1
  const TYPE_DIR: byte := 2
  const INODE_SIZE: nat := 76
  const ENTRY_SIZE: nat := 260
  const FS_NAME: seq<byte> := [70, 83, 83, 79, 32, 32, 32, 32]

  /** How many blocks or inodes one bitmap block can tell of, and how many whole inodes fit below the
      root directory's block. */
  const BITMAP_BITS: nat := 8192
  const TABLE_INODES: nat := 107
  const ROOT_ENTRIES: nat := 3

  /** Where the regions of the disk start. */
  const INODE_MAP: nat := 1024
  const BLOCK_MAP: nat := 2048
  const INODE_TABLE: nat := 3072
  const ROOT_BLOCK: nat := 11264
  const DATA: nat := 12288

  lemma SpliceInside(a: seq<byte>, m: seq<byte>, c: seq<byte>, p: nat, s: seq<byte>)
    requires p + |s| <= |m|
    ensures Splice(a + m + c, |a| + p, s) == a + Splice(m, p, s) + c
  {
    var d := a + m + c;
    assert d[..|a| + p] == a + m[..p];
    assert d[|a| + p + |s|..] == m[p + |s|..] + c;
  }

  lemma SpliceTwice(d: seq<byte>, p: nat, s: seq<byte>, t: seq<byte>)
    requires p + |s| + |t| <= |d|
    ensures Splice(Splice(d, p, s), p + |s|, t) == Splice(d, p, s + t)
  {
    var e := Splice(d, p, s);
    assert e[..p + |s|] == d[..p] + s;
    assert e[p + |s| + |t|..] == d[p + |s| + |t|..];
  }

  /** A region that is filled from its start and zero beyond. */
  function Filled(used: seq<byte>, size: nat): (r: seq<byte>)
    requires |used| <= size
    ensures |r| == size && r[..|used|] == used
  {
    used + Zeros(size - |used|)
  }

  lemma FillMore(used: seq<byte>, size: nat, s: seq<byte>)
    requires |used| + |s| <= size
    ensures Splice(Filled(used, size), |used|, s) == Filled(used + s, size)
  {
    assert Filled(used, size)[|used| + |s|..] == Zeros(size - |used + s|);
  }

  lemma FillZeros(used: seq<byte>, size: nat, n: nat)
    requires |used| + n <= size
    ensures Filled(used + Zeros(n), size) == Filled(used, size)
  {
  }

  // ---- bitmaps ---------------------------------------------------------

  function Bit(k: nat): (b: nat)
    requires k < 8
    ensures b > 0
  {
    [1, 2, 4, 8, 16, 32, 64, 128][k]
  }

  /** `map[i / 8] & (1 << i % 8)`. */
  predicate Marked(m: seq<byte>, i: nat)
    requires i / 8 < |m|
  {
    m[i / 8] as nat / Bit(i % 8) % 2 == 1
  }

  function LowOnes(n: int): byte {
    if n >= 8 then 255 else if n <= 0 then 0 else (Bit(n) - 1) as byte
  }

  /** A bitmap block whose first `n` bits are set. */
  function Bitmap(n: nat): (r: seq<byte>)
    ensures |r| == BLOCK_SIZE
  {
    seq(BLOCK_SIZE, i => LowOnes(n - 8 * i))
  }

  lemma LowOnesBits(n: int, k: nat)
    requires k < 8
    ensures (LowOnes(n) as nat / Bit(k) % 2 == 1) == (k < n)
  {
    if 0 < n < 8 {
      var _ := [Bit(n), Bit(k)];
    }
  }

  lemma MarkedIff(n: nat, i: nat)
    requires i < BITMAP_BITS
    ensures Marked(Bitmap(n), i) <==> i < n
  {
    hide LowOnes, Bit;
    LowOnesBits(n - 8 * (i / 8), i % 8);
  }

  lemma MarkNext(n: nat)
    requires n < BITMAP_BITS
    ensures var b := Bitmap(n)[n / 8] as nat + Bit(n % 8);
      b < 256 && Bitmap(n)[n / 8 := b] == Bitmap(n + 1)
  {
    var q := n / 8;
    assert forall i :: 0 <= i < q ==> n - 8 * i >= 8;
    assert forall i :: q < i < BLOCK_SIZE ==> n + 1 - 8 * i <= 0;
  }

  /** How many of the bits from `lo` to `hi` are clear. */
  function ClearBits(m: seq<byte>, lo: nat, hi: nat): nat
    requires lo <= hi <= 8 * |m|
    decreases hi - lo
  {
    if lo == hi then 0 else (if Marked(m, lo) then 0 else 1) + ClearBits(m, lo + 1, hi)
  }

  lemma {:induction false} ClearBitsOf(n: nat, lo: nat, hi: nat)
    requires lo <= hi <= BITMAP_BITS
    ensures ClearBits(Bitmap(n), lo, hi) == if n <= lo then hi - lo else if n <= hi then hi - n else 0
    decreases hi - lo
  {
    hide Marked, Bitmap;
    if lo < hi {
      MarkedIff(n, lo);
      ClearBitsOf(n, lo + 1, hi);
    }
  }

  // ---- files -----------------------------------------------------------

  /** What an add left behind for the inode number it took: nothing, when the blocks ran out; a file
      with a directory entry of this name; or a file without one, when the root was full. */
  datatype Slot = NoBlocks | Stored(data: seq<byte>, name: Option<seq<byte>>)

  datatype Entry = Entry(name: seq<byte>, inode: nat)

  function Blocks(size: nat): (n: nat)
    ensures size <= BLOCK_SIZE * n < size + BLOCK_SIZE
  {
    (size + BLOCK_SIZE - 1) / BLOCK_SIZE
  }

  function SlotBlocks(s: Slot): nat {
    if s.Stored? then Blocks(|s.data|) else 0
  }

  /** File data padded to whole blocks. */
  function Padded(data: seq<byte>): (r: seq<byte>)
    ensures |r| == BLOCK_SIZE * Blocks(|data|)
  {
    data + Zeros(BLOCK_SIZE * Blocks(|data|) - |data|)
  }

  function StoredBlocks(slots: seq<Slot>): nat {
    if slots == [] then 0 else StoredBlocks(slots[..|slots| - 1]) + SlotBlocks(slots[|slots| - 1])
  }

  /** The first data block of the file in slot `k`. */
  function First(slots: seq<Slot>, k: nat): nat
    requires k <= |slots|
  {
    FIRST_DATA_BLOCK + 1 + StoredBlocks(slots[..k])
  }

  /** The data blocks. */
  function Packed(slots: seq<Slot>): (r: seq<byte>)
    ensures |r| == BLOCK_SIZE * StoredBlocks(slots)
  {
    if slots == [] then []
    else
      var last := slots[|slots| - 1];
      Packed(slots[..|slots| - 1]) + if last.Stored? then Padded(last.data) else []
  }

  /** The block numbers of an inode. */
  function Directs(first: nat, n: nat): (r: seq<byte>)
    ensures |r| == 4 * n
  {
    if n == 0 then [] else Directs(first, n - 1) + PutLe(first + n - 1, 4)
  }

  function InodeHead(size: nat, typ: byte): (r: seq<byte>)
    ensures |r| == 16
  {
    PutLe(size, 4) + Zeros(8) + [typ] + Zeros(3)
  }

  function InodeBytes(size: nat, typ: byte, first: nat, blocks: nat): (r: seq<byte>)
    requires blocks <= DIRECT_BLOCKS
    ensures |r| == INODE_SIZE
  {
    InodeHead(size, typ) + Directs(first, blocks) + Zeros(60 - 4 * blocks)
  }

  function RootInode(): seq<byte> {
    InodeBytes(0, TYPE_DIR, FIRST_DATA_BLOCK, 1)
  }

  predicate SmallSlots(slots: seq<Slot>) {
    forall k :: 0 <= k < |slots| ==> SlotBlocks(slots[k]) <= DIRECT_BLOCKS
  }

  /** The inode table: the root's inode and one for each slot. */
  function Table(slots: seq<Slot>): (r: seq<byte>)
    requires SmallSlots(slots)
    ensures |r| == INODE_SIZE * (|slots| + 1)
  {
    if slots == [] then RootInode()
    else
      var n := |slots| - 1;
      Table(slots[..n]) + SlotInode(slots[n], First(slots, n))
  }

  function SlotInode(s: Slot, first: nat): (r: seq<byte>)
    requires SlotBlocks(s) <= DIRECT_BLOCKS
    ensures |r| == INODE_SIZE
  {
    if s.Stored? then InodeBytes(|s.data|, TYPE_FILE, first, SlotBlocks(s)) else Zeros(INODE_SIZE)
  }

  /** The directory: the named slots with their inode numbers. */
  function Named(slots: seq<Slot>): (r: seq<Entry>)
    ensures |r| <= |slots|
  {
    if slots == [] then []
    else
      var last := slots[|slots| - 1];
      Named(slots[..|slots| - 1]) + if last.Stored? && last.name.Some? then [Entry(last.name.value, |slots|)] else []
  }

  function NamedBlocks(slots: seq<Slot>): (n: nat)
    ensures n <= StoredBlocks(slots)
  {
    if slots == [] then 0
    else
      var last := slots[|slots| - 1];
      NamedBlocks(slots[..|slots| - 1]) + if last.Stored? && last.name.Some? then SlotBlocks(last) else 0
  }

  predicate ShortNames(es: seq<Entry>) {
    forall k :: 0 <= k < |es| ==> |es[k].name| <= MAX_FILENAME && NulFree(es[k].name)
  }

  function EntryBytes(e: Entry): (r: seq<byte>)
    requires |e.name| <= MAX_FILENAME
    ensures |r| == ENTRY_SIZE
  {
    PutLe(e.inode, 4) + e.name + Zeros(256 - |e.name|)
  }

  function RootBytes(es: seq<Entry>): (r: seq<byte>)
    requires ShortNames(es)
    ensures |r| == ENTRY_SIZE * |es|
  {
    if es == [] then [] else RootBytes(es[..|es| - 1]) + EntryBytes(es[|es| - 1])
  }

  // ---- the disk --------------------------------------------------------

  function SuperBytes(totalBlocks: nat, totalInodes: nat, freeBlocks: nat, freeInodes: nat): (r: seq<byte>)
    ensures |r| == BLOCK_SIZE
  {
    SuperHead(totalBlocks, totalInodes) + PutLe(freeBlocks, 4) + PutLe(freeInodes, 4) + SuperTail()
  }

  function SuperHead(totalBlocks: nat, totalInodes: nat): (r: seq<byte>)
    ensures |r| == 20
  {
    PutLe(FSSO_MAGIC, 8) + PutLe(BLOCK_SIZE, 4) + PutLe(totalBlocks, 4) + PutLe(totalInodes, 4)
  }

  function SuperTail(): (r: seq<byte>)
    ensures |r| == 996
  {
    PutLe(FIRST_DATA_BLOCK, 4) + FS_NAME + PutLe(1, 4) + Zeros(980)
  }

  /** The regions of a disk, while an add is under way. */
  datatype Parts = Parts(totalBlocks: nat, totalInodes: nat, freeBlocks: nat, freeInodes: nat,
                         inodes: nat, blocks: nat, table: seq<byte>, root: seq<byte>, data: seq<byte>)

  predicate Fit(x: Parts) {
    && FIRST_DATA_BLOCK < x.totalBlocks && |x.table| <= ROOT_BLOCK - INODE_TABLE && |x.root| <= BLOCK_SIZE
    && |x.data| <= BLOCK_SIZE * (x.totalBlocks - 12)
  }

  function Image(x: Parts): (r: seq<byte>)
    requires Fit(x)
    ensures |r| == BLOCK_SIZE * x.totalBlocks
  {
    SuperBytes(x.totalBlocks, x.totalInodes, x.freeBlocks, x.freeInodes) + Bitmap(x.inodes) + Bitmap(x.blocks)
    + Filled(x.table, ROOT_BLOCK - INODE_TABLE) + Filled(x.root, BLOCK_SIZE)
    + Filled(x.data, BLOCK_SIZE * (x.totalBlocks - 12))
  }

  /** What is on a disk: the sizes it was formatted with, the first block not marked, and what each add
      left. */
  datatype Fs = Fs(totalBlocks: nat, totalInodes: nat, nextBlock: nat, slots: seq<Slot>)

  predicate WellFormed(fs: Fs) {
    && FIRST_DATA_BLOCK < fs.totalBlocks <= BITMAP_BITS && 1 <= fs.totalInodes <= BITMAP_BITS
    && |fs.slots| < fs.totalInodes && |fs.slots| < TABLE_INODES
    && SmallSlots(fs.slots)
    && |Named(fs.slots)| <= ROOT_ENTRIES && ShortNames(Named(fs.slots))
    && First(fs.slots, |fs.slots|) <= fs.nextBlock <= fs.totalBlocks
    && (fs.nextBlock == First(fs.slots, |fs.slots|) || fs.nextBlock == fs.totalBlocks)
  }

  function PartsOf(fs: Fs): (x: Parts)
    requires WellFormed(fs)
    ensures Fit(x)
  {
    assert fs.slots[..|fs.slots|] == fs.slots;
    Parts(fs.totalBlocks, fs.totalInodes,
          fs.totalBlocks - FIRST_DATA_BLOCK - NamedBlocks(fs.slots), fs.totalInodes - 1 - |Named(fs.slots)|,
          |fs.slots| + 1, fs.nextBlock, Table(fs.slots), RootBytes(Named(fs.slots)), Packed(fs.slots))
  }

  function Disk(fs: Fs): (r: seq<byte>)
    requires WellFormed(fs)
    ensures |r| == BLOCK_SIZE * fs.totalBlocks
  {
    Image(PartsOf(fs))
  }
}
