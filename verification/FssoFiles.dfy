// Names, paths and files over whole runs of adds.
module FssoFiles {
  import opened Bytes
  import opened FssoImage
  import opened FssoRun
  import opened FssoReader
  import opened FssoRoundTrip

  // ---- which slots have names ------------------------------------------

  /** The directory fills before anything else can run out. */
  predicate FirstNamed(slots: seq<Slot>) {
    forall k :: 0 <= k < |slots| && k < ROOT_ENTRIES ==> slots[k].Stored? && slots[k].name.Some?
  }

  lemma {:induction false} NamedOfFirst(slots: seq<Slot>)
    requires FirstNamed(slots) && |Named(slots)| <= ROOT_ENTRIES
    ensures |Named(slots)| == Min(ROOT_ENTRIES, |slots|)
    ensures forall j :: 0 <= j < |Named(slots)| ==> Named(slots)[j] == Entry(slots[j].name.value, j + 1)
    decreases |slots|
  {
    if slots != [] {
      NamedOfFirst(slots[..|slots| - 1]);
    }
  }

  /** A disk of 48 blocks or more has room for three files of the largest size. */
  const ROOMY: nat := 48

  predicate Opening(fs: Fs) {
    && WellFormed(fs) && ROOMY <= fs.totalBlocks && FirstNamed(fs.slots)
    && (|fs.slots| < ROOT_ENTRIES ==> fs.nextBlock <= 12 + DIRECT_BLOCKS * |fs.slots|)
  }

  lemma AddKeepsOpening(fs: Fs, name: seq<byte>, data: seq<byte>)
    requires Opening(fs) && CanAdd(fs, name, data)
    ensures Opening(AddTo(fs, name, data))
  {
    hide Named, StoredBlocks, NamedBlocks;
    AddKeepsWellFormed(fs, name, data);
    NamedOfFirst(fs.slots);
    assert Blocks(|data|) <= DIRECT_BLOCKS;
  }

  lemma {:induction false} RunKeepsOpening(fs: Fs, adds: seq<Add>)
    requires Opening(fs) && RunsWithin(fs, adds)
    ensures Opening(Run(fs, adds))
    decreases |adds|
  {
    hide Opening, CanAdd, AddTo;
    if adds != [] {
      var n := |adds| - 1;
      RunsWithinPrefix(fs, adds, n);
      RunKeepsOpening(fs, adds[..n]);
      assert CanAdd(Run(fs, adds[..n]), adds[n].name, adds[n].data);
      AddKeepsOpening(Run(fs, adds[..n]), adds[n].name, adds[n].data);
    }
  }

  /** Every inode that has a name is below 13: below 4, in fact. */
  lemma NamedInodesLow(fs: Fs)
    requires Opening(fs)
    ensures forall j :: 0 <= j < |Named(fs.slots)| ==>
      Named(fs.slots)[j].inode == j + 1 <= ROOT_ENTRIES < INODES_PER_BLOCK
  {
    hide Named;
    NamedOfFirst(fs.slots);
  }

  // ---- runs ------------------------------------------------------------

  predicate Succeeds(fs: Fs, adds: seq<Add>, i: nat)
    requires i < |adds|
  {
    OutcomeOf(Run(fs, adds[..i]), adds[i].data).Added?
  }

  /** The slot an add of the run gets. */
  function SlotOf(fs: Fs, adds: seq<Add>, i: nat): nat
    requires i < |adds|
  {
    |Run(fs, adds[..i]).slots|
  }

  lemma {:induction false} SlotsGrow(fs: Fs, adds: seq<Add>, n: nat)
    requires n <= |adds|
    ensures Run(fs, adds[..n]).slots <= Run(fs, adds).slots
    decreases |adds|
  {
    hide OutcomeOf;
    if n == |adds| {
      assert adds[..n] == adds;
    } else {
      var m := |adds| - 1;
      assert adds[..m][..n] == adds[..n];
      SlotsGrow(fs, adds[..m], n);
    }
  }

  lemma AddedSlot(fs: Fs, adds: seq<Add>, i: nat)
    requires i < |adds| && Succeeds(fs, adds, i)
    ensures var k := SlotOf(fs, adds, i);
      k < |Run(fs, adds).slots| && Run(fs, adds).slots[k] == Stored(adds[i].data, Some(Cut(adds[i].name)))
  {
    hide OutcomeOf;
    assert adds[..i + 1][..i] == adds[..i];
    SlotsGrow(fs, adds, i + 1);
  }

  /** Every named slot was got by an add that succeeded. */
  lemma {:induction false} NamedSlotAdded(fs: Fs, adds: seq<Add>, k: nat) returns (i: nat)
    requires fs.slots == [] && k < |Run(fs, adds).slots|
    requires Run(fs, adds).slots[k].Stored? && Run(fs, adds).slots[k].name.Some?
    ensures i < |adds| && Succeeds(fs, adds, i) && SlotOf(fs, adds, i) == k
    ensures Run(fs, adds).slots[k] == Stored(adds[i].data, Some(Cut(adds[i].name)))
    decreases |adds|
  {
    hide OutcomeOf;
    var n := |adds| - 1;
    if k < |Run(fs, adds[..n]).slots| {
      i := NamedSlotAdded(fs, adds[..n], k);
      assert adds[..n][..i] == adds[..i];
    } else {
      i := n;
    }
  }

  // ---- lookup ----------------------------------------------------------

  lemma {:induction false} LookupFinds(es: seq<Entry>, j: nat, name: seq<byte>, k: nat)
    requires j <= k < |es| && es[k].name == name && forall i :: j <= i < k ==> es[i].name != name
    ensures Lookup(es, j, name) == Some(es[k].inode)
    decreases k - j
  {
    if j < k {
      LookupFinds(es, j + 1, name, k);
    }
  }

  lemma {:induction false} LookupFrom(es: seq<Entry>, j: nat, name: seq<byte>) returns (k: nat)
    requires Lookup(es, j, name).Some?
    ensures j <= k < |es| && es[k] == Entry(name, Lookup(es, j, name).value)
    decreases |es| - j
  {
    if es[j].name == name {
      k := j;
    } else {
      k := LookupFrom(es, j + 1, name);
    }
  }

  lemma {:induction false} LookupMore(es: seq<Entry>, e: Entry, j: nat, name: seq<byte>)
    requires j <= |es|
    ensures Lookup(es + [e], j, name) == if Lookup(es, j, name).Some? then Lookup(es, j, name)
                                         else if e.name == name then Some(e.inode) else None
    decreases |es| - j
  {
    if j < |es| {
      LookupMore(es, e, j + 1, name);
    }
  }

  /** The slot holds this name. */
  predicate Called(slots: seq<Slot>, k: nat, name: seq<byte>)
    requires k < |slots|
  {
    slots[k].Stored? && slots[k].name == Some(name)
  }

  /** Looking a name up gives the first slot that holds it. */
  lemma {:induction false} LookupSlot(slots: seq<Slot>, k: nat, name: seq<byte>)
    requires k <= |slots| && forall j :: 0 <= j < k ==> !Called(slots, j, name)
    ensures k == |slots| ==> Lookup(Named(slots), 0, name) == None
    ensures k < |slots| && Called(slots, k, name) ==> Lookup(Named(slots), 0, name) == Some(k + 1)
    decreases |slots|
  {
    if slots != [] {
      var m := |slots| - 1;
      forall j | 0 <= j < m
        ensures Called(slots[..m], j, name) <==> Called(slots, j, name)
      {
      }
      LookupSlot(slots[..m], if k < m then k else m, name);
      if slots[m].Stored? && slots[m].name.Some? {
        assert Called(slots, m, name) <==> slots[m].name.value == name;
        LookupMore(Named(slots[..m]), Entry(slots[m].name.value, |slots|), 0, name);
      } else {
        assert Named(slots) == Named(slots[..m]);
      }
    }
  }

  /** The round trip, on disks of every size.  After any run of adds on a fresh disk, a file that was added
      under a name no earlier file has is found in the root under that name; and if its inode is below 13,
      which it is on all disks of 48 blocks or more, reading it gives its data, padded with zeros to whole
      blocks, as far as the buffer goes. */
  lemma RoundTrip(totalBlocks: nat, totalInodes: nat, beyond: Buffer, adds: seq<Add>, t: nat, maxSize: nat)
    requires FIRST_DATA_BLOCK < totalBlocks <= BITMAP_BITS && 1 <= totalInodes <= BITMAP_BITS
    requires RunsWithin(Format(totalBlocks, totalInodes), adds)
    requires t < |adds| && Succeeds(Format(totalBlocks, totalInodes), adds, t)
    requires forall i :: 0 <= i < t && Succeeds(Format(totalBlocks, totalInodes), adds, i) ==>
      Cut(adds[i].name) != Cut(adds[t].name)
    ensures var fs0 := Format(totalBlocks, totalInodes);
      var fs, all, n := Run(fs0, adds), Padded(adds[t].data), SlotOf(fs0, adds, t) + 1;
      && WellFormed(fs)
      && FindInDir(Dev(fs, beyond), totalInodes, 0, Cut(adds[t].name)) == Found(n)
      && (n < INODES_PER_BLOCK ==>
            ReadFile(Dev(fs, beyond), totalInodes, n, maxSize) == Read(all[..Min(maxSize, |all|)]))
      && (totalBlocks >= ROOMY || totalInodes <= INODES_PER_BLOCK ==> n < INODES_PER_BLOCK)
  {
    hide Disk, FindInDir, ReadFile, RunsWithin, CanAdd, Run, Named, StoredBlocks, Lookup;
    var fs0 := Format(totalBlocks, totalInodes);
    var fs, k, name := Run(fs0, adds), SlotOf(fs0, adds, t), Cut(adds[t].name);
    RunKeepsWellFormed(fs0, adds);
    AddedSlot(fs0, adds, t);
    forall j | 0 <= j < k
      ensures !Called(fs.slots, j, name)
    {
      if fs.slots[j].Stored? && fs.slots[j].name.Some? {
        EarlierName(fs0, adds, t, j);
      }
    }
    LookupSlot(fs.slots, k, name);
    CutNulFree(fs0, adds, t);
    FindInRoot(fs, beyond, name);
    if k + 1 < INODES_PER_BLOCK {
      FileReads(fs, beyond, k, maxSize);
    }
    if totalBlocks >= ROOMY {
      StartsOpening(totalBlocks, totalInodes);
      RunKeepsOpening(fs0, adds);
      SlotIsNamed(fs, k);
    }
  }

  lemma Within(fs: Fs, adds: seq<Add>, t: nat)
    requires RunsWithin(fs, adds) && t < |adds|
    ensures CanAdd(Run(fs, adds[..t]), adds[t].name, adds[t].data)
  {
    hide CanAdd;
  }

  lemma CutNulFree(fs: Fs, adds: seq<Add>, t: nat)
    requires RunsWithin(fs, adds) && t < |adds|
    ensures NulFree(Cut(adds[t].name))
  {
    Within(fs, adds, t);
  }

  lemma StartsOpening(totalBlocks: nat, totalInodes: nat)
    requires ROOMY <= totalBlocks <= BITMAP_BITS && 1 <= totalInodes <= BITMAP_BITS
    ensures Opening(Format(totalBlocks, totalInodes))
  {
  }

  /** A slot with a name is one of the first three, and its directory entry is in the same place. */
  lemma SlotIsNamed(fs: Fs, k: nat)
    requires Opening(fs) && k < |fs.slots| && fs.slots[k].Stored? && fs.slots[k].name.Some?
    ensures k < |Named(fs.slots)| <= |fs.slots| && k < ROOT_ENTRIES
    ensures WellFormed(fs) && FirstNamed(fs.slots)
    ensures forall j :: 0 <= j <= k ==> Named(fs.slots)[j] == Entry(fs.slots[j].name.value, j + 1)
  {
    hide StoredBlocks, NamedBlocks;
    NamedOfFirst(fs.slots);
    if k >= ROOT_ENTRIES {
      NamedGrows(fs.slots, k);
      assert FirstNamed(fs.slots[..k]);
      NamedOfFirst(fs.slots[..k]);
    }
  }

  lemma {:induction false} NamedGrows(slots: seq<Slot>, k: nat)
    requires k < |slots| && slots[k].Stored? && slots[k].name.Some?
    ensures |Named(slots[..k])| < |Named(slots)|
    decreases |slots|
  {
    var m := |slots| - 1;
    if k < m {
      assert slots[..m][..k] == slots[..k];
      NamedGrows(slots[..m], k);
    } else {
      assert slots[..k] == slots[..m];
    }
  }

  /** The names before it belong to earlier adds. */
  lemma EarlierName(fs: Fs, adds: seq<Add>, t: nat, j: nat)
    requires fs.slots == [] && t < |adds| && Succeeds(fs, adds, t) && j < SlotOf(fs, adds, t)
    requires forall i :: 0 <= i < t && Succeeds(fs, adds, i) ==> Cut(adds[i].name) != Cut(adds[t].name)
    requires j < |Run(fs, adds).slots| && Run(fs, adds).slots[j].Stored? && Run(fs, adds).slots[j].name.Some?
    ensures Run(fs, adds).slots[j].name.value != Cut(adds[t].name)
  {
    hide OutcomeOf, Run;
    SlotsGrow(fs, adds, t);
    var before := adds[..t];
    assert Run(fs, before).slots[j] == Run(fs, adds).slots[j];
    var i := NamedSlotAdded(fs, before, j);
    assert before[..i] == adds[..i];
    assert Succeeds(fs, adds, i);
  }
}
