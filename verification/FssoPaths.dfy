// Which files a path can reach.
module FssoPaths {
  import opened Bytes
  import opened FssoImage
  import opened FssoRun
  import opened FssoReader
  import opened FssoWriter
  import opened FssoRoundTrip
  import opened FssoFiles

  lemma {:induction false} DotPosOf(path: seq<byte>, n: nat)
    requires n <= |path| && DOT !in path[..n] && (n < |path| ==> path[n] == DOT)
    ensures DotPos(path) == n
    decreases n
  {
    if n > 0 {
      assert path[0] == path[..n][0] && path[1..][..n - 1] == path[..n][1..];
      DotPosOf(path[1..], n - 1);
    }
  }

  function Single(c: seq<byte>): seq<seq<byte>> { if c == [] then [] else [Cut(c)] }

  /** The components of a path whose first dot is at `n`. */
  lemma ComponentsAt(path: seq<byte>, n: nat)
    requires n <= |path| && DOT !in path[..n] && (n < |path| ==> path[n] == DOT)
    ensures Components(path) == Single(path[..n]) + if n < |path| then Components(path[n + 1..]) else []
  {
    hide DotPos, Cut, Components;
    DotPosOf(path, n);
    NoPath();
    var rest := if n < |path| then path[n + 1..] else [];
    assert AfterDot(path) == rest;
    if path != [] {
      ComponentsUnfold(path);
    }
  }

  lemma NoPath()
    ensures Components([]) == []
  {
  }

  lemma ComponentsUnfold(path: seq<byte>)
    requires path != []
    ensures Components(path) == (if DotPos(path) == 0 then [] else [Cut(path[..DotPos(path)])])
      + Components(AfterDot(path))
  {
    hide DotPos, Cut, AfterDot;
  }

  /** Splitting at a dot splits the components. */
  lemma {:induction false} ComponentsJoin(p: seq<byte>, q: seq<byte>)
    ensures Components(p + [DOT] + q) == Components(p) + Components(q)
    decreases |p|
  {
    hide DotPos, Components, Single;
    var path, n := p + [DOT] + q, DotPos(p);
    assert path[..n] == p[..n] && path[n] == if n < |p| then p[n] else DOT;
    ComponentsAt(path, n);
    ComponentsAt(p, n);
    if n < |p| {
      assert path[n + 1..] == p[n + 1..] + [DOT] + q;
      ComponentsJoin(p[n + 1..], q);
      assert Single(p[..n]) + (Components(p[n + 1..]) + Components(q))
        == Single(p[..n]) + Components(p[n + 1..]) + Components(q);
    } else {
      assert path[n + 1..] == q;
    }
  }

  lemma {:induction false} WalkJoin(d: Device, total: nat, current: nat, a: seq<seq<byte>>, b: seq<seq<byte>>)
    ensures var r := Walk(d, total, current, a);
      Walk(d, total, current, a + b) == if r.Some? then Walk(d, total, r.value, b) else None
    decreases |a|
  {
    hide FindInDir;
    if a == [] {
      assert a + b == b;
    } else {
      assert (a + b)[1..] == a[1..] + b;
      var f := FindInDir(d, total, current, a[0]);
      if f.Found? {
        WalkJoin(d, total, f.inode, a[1..], b);
      }
    }
  }

  /** Resolving a path, then a dot and more, goes on from where the path led. */
  lemma ResolveJoin(d: Device, total: nat, p: seq<byte>, q: seq<byte>)
    ensures var r := ResolvePath(d, total, p);
      ResolvePath(d, total, p + [DOT] + q) == if r.Some? then Walk(d, total, r.value, Components(q)) else None
  {
    hide Walk, Components;
    ComponentsJoin(p, q);
    WalkJoin(d, total, 0, Components(p), Components(q));
  }

  /** What a component can be. */
  predicate Simple(c: seq<byte>) { c != [] && |c| <= MAX_FILENAME && NulFree(c) && DOT !in c }

  lemma {:induction false} ComponentsSimple(path: seq<byte>)
    requires NulFree(path)
    ensures forall k :: 0 <= k < |Components(path)| ==> Simple(Components(path)[k])
    decreases |path|
  {
    hide DotPos;
    if path != [] {
      ComponentsSimple(AfterDot(path));
      if DotPos(path) > 0 {
        CutSimple(path[..DotPos(path)]);
      }
    }
  }

  lemma CutSimple(s: seq<byte>)
    requires s != [] && NulFree(s) && DOT !in s
    ensures Simple(Cut(s))
  {
  }

  lemma OneComponent(name: seq<byte>)
    requires name != [] && DOT !in name
    ensures Components(name) == [Cut(name)]
  {
    hide DotPos;
    assert name[..|name|] == name;
    DotPosOf(name, |name|);
  }

  /** Every name belongs to an inode the reader addresses as the writer did. */
  predicate LowInodes(fs: Fs) {
    forall j :: 0 <= j < |Named(fs.slots)| ==> 0 < Named(fs.slots)[j].inode < INODES_PER_BLOCK
  }

  /** On a disk of 48 blocks or more that is so after every run of adds. */
  lemma LowInodesAlways(totalBlocks: nat, totalInodes: nat, adds: seq<Add>)
    requires ROOMY <= totalBlocks <= BITMAP_BITS && 1 <= totalInodes <= BITMAP_BITS
    requires RunsWithin(Format(totalBlocks, totalInodes), adds)
    ensures var fs := Run(Format(totalBlocks, totalInodes), adds); WellFormed(fs) && LowInodes(fs)
  {
    hide Run, RunsWithin, Named;
    StartsOpening(totalBlocks, totalInodes);
    RunKeepsOpening(Format(totalBlocks, totalInodes), adds);
    NamedInodesLow(Run(Format(totalBlocks, totalInodes), adds));
  }

  /** What a path leads to: the root if it has no components, the root's entry of that name if it has one,
      and nothing if it has more. */
  lemma PathLeads(fs: Fs, beyond: Buffer, path: seq<byte>)
    requires WellFormed(fs) && LowInodes(fs) && NulFree(path)
    ensures var cs := Components(path);
      ResolvePath(Dev(fs, beyond), fs.totalInodes, path)
      == if cs == [] then Some(0) else if |cs| == 1 then Lookup(Named(fs.slots), 0, cs[0]) else None
  {
    hide Disk, Named, FindInDir, Components, Lookup, Dev;
    var cs, d := Components(path), Dev(fs, beyond);
    ComponentsSimple(path);
    if cs != [] {
      FindInRoot(fs, beyond, cs[0]);
      var r := Lookup(Named(fs.slots), 0, cs[0]);
      if r.Some? {
        var j := LookupFrom(Named(fs.slots), 0, cs[0]);
        NamedInodes(fs.slots);
        assert Walk(d, fs.totalInodes, 0, cs) == Walk(d, fs.totalInodes, r.value, cs[1..]);
        if |cs| > 1 {
          FindElsewhere(fs, beyond, r.value, cs[1]);
        }
      }
    }
  }

  lemma {:induction false} EntryNames(slots: seq<Slot>, j: nat)
    requires j < |Named(slots)|
    ensures var e := Named(slots)[j];
      0 < e.inode <= |slots| && slots[e.inode - 1].Stored? && slots[e.inode - 1].name == Some(e.name)
    decreases |slots|
  {
    var m := |slots| - 1;
    if j < |Named(slots[..m])| {
      EntryNames(slots[..m], j);
    }
  }

  /** A file is reached by some path exactly when its stored name is not empty and has no dot: a name with
      a dot is looked for as several names, and nothing but the root is a directory. */
  lemma ReachedIff(fs: Fs, beyond: Buffer, k: nat)
    requires WellFormed(fs) && LowInodes(fs) && k < |fs.slots| && fs.slots[k].Stored? && fs.slots[k].name.Some?
    requires Lookup(Named(fs.slots), 0, fs.slots[k].name.value) == Some(k + 1)
    ensures var name := fs.slots[k].name.value;
      (exists path :: NulFree(path) && ResolvePath(Dev(fs, beyond), fs.totalInodes, path) == Some(k + 1))
      <==> name != [] && DOT !in name
  {
    hide Disk, Named, Components, ResolvePath, Dev, Lookup;
    var name, d := fs.slots[k].name.value, Dev(fs, beyond);
    if name != [] && DOT !in name {
      var j := LookupFrom(Named(fs.slots), 0, name);
      OneComponent(name);
      assert Cut(name) == name;
      PathLeads(fs, beyond, name);
      assert NulFree(name) && ResolvePath(d, fs.totalInodes, name) == Some(k + 1);
    }
    forall path | NulFree(path) && ResolvePath(d, fs.totalInodes, path) == Some(k + 1)
      ensures name != [] && DOT !in name
    {
      PathLeads(fs, beyond, path);
      ComponentsSimple(path);
      var c := Components(path)[0];
      var j := LookupFrom(Named(fs.slots), 0, c);
      EntryNames(fs.slots, j);
    }
  }

  // ---- the files of main -----------------------------------------------

  const HELLO_TXT: seq<byte> := [104, 101, 108, 108, 111, 46, 116, 120, 116]
  const HELLO_PY: seq<byte> := [104, 101, 108, 108, 111, 46, 112, 121]

  /** The disk the tool writes: both of its files are there, and no path reaches either. */
  lemma MainsFilesUnreachable(beyond: Buffer, text: seq<byte>, script: seq<byte>, path: seq<byte>)
    requires |text| == 18 && |script| == 31 && NulFree(path)
    ensures var fs := Run(Format(4096, 512), [Add(HELLO_TXT, text), Add(HELLO_PY, script)]);
      && WellFormed(fs)
      && FindInDir(Dev(fs, beyond), 512, 0, HELLO_TXT) == Found(1)
      && FindInDir(Dev(fs, beyond), 512, 0, HELLO_PY) == Found(2)
      && ResolvePath(Dev(fs, beyond), 512, path) in {None, Some(0)}
  {
    hide Disk, FindInDir, ResolvePath, Dev, Components, WellFormed, Run, Format, Named, Lookup;
    var fs := Run(Format(4096, 512), [Add(HELLO_TXT, text), Add(HELLO_PY, script)]);
    MainsDisk(text, script);
    MainsDirectory(fs.slots, text, script);
    MainsNames();
    FindInRoot(fs, beyond, HELLO_TXT);
    FindInRoot(fs, beyond, HELLO_PY);
    PathLeads(fs, beyond, path);
    ComponentsSimple(path);
    if |Components(path)| == 1 && Lookup(Named(fs.slots), 0, Components(path)[0]).Some? {
      var j := LookupFrom(Named(fs.slots), 0, Components(path)[0]);
    }
  }

  lemma MainsNames()
    ensures HELLO_TXT != HELLO_PY && DOT in HELLO_TXT && DOT in HELLO_PY
    ensures NulFree(HELLO_TXT) && NulFree(HELLO_PY) && |HELLO_TXT| <= MAX_FILENAME && |HELLO_PY| <= MAX_FILENAME
  {
    assert |HELLO_TXT| == 9 && |HELLO_PY| == 8 && HELLO_TXT[5] == DOT && HELLO_PY[5] == DOT;
  }

  lemma MainsDirectory(slots: seq<Slot>, text: seq<byte>, script: seq<byte>)
    requires slots == [Stored(text, Some(HELLO_TXT)), Stored(script, Some(HELLO_PY))]
    ensures Named(slots) == [Entry(HELLO_TXT, 1), Entry(HELLO_PY, 2)]
    ensures Lookup(Named(slots), 0, HELLO_TXT) == Some(1) && Lookup(Named(slots), 0, HELLO_PY) == Some(2)
  {
    assert slots[..1] == [Stored(text, Some(HELLO_TXT))] && slots[..1][..0] == [];
    assert Named(slots[..1]) == [Entry(HELLO_TXT, 1)];
    assert |HELLO_TXT| == 9 && |HELLO_PY| == 8;
    LookupFinds(Named(slots), 0, HELLO_TXT, 0);
    LookupFinds(Named(slots), 0, HELLO_PY, 1);
  }

  lemma MainsDisk(text: seq<byte>, script: seq<byte>)
    requires |text| == 18 && |script| == 31
    ensures var fs := Run(Format(4096, 512), [Add(HELLO_TXT, text), Add(HELLO_PY, script)]);
      WellFormed(fs) && fs == Fs(4096, 512, 14, [Stored(text, Some(HELLO_TXT)), Stored(script, Some(HELLO_PY))])
  {
    hide WellFormed, AddTo, Named, CanAdd;
    var fs0, a, b := Format(4096, 512), Add(HELLO_TXT, text), Add(HELLO_PY, script);
    assert [a, b][..1] == [a] && [a][..0] == [];
    FirstAdd(text);
    var fs1 := AddTo(fs0, HELLO_TXT, text);
    SecondAdd(fs1, text, script);
    assert Run(fs0, [a]) == fs1;
  }

  lemma FirstAdd(text: seq<byte>)
    requires |text| == 18
    ensures var fs := AddTo(Format(4096, 512), HELLO_TXT, text);
      WellFormed(fs) && fs == Fs(4096, 512, 13, [Stored(text, Some(HELLO_TXT))])
  {
    hide WellFormed;
    assert OutcomeOf(Format(4096, 512), text) == Added;
    AddKeepsWellFormed(Format(4096, 512), HELLO_TXT, text);
  }

  lemma SecondAdd(fs: Fs, text: seq<byte>, script: seq<byte>)
    requires |text| == 18 && |script| == 31 && WellFormed(fs)
      && fs == Fs(4096, 512, 13, [Stored(text, Some(HELLO_TXT))])
    ensures var r := AddTo(fs, HELLO_PY, script);
      WellFormed(r) && r == Fs(4096, 512, 14, [Stored(text, Some(HELLO_TXT)), Stored(script, Some(HELLO_PY))])
  {
    hide WellFormed, Named;
    assert |Named(fs.slots)| <= 1;
    assert OutcomeOf(fs, script) == Added;
    AddKeepsWellFormed(fs, HELLO_PY, script);
  }
}
