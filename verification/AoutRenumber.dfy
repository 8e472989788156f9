// Symbol renumbering: what `symbol_map`, the hash table and the output records say about each other
// after an input's symbols have been written.
module AoutRenumber {
  import opened Bytes
  import opened AoutReloc
  import opened AoutSymtab

  /** The records of a copied symbol are its own. */
  predicate RecordOf(r: Nlist, s: Nlist) {
    r.other == s.other && r.desc == s.desc
  }

  /** A step that copies nothing: the symbol is mapped to nothing, or to the index its entry already
      has. */
  predicate NoCopy(syms: seq<Nlist>, st: State, r: State, i: nat)
    requires StateOk(syms, st) && StateOk(syms, r) && i < |syms|
  {
    && r.out == st.out && r.origin == st.origin && r.includes == st.includes
    && (forall j :: 0 <= j < |syms| && j != i ==> r.smap[j] == st.smap[j])
    && (r.smap[i] == -1
        || (EntryOf(st, i).Some? && EntryOf(st, i).value.written && r.hash == st.hash
          && r.smap[i] == EntryOf(st, i).value.indx))
    && (r.hash == st.hash
        || (EntryOf(st, i).Some? && !EntryOf(st, i).value.written
            && r.hash == st.hash[st.symHash[i].value := EntryOf(st, i).value.(written := true)]))
  }

  /** A step that copies symbol `i`. */
  predicate Copies(syms: seq<Nlist>, st: State, r: State, i: nat)
    requires StateOk(syms, st) && StateOk(syms, r) && i < |syms|
  {
    && |r.out| == |st.out| + 1 && st.out <= r.out && r.origin == st.origin + [i]
    && r.smap[i] == |st.out| && RecordOf(r.out[|st.out|], syms[i])
    && (forall j :: 0 <= j < i ==> r.smap[j] == st.smap[j])
    && (forall j :: i < j < |syms| ==> r.smap[j] == st.smap[j] || r.smap[j] == -1)
    && (r.hash == st.hash
        || (EntryOf(st, i).Some? && !EntryOf(st, i).value.written
            && r.hash == st.hash[st.symHash[i].value := EntryOf(st, i).value.(written := true, indx := |st.out|)]
            && (!EntryOf(st, i).value.typ.Warning? ==> r.out[|st.out|].name == st.symHash[i].value)))
  }

  lemma EmitCopies(cfg: Config, syms: seq<Nlist>, st: State, i: nat, w: Written, name: Name, recName: Name)
    requires i < |syms| && StateOk(syms, st)
    ensures var r := Emit(cfg, syms, st, i, w, name, recName);
      && StateOk(syms, r)
      && |r.out| == |st.out| + 1 && st.out <= r.out && r.origin == st.origin + [i]
      && r.smap[i] == |st.out| && RecordOf(r.out[|st.out|], syms[i]) && r.out[|st.out|].name == recName
      && (forall j :: 0 <= j < i ==> r.smap[j] == st.smap[j])
      && (forall j :: i < j < |syms| ==> r.smap[j] == st.smap[j] || r.smap[j] == -1)
      && r.hash == st.hash && r.symHash == st.symHash && r.pass == st.pass && r.skipNext == st.skipNext
  {
    hide HeaderTotal;
  }

  lemma StepGlobalShape(cfg: Config, syms: seq<Nlist>, st: State, i: nat, e: Entry)
    requires StateOk(syms, st) && i < |syms| && EntryOf(st, i) == Some(e) && st.smap[i] == -1
    ensures var r := StepGlobal(cfg, syms, st, i, e);
      NoCopy(syms, st, r, i) || Copies(syms, st, r, i)
    ensures StepGlobal(cfg, syms, st, i, e).symHash[i + 1..] == st.symHash[i + 1..]
  {
    hide Emit, Classify, Stripped, Resolve, ResolvedType, TypeBits;
    var s, n := syms[i], st.symHash[i].value;
    var st1 := if e.typ.Indirect? || e.typ.Warning?
      then st.(symHash := st.symHash[i := Some(Resolve(st.hash, n, {}))]) else st;
    if !e.written && !Stripped(cfg, s, SymName(st, i, s)) {
      var w := Classify(cfg, s, Some(ResolvedType(st1.hash, n)));
      var st2 := st1.(hash := st1.hash[n := e.(written := true, indx := |st1.out|)], pass := w.pass,
        skipNext := w.skipNext);
      EmitCopies(cfg, syms, st2, i, w, SymName(st, i, s), RecordName(cfg, st, i, s));
    }
  }

  /** Every step copies its symbol or copies nothing. */
  lemma StepShape(cfg: Config, syms: seq<Nlist>, st: State, i: nat)
    requires StateOk(syms, st) && i < |syms|
    ensures var r := Step(cfg, syms, st, i);
      NoCopy(syms, st, r, i) || Copies(syms, st, r, i)
    ensures Step(cfg, syms, st, i).symHash[i + 1..] == st.symHash[i + 1..]
  {
    hide Emit, Classify, Stripped, StepGlobal, Discarded;
    if st.smap[i] != -1 {
      var s, st1 := syms[i], st.(smap := st.smap[i := -1]);
      if !st.pass && !st.skipNext {
        if EntryOf(st1, i).Some? {
          StepGlobalShape(cfg, syms, st1, i, EntryOf(st1, i).value);
        } else {
          var w := Classify(cfg, s, None);
          EmitCopies(cfg, syms, st1.(pass := w.pass, skipNext := w.skipNext), i, w, s.name, s.name);
        }
      }
    }
  }

  // ---- the invariant ---------------------------------------------------

  /** A hash entry with an index names the record at that index. */
  predicate HashOk(hash: Hash, out: seq<Nlist>) {
    forall n :: n in hash ==>
      && hash[n].indx < |out|
      && (hash[n].indx >= 0 ==> hash[n].written && (!hash[n].typ.Warning? ==> out[hash[n].indx].name == n))
  }

  /** No entry is marked as having to be written (index -2). */
  predicate NoForced(hash: Hash) {
    forall n :: n in hash ==> hash[n].indx >= -1
  }

  predicate MapsOk(syms: seq<Nlist>, st: State, k: nat)
    requires StateOk(syms, st) && k <= |syms|
  {
    && (forall j :: 0 <= j < k ==> st.smap[j] == -1 || 0 <= st.smap[j] < |st.out|)
    && (forall j :: k <= j < |syms| ==> st.smap[j] == 0 || st.smap[j] == -1)
  }

  /** The records of this call come from distinct input symbols, in order, and `symbol_map` knows
      them. */
  predicate OriginsOk(syms: seq<Nlist>, base: nat, st: State, k: nat)
    requires StateOk(syms, st) && k <= |syms|
  {
    && |st.out| == base + |st.origin| && |st.origin| <= k
    && (forall p :: 0 <= p < |st.origin| ==> st.origin[p] < k)
    && (forall p, q :: 0 <= p < q < |st.origin| ==> st.origin[p] < st.origin[q])
    && (forall p :: 0 <= p < |st.origin| ==>
          st.smap[st.origin[p]] == base + p && RecordOf(st.out[base + p], syms[st.origin[p]]))
  }

  /** A symbol that was mapped without being copied has the index of its hash entry. */
  predicate OthersOk(syms: seq<Nlist>, symHash: seq<Option<Name>>, st: State, k: nat)
    requires StateOk(syms, st) && |symHash| == |syms| && k <= |syms|
  {
    forall j :: 0 <= j < k && st.smap[j] >= 0 && j !in st.origin ==>
      symHash[j].Some? && symHash[j].value in st.hash && st.hash[symHash[j].value].written
      && st.hash[symHash[j].value].indx == st.smap[j]
  }

  lemma HashStep(cfg: Config, syms: seq<Nlist>, st: State, i: nat)
    requires StateOk(syms, st) && i < |syms| && HashOk(st.hash, st.out) && NoForced(st.hash)
    ensures var r := Step(cfg, syms, st, i); HashOk(r.hash, r.out) && NoForced(r.hash)
  {
    hide Step;
    StepShape(cfg, syms, st, i);
    var r := Step(cfg, syms, st, i);
    forall n | n in r.hash
      ensures -1 <= r.hash[n].indx < |r.out|
      ensures r.hash[n].indx >= 0 ==> r.hash[n].written && (!r.hash[n].typ.Warning? ==> r.out[r.hash[n].indx].name == n)
    {
      assert n in st.hash;
      assert st.hash[n].indx >= 0 ==> st.out[st.hash[n].indx] == r.out[st.hash[n].indx];
    }
  }

  lemma MapsStep(cfg: Config, syms: seq<Nlist>, st: State, i: nat)
    requires StateOk(syms, st) && i < |syms| && HashOk(st.hash, st.out) && NoForced(st.hash) && MapsOk(syms, st, i)
    ensures MapsOk(syms, Step(cfg, syms, st, i), i + 1)
  {
    hide Step;
    StepShape(cfg, syms, st, i);
  }

  lemma OriginsStep(cfg: Config, syms: seq<Nlist>, base: nat, st: State, i: nat)
    requires StateOk(syms, st) && i < |syms| && OriginsOk(syms, base, st, i)
    ensures OriginsOk(syms, base, Step(cfg, syms, st, i), i + 1)
  {
    hide Step;
    StepShape(cfg, syms, st, i);
    var r := Step(cfg, syms, st, i);
    assert forall p :: 0 <= p < |st.origin| ==> r.origin[p] == st.origin[p] && r.out[base + p] == st.out[base + p];
  }

  lemma OthersStep(cfg: Config, syms: seq<Nlist>, symHash: seq<Option<Name>>, base: nat, st: State, i: nat)
    requires StateOk(syms, st) && i < |syms| == |symHash| && OthersOk(syms, symHash, st, i)
    requires st.symHash[i] == symHash[i] && (forall j :: 0 <= j < |st.origin| ==> st.origin[j] < i)
    ensures OthersOk(syms, symHash, Step(cfg, syms, st, i), i + 1)
  {
    hide Step;
    StepShape(cfg, syms, st, i);
    var r := Step(cfg, syms, st, i);
    assert Copies(syms, st, r, i) ==> r.origin[|st.origin|] == i;
    forall j | 0 <= j < i + 1 && r.smap[j] >= 0 && j !in r.origin
      ensures symHash[j].Some? && symHash[j].value in r.hash && r.hash[symHash[j].value].written
        && r.hash[symHash[j].value].indx == r.smap[j]
    {
      assert j !in st.origin by {
        assert forall p :: 0 <= p < |st.origin| ==> r.origin[p] == st.origin[p];
      }
    }
  }

  /** All of it, over the whole loop. */
  lemma {:induction false} RunInvariant(cfg: Config, syms: seq<Nlist>, st: State, k: nat)
    requires StateOk(syms, st) && k <= |syms| && HashOk(st.hash, st.out) && NoForced(st.hash)
    requires st.origin == [] && forall j :: 0 <= j < |syms| ==> st.smap[j] == 0
    ensures var r := RunTo(cfg, syms, st, k);
      && HashOk(r.hash, r.out) && NoForced(r.hash)
      && MapsOk(syms, r, k) && OriginsOk(syms, |st.out|, r, k) && OthersOk(syms, st.symHash, r, k)
      && st.out <= r.out && r.symHash[k..] == st.symHash[k..]
  {
    hide Step, HashOk, NoForced, MapsOk, OthersOk, NoCopy, Copies;
    if k == 0 {
      assert MapsOk(syms, st, 0) && OthersOk(syms, st.symHash, st, 0) by { StartsOk(syms, st); }
    } else {
      RunInvariant(cfg, syms, st, k - 1);
      var r := RunTo(cfg, syms, st, k - 1);
      assert r.symHash[k - 1] == r.symHash[k - 1..][0] == st.symHash[k - 1];
      HashStep(cfg, syms, r, k - 1);
      MapsStep(cfg, syms, r, k - 1);
      OriginsStep(cfg, syms, |st.out|, r, k - 1);
      OthersStep(cfg, syms, st.symHash, |st.out|, r, k - 1);
      StepGrows(cfg, syms, r, k - 1);
      assert st.symHash[k..] == st.symHash[k - 1..][1..] && r.symHash[k..] == r.symHash[k - 1..][1..];
    }
  }

  lemma StartsOk(syms: seq<Nlist>, st: State)
    requires StateOk(syms, st) && st.origin == [] && forall j :: 0 <= j < |syms| ==> st.smap[j] == 0
    ensures MapsOk(syms, st, 0) && OthersOk(syms, st.symHash, st, 0)
  {
  }

  lemma StepGrows(cfg: Config, syms: seq<Nlist>, st: State, i: nat)
    requires StateOk(syms, st) && i < |syms|
    ensures st.out <= Step(cfg, syms, st, i).out
    ensures Step(cfg, syms, st, i).symHash[i + 1..] == st.symHash[i + 1..]
  {
    hide Step;
    StepShape(cfg, syms, st, i);
  }

  /** The main result: after an input's symbols have been written, every `symbol_map` entry is -1 or the
      index of a record; the copied symbols have increasing indices naming their own records; the
      others have their hash entry's; hash entries name their records; and there are at most one more
      records than symbols. */
  lemma Renumbering(cfg: Config, syms: seq<Nlist>, symHash: seq<Option<Name>>, hash: Hash, out: seq<Nlist>,
                    includes: Includes)
    requires |symHash| == |syms| && HashOk(hash, out) && NoForced(hash)
    ensures var r := WriteSymbols(cfg, syms, symHash, hash, out, includes);
      && out <= r.out && |r.out| <= |out| + |syms| + 1
      && MapsOk(syms, r, |syms|)
      && OriginsOk(syms, |out| + (if WritesFile(cfg) then 1 else 0), r, |syms|)
      && (WritesFile(cfg) ==> |r.out| > |out| && r.out[|out|] == FileSymbol(cfg))
      && OthersOk(syms, symHash, r, |syms|)
      && HashOk(r.hash, r.out) && NoForced(r.hash)
  {
    hide MapsOk, OthersOk, RunTo;
    var st := Start(cfg, |syms|, symHash, hash, out, includes);
    assert forall n :: n in hash && hash[n].indx >= 0 ==> out[hash[n].indx] == st.out[hash[n].indx];
    RunInvariant(cfg, syms, st, |syms|);
  }

  // ---- the rest of the link --------------------------------------------

  /** The other ways of writing a symbol keep the invariant. */
  lemma WriteOtherKeeps(strip: Strip, keep: set<Name>, hash: Hash, out: seq<Nlist>, n: Name)
    requires n in hash && HashOk(hash, out)
    ensures var (hash', out') := WriteOther(strip, keep, hash, out, n);
      && HashOk(hash', out') && out <= out' && hash'.Keys == hash.Keys
      && (NoForced(hash) ==> NoForced(hash'))
      && forall m :: m in hash ==> hash'[m].typ == hash[m].typ
  {
    hide OtherRecord;
    var (hash', out') := WriteOther(strip, keep, hash, out, n);
    forall m | m in hash'
      ensures hash'[m].indx < |out'|
      ensures hash'[m].indx >= 0 ==> hash'[m].written && (!hash'[m].typ.Warning? ==> out'[hash'[m].indx].name == m)
    {
      assert m in hash && (hash[m].indx >= 0 ==> out'[hash[m].indx] == out[hash[m].indx]);
      RecordNamed(m, hash[m].typ);
    }
  }

  lemma RecordNamed(n: Name, typ: HashType)
    ensures OtherRecord(n, typ).Some? ==> OtherRecord(n, typ).value.name == n
  {
  }

  /** Whether a symbol of this type can be written at all. */
  predicate Writable(typ: HashType) {
    typ.Undefd? || typ.UndefdWeak? || typ.Def? || typ.Common?
  }

  /** Forcing a symbol out gives its entry an index exactly when its type can be written.  For the
      other types the entry is left with the index -2, which later inputs copy into their symbol
      maps. */
  lemma ForceIndexIff(strip: Strip, keep: set<Name>, hash: Hash, out: seq<Nlist>, n: Name)
    requires n in hash && HashOk(hash, out) && hash[n].indx < 0
    ensures var (hash', out') := ForceIndex(strip, keep, hash, out, n);
      && HashOk(hash', out') && out <= out' && hash'.Keys == hash.Keys
      && (hash'[n].indx >= 0 <==> Writable(hash[n].typ))
      && (!Writable(hash[n].typ) ==> hash'[n].indx == -2)
      && (NoForced(hash) ==> (NoForced(hash') <==> Writable(hash[n].typ)))
  {
    hide OtherRecord;
    var forced := hash[n := hash[n].(indx := -2, written := false)];
    WriteOtherKeeps(strip, keep, forced, out, n);
    var (hash', out') := WriteOther(strip, keep, forced, out, n);
    RecordIffWritable(n, hash[n].typ);
    if hash[n].typ.Warning? {
      var t := hash[n].typ.link;
      assert t != n && t in hash ==> forced[t] == hash[t];
    }
    if NoForced(hash) && Writable(hash[n].typ) {
      forall m | m in hash'
        ensures hash'[m].indx >= -1
      {
        assert m != n ==> forced[m] == hash[m];
      }
    }
  }

  lemma RecordIffWritable(n: Name, typ: HashType)
    ensures OtherRecord(n, typ).Some? <==> Writable(typ)
  {
  }

  /** The steps of a link that touch the symbol table. */
  datatype LinkStep =
    | WriteInput(cfg: Config, syms: seq<Nlist>, symHash: seq<Option<Name>>)
    | Force(n: Name)
    | Other(n: Name)

  datatype Table = Table(hash: Hash, out: seq<Nlist>, includes: Includes)

  function TakeStep(strip: Strip, keep: set<Name>, t: Table, s: LinkStep): Table {
    match s
    case WriteInput(cfg, syms, symHash) =>
      if |symHash| != |syms| then t
      else
        var r := WriteSymbols(cfg, syms, symHash, t.hash, t.out, t.includes);
        Table(r.hash, r.out, r.includes)
    case Force(n) =>
      if n !in t.hash then t else var (h, o) := ForceIndex(strip, keep, t.hash, t.out, n); Table(h, o, t.includes)
    case Other(n) =>
      if n !in t.hash then t else var (h, o) := WriteOther(strip, keep, t.hash, t.out, n); Table(h, o, t.includes)
  }

  function AfterSteps(strip: Strip, keep: set<Name>, t: Table, steps: seq<LinkStep>): Table {
    if steps == [] then t
    else TakeStep(strip, keep, AfterSteps(strip, keep, t, steps[..|steps| - 1]), steps[|steps| - 1])
  }

  /** Nothing that cannot be written is forced out. */
  predicate ForcesWritable(strip: Strip, keep: set<Name>, t: Table, steps: seq<LinkStep>) {
    forall k {:trigger steps[k]} :: 0 <= k < |steps| && steps[k].Force? ==>
      var u := AfterSteps(strip, keep, t, steps[..k]);
      steps[k].n in u.hash && u.hash[steps[k].n].indx < 0 ==> Writable(u.hash[steps[k].n].typ)
  }

  /** Over a whole link, in whatever order its steps come: every hash entry that has an index names the
      record at that index, records are only ever added, and no index is ever -2 unless an entry that
      cannot be written was forced out. */
  lemma {:induction false} LinkInvariant(strip: Strip, keep: set<Name>, t: Table, steps: seq<LinkStep>)
    requires HashOk(t.hash, t.out) && NoForced(t.hash) && ForcesWritable(strip, keep, t, steps)
    ensures var r := AfterSteps(strip, keep, t, steps);
      HashOk(r.hash, r.out) && NoForced(r.hash) && t.out <= r.out
  {
    hide HashOk, NoForced, WriteSymbols, WriteOther, ForceIndex, Writable, MapsOk, OriginsOk, OthersOk;
    if steps != [] {
      var n := |steps| - 1;
      var u, s := AfterSteps(strip, keep, t, steps[..n]), steps[n];
      assert ForcesWritable(strip, keep, t, steps[..n]) by {
        forall k {:trigger steps[..n][k]} | 0 <= k < n && steps[..n][k].Force?
          ensures var v := AfterSteps(strip, keep, t, steps[..n][..k]);
            steps[..n][k].n in v.hash && v.hash[steps[..n][k].n].indx < 0 ==> Writable(v.hash[steps[..n][k].n].typ)
        {
          assert steps[..n][..k] == steps[..k] && steps[..n][k] == steps[k];
        }
      }
      LinkInvariant(strip, keep, t, steps[..n]);
      match s
      case WriteInput(cfg, syms, symHash) =>
        if |symHash| == |syms| {
          Renumbering(cfg, syms, symHash, u.hash, u.out, u.includes);
        }
      case Force(m) =>
        if m in u.hash {
          ForceKeeps(strip, keep, u.hash, u.out, m);
        }
      case Other(m) =>
        if m in u.hash {
          WriteOtherKeeps(strip, keep, u.hash, u.out, m);
        }
    }
  }

  lemma ForceKeeps(strip: Strip, keep: set<Name>, hash: Hash, out: seq<Nlist>, n: Name)
    requires n in hash && HashOk(hash, out) && NoForced(hash) && (hash[n].indx < 0 ==> Writable(hash[n].typ))
    ensures var (hash', out') := ForceIndex(strip, keep, hash, out, n);
      HashOk(hash', out') && NoForced(hash') && out <= out'
  {
    if hash[n].indx < 0 {
      ForceIndexIff(strip, keep, hash, out, n);
    }
  }

  // ---- what forcing leaves ---------------------------------------------

  /** Symbols keep their types, and written ones their entries. */
  predicate EntriesKept(before: Hash, after: Hash) {
    && after.Keys == before.Keys
    && forall n :: n in before ==> after[n].typ == before[n].typ && (before[n].written ==> after[n] == before[n])
  }

  lemma {:induction false} RunKeepsEntries(cfg: Config, syms: seq<Nlist>, st: State, k: nat)
    requires StateOk(syms, st) && k <= |syms|
    ensures EntriesKept(st.hash, RunTo(cfg, syms, st, k).hash)
  {
    hide Step;
    if k > 0 {
      RunKeepsEntries(cfg, syms, st, k - 1);
      StepShape(cfg, syms, RunTo(cfg, syms, st, k - 1), k - 1);
    }
  }

  predicate SameTypes(before: Hash, after: Hash) {
    after.Keys == before.Keys && forall n :: n in before ==> after[n].typ == before[n].typ
  }

  lemma StepKeepsTypes(strip: Strip, keep: set<Name>, t: Table, s: LinkStep)
    ensures SameTypes(t.hash, TakeStep(strip, keep, t, s).hash)
  {
    hide RunTo, OtherRecord;
    if s.WriteInput? && |s.symHash| == |s.syms| {
      RunKeepsEntries(s.cfg, s.syms, Start(s.cfg, |s.syms|, s.symHash, t.hash, t.out, t.includes), |s.syms|);
    }
  }

  /** The type of an entry is what it was at the start of the link. */
  lemma {:induction false} TypesKept(strip: Strip, keep: set<Name>, t: Table, steps: seq<LinkStep>)
    ensures SameTypes(t.hash, AfterSteps(strip, keep, t, steps).hash)
  {
    hide TakeStep;
    if steps != [] {
      var n := |steps| - 1;
      TypesKept(strip, keep, t, steps[..n]);
      StepKeepsTypes(strip, keep, AfterSteps(strip, keep, t, steps[..n]), steps[n]);
    }
  }

  /** The invariant, with a condition that can be read off the hash table a link starts with: no entry that
      is forced out is of a type that cannot be written. */
  lemma LinkInvariantByTypes(strip: Strip, keep: set<Name>, t: Table, steps: seq<LinkStep>)
    requires HashOk(t.hash, t.out) && NoForced(t.hash)
    requires forall k :: 0 <= k < |steps| && steps[k].Force? && steps[k].n in t.hash ==>
      Writable(t.hash[steps[k].n].typ)
    ensures var r := AfterSteps(strip, keep, t, steps);
      HashOk(r.hash, r.out) && NoForced(r.hash) && t.out <= r.out
  {
    hide HashOk, NoForced, AfterSteps, Writable;
    forall k {:trigger steps[k]} | 0 <= k < |steps| && steps[k].Force?
      ensures var u := AfterSteps(strip, keep, t, steps[..k]);
        steps[k].n in u.hash && u.hash[steps[k].n].indx < 0 ==> Writable(u.hash[steps[k].n].typ)
    {
      TypesKept(strip, keep, t, steps[..k]);
    }
    LinkInvariant(strip, keep, t, steps);
  }

  /** An entry that can be neither written nor followed to another. */
  predicate Stuck(typ: HashType) { typ.New? || typ.Indirect? }

  /** Forced out, such an entry keeps the index -2 for good, whatever the rest of the link does. */
  lemma {:induction false} ForcedForGood(strip: Strip, keep: set<Name>, t: Table, n: Name, steps: seq<LinkStep>)
    requires n in t.hash && Stuck(t.hash[n].typ) && t.hash[n].indx < 0
    ensures var (h, o) := ForceIndex(strip, keep, t.hash, t.out, n);
      var r := AfterSteps(strip, keep, Table(h, o, t.includes), steps);
      n in r.hash && r.hash[n] == Entry(t.hash[n].typ, -2, true)
  {
    var (h, o) := ForceIndex(strip, keep, t.hash, t.out, n);
    StaysForced(strip, keep, Table(h, o, t.includes), n, steps);
  }

  lemma {:induction false} StaysForced(strip: Strip, keep: set<Name>, t: Table, n: Name, steps: seq<LinkStep>)
    requires n in t.hash && Stuck(t.hash[n].typ) && t.hash[n].indx == -2 && t.hash[n].written
    ensures var r := AfterSteps(strip, keep, t, steps);
      n in r.hash && r.hash[n] == t.hash[n]
  {
    hide RunTo;
    if steps != [] {
      var k := |steps| - 1;
      StaysForced(strip, keep, t, n, steps[..k]);
      var u := AfterSteps(strip, keep, t, steps[..k]);
      match steps[k]
      case WriteInput(cfg, syms, symHash) =>
        if |symHash| == |syms| {
          RunKeepsEntries(cfg, syms, Start(cfg, |syms|, symHash, u.hash, u.out, u.includes), |syms|);
        }
      case Force(m) =>
      case Other(m) =>
    }
  }

  /** A name that was entered in the hash table and never defined or used: forced out, it gets no index, and
      a later input that has it in its symbols maps them to -2. */
  lemma ForcedNewIsLost(strip: Strip, keep: set<Name>, cfg: Config, n: Name, s: Nlist)
    ensures var hash := map[n := Entry(New, -1, false)];
      var (hash', out') := ForceIndex(strip, keep, hash, [], n);
      && HashOk(hash, []) && NoForced(hash)
      && hash'[n].indx == -2 && out' == []
      && WriteSymbols(cfg, [s], [Some(n)], hash', out', map[]).smap == [-2]
  {
    hide Classify, Stripped, Emit, Resolve, TypeBits;
    var hash := map[n := Entry(New, -1, false)];
    var (hash', out') := ForceIndex(strip, keep, hash, [], n);
    assert hash' == map[n := Entry(New, -2, true)];
    var st := Start(cfg, 1, [Some(n)], hash', out', map[]);
    assert RunTo(cfg, [s], st, 0) == st && st.smap == [0];
    assert Step(cfg, [s], st, 0).smap == [-2];
    assert RunTo(cfg, [s], st, 1) == Step(cfg, [s], RunTo(cfg, [s], st, 0), 0);
  }

  // ---- types -----------------------------------------------------------

  /** The type a symbol is given stands for the section it is in, except that or-ing the external bit
      into the weak types of the data and absolute sections makes them those of bss and text. */
  lemma OtherTypeTellsSection(sec: Section, weak: bool)
    ensures KindOfType(OtherType(sec, weak)) == Some(sec.out) <==> !(weak && (sec.out == Data || sec.out == Abs))
  {
    assert TypeBits(N_WEAKB) == 0x10 && TypeBits(N_WEAKT) == 0x0e;
  }

  lemma LowBits(t: byte, bits: nat)
    requires !IsStab(t) && bits < 0x20
    ensures WithBits(t, bits) == if t % 2 == 1 && bits % 2 == 0 then bits + 1 else bits
  {
    assert t == TypeBits(t) + t % 2;
  }

  lemma DefinedTypeTellsSection(t: byte, sec: Section, weak: bool)
    requires !IsStab(t)
    ensures KindOfType(DefinedType(t, sec, weak)) == Some(sec.out)
      <==> !(weak && (sec.out == Data || sec.out == Abs)
             && (t % 2 == 1 || t == N_SETT || t == N_SETD || t == N_SETB || t == N_SETA))
  {
    hide WithBits, TypeBits;
    var t' := if (t == N_SETT || t == N_SETD || t == N_SETB || t == N_SETA) && t % 2 == 0 then t + 1 else t;
    var bits := match sec.out
      case Text => if weak then N_WEAKT else N_TEXT
      case Data => if weak then N_WEAKD else N_DATA
      case Bss => if weak then N_WEAKB else N_BSS
      case Abs => if weak then N_WEAKA else N_ABS;
    LowBits(t', bits);
    SmallTypes();
  }

  lemma SmallTypes()
    ensures forall t: byte :: t < 0x20 ==> TypeBits(t) == t - t % 2
  {
  }
}
