// The symbol table a partial link writes is what the laws about linking twice ask of the two links.
module AoutJoin {
  import opened Bytes
  import opened AoutReloc
  import opened AoutSymtab
  import opened AoutRenumber
  import opened Patches
  import opened AoutSection
  import opened AoutExt
  import opened AoutPartial

  // ---- what a record says ----------------------------------------------

  /** A raw symbol as base-relative relocs see it; the bracket of a header, whose value is a sum, is none. */
  function Raw(s: Nlist): Record {
    match KindOfType(s.typ)
    case None => NoSection
    case Some(k) => if s.typ == N_BINCL then NoSection else Record(k, s.value)
  }

  /** An external type: such symbols, and no stabs or file names, are entered in the hash table. */
  predicate Global(t: byte) { t < 0x1f && (t % 2 == 1 || N_WEAKU <= t <= N_WEAKB) }

  /** A symbol a later link is to define. */
  predicate Waiting(typ: HashType) { typ.Undefd? || typ.UndefdWeak? || typ.Common? }

  // ---- records of waiting symbols --------------------------------------

  /** The record of a waiting symbol carries its name and is external. */
  predicate WaitingOk(hash: Hash, out: seq<Nlist>) {
    forall n :: n in hash && Waiting(hash[n].typ) && hash[n].indx >= 0 ==>
      hash[n].indx < |out| && out[hash[n].indx].name == n && Global(out[hash[n].indx].typ)
  }

  /** Symbol `i` of an input waits for a definition. */
  predicate Waits(symHash: seq<Option<Name>>, hash: Hash, i: nat)
    requires i < |symHash|
  {
    symHash[i].Some? && symHash[i].value in hash && Waiting(hash[symHash[i].value].typ)
  }

  /** Symbols of an input that wait for a definition are external and not renamed. */
  predicate ProperNames(syms: seq<Nlist>, symHash: seq<Option<Name>>, hash: Hash)
    requires |symHash| == |syms|
  {
    forall i :: 0 <= i < |syms| && Waits(symHash, hash, i) ==>
      syms[i].name == symHash[i].value && Global(syms[i].typ)
  }

  lemma ResolvesToItself(hash: Hash, n: Name)
    requires n in hash && Waiting(hash[n].typ)
    ensures ResolvedType(hash, n) == hash[n].typ && Resolve(hash, n, {}) == n
  {
  }

  lemma WaitingClass(cfg: Config, s: Nlist, h: HashType)
    requires Waiting(h)
    ensures var w := Classify(cfg, s, Some(h)); w.typ == s.typ || w.typ == N_WEAKU
  {
    hide SectionValue;
  }

  lemma NotHeader(t: byte)
    ensures Global(t) ==> t != N_BINCL
    ensures Global(N_WEAKU) && Global(N_EXT)
  {
  }

  /** A waiting symbol's own record. */
  lemma WaitingCopied(cfg: Config, syms: seq<Nlist>, st: State, i: nat)
    requires StateOk(syms, st) && i < |syms| && Waits(st.symHash, st.hash, i)
    requires syms[i].name == st.symHash[i].value && Global(syms[i].typ)
    ensures var r, n := Step(cfg, syms, st, i), st.symHash[i].value;
      && (|r.out| == |st.out| + 1 ==> r.out[|st.out|].name == n && Global(r.out[|st.out|].typ))
      && r.symHash == st.symHash
  {
    hide Classify, Stripped, ResolvedType, Resolve, TypeBits, HeaderTotal, Totals, Marks;
    var n := st.symHash[i].value;
    ResolvesToItself(st.hash, n);
    WaitingClass(cfg, syms[i], st.hash[n].typ);
    NotHeader(syms[i].typ);
    var st1 := st.(smap := st.smap[i := -1]);
    assert EntryOf(st1, i) == Some(st.hash[n]);
    assert SymName(st1, i, syms[i]) == n && RecordName(cfg, st1, i, syms[i]) == n;
  }

  lemma WaitingStep(cfg: Config, syms: seq<Nlist>, st: State, i: nat)
    requires StateOk(syms, st) && i < |syms| && WaitingOk(st.hash, st.out)
    requires Waits(st.symHash, st.hash, i) ==> syms[i].name == st.symHash[i].value && Global(syms[i].typ)
    ensures var r := Step(cfg, syms, st, i); WaitingOk(r.hash, r.out)
  {
    hide Step, Global;
    StepShape(cfg, syms, st, i);
    var r := Step(cfg, syms, st, i);
    if Waits(st.symHash, st.hash, i) {
      WaitingCopied(cfg, syms, st, i);
    }
    forall n | n in r.hash && Waiting(r.hash[n].typ) && r.hash[n].indx >= 0
      ensures r.hash[n].indx < |r.out| && r.out[r.hash[n].indx].name == n && Global(r.out[r.hash[n].indx].typ)
    {
      assert n in st.hash && r.hash[n].typ == st.hash[n].typ;
      assert r.hash[n].indx == st.hash[n].indx || (Copies(syms, st, r, i) && st.symHash[i] == Some(n));
    }
  }

  /** What a run of the loop does not touch: the entries of symbols still to come, and types. */
  lemma {:induction false} RunLeaves(cfg: Config, syms: seq<Nlist>, st: State, k: nat)
    requires StateOk(syms, st) && k <= |syms|
    ensures var r := RunTo(cfg, syms, st, k);
      st.out <= r.out && r.symHash[k..] == st.symHash[k..] && SameTypes(st.hash, r.hash)
  {
    hide Step;
    if k > 0 {
      RunLeaves(cfg, syms, st, k - 1);
      var r := RunTo(cfg, syms, st, k - 1);
      StepGrows(cfg, syms, r, k - 1);
      StepShape(cfg, syms, r, k - 1);
      assert st.symHash[k..] == st.symHash[k - 1..][1..] && r.symHash[k..] == r.symHash[k - 1..][1..];
    }
  }

  /** When its turn comes, a symbol has the entry it had at the start. */
  lemma SameEntry(cfg: Config, syms: seq<Nlist>, st: State, k: nat)
    requires StateOk(syms, st) && k < |syms|
    ensures var r := RunTo(cfg, syms, st, k);
      r.symHash[k] == st.symHash[k] && (Waits(r.symHash, r.hash, k) <==> Waits(st.symHash, st.hash, k))
  {
    hide RunTo;
    RunLeaves(cfg, syms, st, k);
    var r := RunTo(cfg, syms, st, k);
    assert r.symHash[k] == r.symHash[k..][0] == st.symHash[k..][0] == st.symHash[k];
  }

  lemma {:induction false} WaitingRun(cfg: Config, syms: seq<Nlist>, st: State, k: nat)
    requires StateOk(syms, st) && k <= |syms| && WaitingOk(st.hash, st.out) && ProperNames(syms, st.symHash, st.hash)
    ensures var r := RunTo(cfg, syms, st, k); WaitingOk(r.hash, r.out)
  {
    hide Step, WaitingOk, Global, Waits;
    if k > 0 {
      WaitingRun(cfg, syms, st, k - 1);
      SameEntry(cfg, syms, st, k - 1);
      WaitingStep(cfg, syms, RunTo(cfg, syms, st, k - 1), k - 1);
    }
  }

  /** The record of a symbol that the run copied was written in the symbol's turn. */
  lemma {:induction false} CopiedAt(cfg: Config, syms: seq<Nlist>, st: State, k: nat, i: nat)
    requires StateOk(syms, st) && k <= |syms| && st.origin == [] && i in RunTo(cfg, syms, st, k).origin
    ensures i < k
    ensures var b, a, r := RunTo(cfg, syms, st, i), RunTo(cfg, syms, st, i + 1), RunTo(cfg, syms, st, k);
      |a.out| == |b.out| + 1 && r.smap[i] == |b.out| && a.out <= r.out
  {
    hide Step;
    var b := RunTo(cfg, syms, st, k - 1);
    StepShape(cfg, syms, b, k - 1);
    StepGrows(cfg, syms, b, k - 1);
    if i in b.origin {
      CopiedAt(cfg, syms, st, k - 1, i);
    } else {
      assert Copies(syms, b, RunTo(cfg, syms, st, k), k - 1);
    }
  }

  /** The record of a waiting symbol that was copied. */
  lemma OwnRecord(cfg: Config, syms: seq<Nlist>, st: State, i: nat)
    requires StateOk(syms, st) && st.origin == [] && i in RunTo(cfg, syms, st, |syms|).origin
    requires i < |syms| && Waits(st.symHash, st.hash, i) && ProperNames(syms, st.symHash, st.hash)
    ensures var r := RunTo(cfg, syms, st, |syms|);
      && 0 <= r.smap[i] < |r.out|
      && r.out[r.smap[i]].name == st.symHash[i].value && Global(r.out[r.smap[i]].typ)
  {
    hide Step, Global, Waits;
    CopiedAt(cfg, syms, st, |syms|, i);
    SameEntry(cfg, syms, st, i);
    WaitingCopied(cfg, syms, RunTo(cfg, syms, st, i), i);
  }

  /** The section of an input of this kind. */
  function SectionOf(cfg: Config, k: Kind): Section {
    match k
    case Text => cfg.text
    case Data => cfg.data
    case Bss => cfg.bss
    case Abs => ABS_SECTION
  }

  lemma SectionClass(cfg: Config, s: Nlist, h: Option<HashType>)
    requires Raw(s).Record?
    ensures Classify(cfg, s, h) == Written(s.typ, s.value + Move(SectionOf(cfg, Raw(s).kind)), false, false)
    ensures s.typ != N_BINCL
  {
    hide TypeBits;
  }

  /** The record of such a symbol. */
  lemma SectionEmitted(cfg: Config, syms: seq<Nlist>, st: State, i: nat, w: Written, name: Name, recName: Name)
    requires StateOk(syms, st) && i < |syms| && Raw(syms[i]).Record?
    requires w.typ == syms[i].typ && w.value == syms[i].value + Move(SectionOf(cfg, Raw(syms[i]).kind))
    ensures var r, s := Emit(cfg, syms, st, i, w, name, recName), Raw(syms[i]);
      && |r.out| == |st.out| + 1
      && Raw(r.out[|st.out|]) == Record(s.kind, (s.value + Move(SectionOf(cfg, s.kind))) % TWO32)
  {
    hide KindOfType, Move, SectionOf, HeaderTotal, Totals, Marks;
  }

  /** A raw symbol in a section is copied with its address. */
  lemma SectionCopied(cfg: Config, syms: seq<Nlist>, st: State, i: nat)
    requires StateOk(syms, st) && i < |syms| && Raw(syms[i]).Record? && !st.pass && !st.skipNext
    ensures var r, s := Step(cfg, syms, st, i), Raw(syms[i]);
      |r.out| == |st.out| + 1 ==>
        Raw(r.out[|st.out|]) == Record(s.kind, (s.value + Move(SectionOf(cfg, s.kind))) % TWO32)
  {
    hide Classify, Stripped, Discarded, Emit, Raw, TypeBits, Move, SectionOf, StepGlobal;
    var s, st1 := syms[i], st.(smap := st.smap[i := -1]);
    SectionClass(cfg, s, None);
    if EntryOf(st1, i).Some? {
      SectionGlobal(cfg, syms, st1, i, EntryOf(st1, i).value);
    } else {
      SectionEmitted(cfg, syms, st1.(pass := false, skipNext := false), i, Classify(cfg, s, None), s.name, s.name);
    }
  }

  lemma SectionGlobal(cfg: Config, syms: seq<Nlist>, st: State, i: nat, e: Entry)
    requires StateOk(syms, st) && i < |syms| && Raw(syms[i]).Record? && EntryOf(st, i) == Some(e)
    ensures var r, s := StepGlobal(cfg, syms, st, i, e), Raw(syms[i]);
      |r.out| == |st.out| + 1 ==>
        Raw(r.out[|st.out|]) == Record(s.kind, (s.value + Move(SectionOf(cfg, s.kind))) % TWO32)
  {
    hide Classify, Stripped, Emit, Raw, TypeBits, Move, SectionOf, Resolve, ResolvedType;
    var s, n := syms[i], st.symHash[i].value;
    var st1 := if e.typ.Indirect? || e.typ.Warning?
      then st.(symHash := st.symHash[i := Some(Resolve(st.hash, n, {}))]) else st;
    var h := ResolvedType(st1.hash, n);
    SectionClass(cfg, s, Some(h));
    var st2 := st1.(hash := st1.hash[n := e.(written := true, indx := |st1.out|)], pass := false, skipNext := false);
    SectionEmitted(cfg, syms, st2, i, Classify(cfg, s, Some(h)), SymName(st, i, s), RecordName(cfg, st, i, s));
  }

  // ---- over the whole link ---------------------------------------------

  lemma OtherGlobal(n: Name, typ: HashType)
    ensures OtherRecord(n, typ).Some? && Waiting(typ) ==>
      OtherRecord(n, typ).value.name == n && Global(OtherRecord(n, typ).value.typ)
  {
  }

  lemma WaitingOther(strip: Strip, keep: set<Name>, hash: Hash, out: seq<Nlist>, n: Name)
    requires n in hash && WaitingOk(hash, out)
    ensures var (hash', out') := WriteOther(strip, keep, hash, out, n); WaitingOk(hash', out') && out <= out'
  {
    hide OtherRecord, Global;
    var t := if hash[n].typ.Warning? then hash[n].typ.link else n;
    if t in hash {
      OtherGlobal(t, hash[t].typ);
    }
  }

  lemma WaitingForce(strip: Strip, keep: set<Name>, hash: Hash, out: seq<Nlist>, n: Name)
    requires n in hash && WaitingOk(hash, out)
    ensures var (hash', out') := ForceIndex(strip, keep, hash, out, n); WaitingOk(hash', out') && out <= out'
  {
    hide WriteOther;
    if hash[n].indx < 0 {
      WaitingOther(strip, keep, hash[n := hash[n].(indx := -2, written := false)], out, n);
    }
  }

  /** Every input's waiting symbols are external and not renamed; types are those the link starts with. */
  predicate ProperInputs(hash: Hash, steps: seq<LinkStep>) {
    forall k :: 0 <= k < |steps| && steps[k].WriteInput? && |steps[k].symHash| == |steps[k].syms| ==>
      ProperNames(steps[k].syms, steps[k].symHash, hash)
  }

  lemma ProperStays(syms: seq<Nlist>, symHash: seq<Option<Name>>, hash: Hash, hash': Hash)
    requires |symHash| == |syms| && SameTypes(hash, hash') && ProperNames(syms, symHash, hash)
    ensures ProperNames(syms, symHash, hash')
  {
  }

  lemma WaitingTake(strip: Strip, keep: set<Name>, t: Table, s: LinkStep)
    requires WaitingOk(t.hash, t.out)
    requires s.WriteInput? && |s.symHash| == |s.syms| ==> ProperNames(s.syms, s.symHash, t.hash)
    ensures var r := TakeStep(strip, keep, t, s); WaitingOk(r.hash, r.out) && t.out <= r.out
  {
    hide WriteOther, ForceIndex, ProperNames, RunTo;
    match s
    case WriteInput(cfg, syms, symHash) =>
      if |symHash| == |syms| {
        var st := Start(cfg, |syms|, symHash, t.hash, t.out, t.includes);
        assert WaitingOk(st.hash, st.out);
        WaitingRun(cfg, syms, st, |syms|);
        RunLeaves(cfg, syms, st, |syms|);
      }
    case Force(m) =>
      if m in t.hash {
        WaitingForce(strip, keep, t.hash, t.out, m);
      }
    case Other(m) =>
      if m in t.hash {
        WaitingOther(strip, keep, t.hash, t.out, m);
      }
  }

  /** After any steps of a link, from any point on: waiting symbols have records of their names, and records
      stay. */
  lemma {:induction false} WaitingLink(strip: Strip, keep: set<Name>, t: Table, steps: seq<LinkStep>, p: nat)
    requires WaitingOk(t.hash, t.out) && ProperInputs(t.hash, steps) && p <= |steps|
    ensures var r := AfterSteps(strip, keep, t, steps); WaitingOk(r.hash, r.out)
    ensures AfterSteps(strip, keep, t, steps[..p]).out <= AfterSteps(strip, keep, t, steps).out
    decreases |steps|
  {
    hide WaitingOk, TakeStep, ProperNames;
    if steps == [] {
      assert steps[..p] == steps;
    } else {
      var n := |steps| - 1;
      var u := AfterSteps(strip, keep, t, steps[..n]);
      WaitingLink(strip, keep, t, steps[..n], if p <= n then p else n);
      TypesKept(strip, keep, t, steps[..n]);
      if steps[n].WriteInput? && |steps[n].symHash| == |steps[n].syms| {
        ProperStays(steps[n].syms, steps[n].symHash, t.hash, u.hash);
      }
      WaitingTake(strip, keep, u, steps[n]);
      if p <= n {
        assert steps[..n][..p] == steps[..p];
      } else {
        assert steps[..p] == steps;
      }
    }
  }

  // ---- the links -------------------------------------------------------

  /** A partial link: the symbol table it starts with, and its steps. */
  datatype Run = Run(strip: Strip, keep: set<Name>, t: Table, steps: seq<LinkStep>)

  predicate IsInput(run: Run, p: nat) {
    p < |run.steps| && run.steps[p].WriteInput? && |run.steps[p].symHash| == |run.steps[p].syms|
  }

  function Last(run: Run): Table { AfterSteps(run.strip, run.keep, run.t, run.steps) }

  /** The symbol loop's state when the input's turn comes, and after its first `k` symbols. */
  function Begin(run: Run, p: nat): State
    requires IsInput(run, p)
  {
    var u, s := AfterSteps(run.strip, run.keep, run.t, run.steps[..p]), run.steps[p];
    Start(s.cfg, |s.syms|, s.symHash, u.hash, u.out, u.includes)
  }

  function Reached(run: Run, p: nat, k: nat): (r: State)
    requires IsInput(run, p) && k <= |run.steps[p].syms|
    ensures |r.smap| == |run.steps[p].syms|
  {
    RunTo(run.steps[p].cfg, run.steps[p].syms, Begin(run, p), k)
  }

  function Ended(run: Run, p: nat): (r: State)
    requires IsInput(run, p)
    ensures |r.smap| == |run.steps[p].syms|
  {
    Reached(run, p, |run.steps[p].syms|)
  }

  /** The output index a reloc against symbol `i` gets: its entry in the symbol map or, failing that, its hash
      entry's; negative if it has neither. */
  function IndexAt(run: Run, p: nat, i: nat): int
    requires IsInput(run, p) && i < |run.steps[p].syms|
  {
    var m, h := Ended(run, p).smap[i], run.steps[p].symHash[i];
    if m >= 0 then m
    else if h.Some? && h.value in Last(run).hash then Last(run).hash[h.value].indx
    else -1
  }

  /** What the partial link knows about symbol `i` of an input. */
  function SymAt(run: Run, p: nat, i: nat): Sym
    requires IsInput(run, p) && i < |run.steps[p].syms|
  {
    var h := run.steps[p].symHash[i];
    if h.None? || h.value !in run.t.hash then Unattached
    else
      match run.t.hash[h.value].typ
      case Def(v, sec, _) => Defined(v, sec)
      case UndefdWeak => if IndexAt(run, p, i) >= 0 then UndefWeak else Unattached
      case Undefd => if IndexAt(run, p, i) >= 0 then Undefined else Unattached
      case Common(_) => if IndexAt(run, p, i) >= 0 then Undefined else Unattached
      case _ => Unattached
  }

  /** The symbol was copied in its own right, not as the target of the one before it. */
  predicate Copied(run: Run, p: nat, i: nat)
    requires IsInput(run, p) && i < |run.steps[p].syms|
  {
    i in Ended(run, p).origin && !Reached(run, p, i).pass && !Reached(run, p, i).skipNext
  }

  function RecordAt(run: Run, p: nat, i: nat): Record
    requires IsInput(run, p) && i < |run.steps[p].syms|
  {
    if Copied(run, p, i) then Raw(run.steps[p].syms[i]) else NoSection
  }

  /** The partial link as the relocs of one of its inputs see it, in a section of this kind. */
  function First(run: Run, p: nat, kind: Kind): (l: Link)
    requires IsInput(run, p)
    ensures |l.syms| == |l.records| == |l.newIndex| == |run.steps[p].syms|
  {
    var cfg, n := run.steps[p].cfg, |run.steps[p].syms|;
    Link(cfg.text, cfg.data, cfg.bss, kind,
         seq(n, i requires 0 <= i < n => SymAt(run, p, i)),
         seq(n, i requires 0 <= i < n => RecordAt(run, p, i)),
         seq(n, i requires 0 <= i < n => if IndexAt(run, p, i) >= 0 then IndexAt(run, p, i) else 0))
  }

  /** What a final link that ends with these definitions knows about a name. */
  function Known(defs: map<Name, HashType>, n: Name): (s: Sym)
    ensures !s.Unattached?
  {
    if n !in defs then Undefined
    else
      match defs[n]
      case Def(v, sec, _) => Defined(v, sec)
      case UndefdWeak => UndefWeak
      case _ => Undefined
  }

  /** Where a final link puts the sections of an input. */
  datatype Sections = Sections(text: Section, data: Section, bss: Section)

  /** The final link of the partial link's output: its symbols are the records written. */
  function Second(run: Run, at: Sections, kind: Kind, defs: map<Name, HashType>): (l: Link)
    ensures |l.syms| == |l.records| == |l.newIndex| == |Last(run).out|
  {
    var out := Last(run).out;
    Link(at.text, at.data, at.bss, kind,
         seq(|out|, j requires 0 <= j < |out| => if Global(out[j].typ) then Known(defs, out[j].name) else Unattached),
         seq(|out|, j requires 0 <= j < |out| => Raw(out[j])),
         seq(|out|, _ => 0))
  }

  /** The link of the inputs themselves. */
  function Direct(run: Run, p: nat, at: Sections, kind: Kind, defs: map<Name, HashType>): (l: Link)
    requires IsInput(run, p)
    ensures |l.syms| == |l.records| == |l.newIndex| == |run.steps[p].syms|
  {
    var syms, symHash := run.steps[p].syms, run.steps[p].symHash;
    Link(at.text, at.data, at.bss, kind,
         seq(|syms|, i requires 0 <= i < |syms| =>
           if symHash[i].Some? then Known(defs, symHash[i].value) else Unattached),
         seq(|syms|, i requires 0 <= i < |syms| => Raw(syms[i])),
         seq(|syms|, _ => 0))
  }

  // ---- what is asked of a partial link ---------------------------------

  /** The link starts with a sound table, its inputs are as the symbol reader leaves them, and nothing that
      cannot be written is forced out. */
  predicate Sound(run: Run) {
    && HashOk(run.t.hash, run.t.out) && NoForced(run.t.hash) && WaitingOk(run.t.hash, run.t.out)
    && ProperInputs(run.t.hash, run.steps)
    && forall k :: 0 <= k < |run.steps| && run.steps[k].Force? && run.steps[k].n in run.t.hash ==>
         Writable(run.t.hash[run.steps[k].n].typ)
  }

  /** The two final links agree about names: what the partial link defined has moved with its section, and what
      it left waiting gets the same address from both. */
  predicate SameDefinitions(run: Run, second: Link, defs2: map<Name, HashType>, defsD: map<Name, HashType>) {
    forall n :: n in run.t.hash ==>
      match run.t.hash[n].typ
      case Def(v, sec, _) => Address(Known(defsD, n)) == v + Place(sec) + Move(SecOf(second, sec.out))
      case _ => Waiting(run.t.hash[n].typ) ==> Address(Known(defs2, n)) == Address(Known(defsD, n))
  }

  /** No address of a copied symbol wraps around. */
  predicate NoWrap(run: Run, p: nat)
    requires IsInput(run, p)
  {
    forall i :: 0 <= i < |run.steps[p].syms| && RecordAt(run, p, i).Record? ==>
      var s := RecordAt(run, p, i); 0 <= s.value + Move(SectionOf(run.steps[p].cfg, s.kind)) < TWO32
  }

  // ---- the theorem -----------------------------------------------------

  /** What the invariants give at the input's turn and after it. */
  lemma AtInput(run: Run, p: nat)
    requires Sound(run) && IsInput(run, p)
    ensures var s, st, r := run.steps[p], Begin(run, p), Ended(run, p);
      && StateOk(s.syms, st) && st.origin == [] && st.symHash == s.symHash && ProperNames(s.syms, st.symHash, st.hash)
      && SameTypes(run.t.hash, st.hash) && SameTypes(run.t.hash, r.hash)
      && MapsOk(s.syms, r, |s.syms|) && OthersOk(s.syms, s.symHash, r, |s.syms|)
      && WaitingOk(r.hash, r.out) && r.out <= Last(run).out
    ensures WaitingOk(Last(run).hash, Last(run).out) && SameTypes(run.t.hash, Last(run).hash)
    ensures HashOk(Last(run).hash, Last(run).out)
  {
    hide HashOk, NoForced, WaitingOk, ProperNames, MapsOk, OthersOk, OriginsOk, Writable, RunTo, AfterSteps;
    var steps, s := run.steps, run.steps[p];
    var u := AfterSteps(run.strip, run.keep, run.t, steps[..p]);
    assert forall k :: 0 <= k < p ==> steps[..p][k] == steps[k];
    LinkInvariantByTypes(run.strip, run.keep, run.t, steps[..p]);
    LinkInvariantByTypes(run.strip, run.keep, run.t, steps);
    Renumbering(s.cfg, s.syms, s.symHash, u.hash, u.out, u.includes);
    TypesKept(run.strip, run.keep, run.t, steps[..p]);
    TypesKept(run.strip, run.keep, run.t, steps);
    ProperStays(s.syms, s.symHash, run.t.hash, u.hash);
    RunLeaves(s.cfg, s.syms, Begin(run, p), |s.syms|);
    WaitingLink(run.strip, run.keep, run.t, steps, p + 1);
    WaitingLink(run.strip, run.keep, run.t, steps[..p], p);
    assert steps[..p + 1][..p] == steps[..p];
    AfterNext(run, p);
    WaitingLink(run.strip, run.keep, run.t, steps[..p + 1], p);
  }

  lemma AfterNext(run: Run, p: nat)
    requires IsInput(run, p)
    ensures var r := AfterSteps(run.strip, run.keep, run.t, run.steps[..p + 1]);
      r.out == Ended(run, p).out && r.hash == Ended(run, p).hash
  {
    hide RunTo;
    assert run.steps[..p + 1][..p] == run.steps[..p];
  }

  /** A waiting symbol with an index has a record of its name, which a later link enters in its table. */
  lemma IndexNames(run: Run, p: nat, i: nat)
    requires Sound(run) && IsInput(run, p) && i < |run.steps[p].syms|
    requires Waits(run.steps[p].symHash, run.t.hash, i) && IndexAt(run, p, i) >= 0
    ensures var out, j := Last(run).out, IndexAt(run, p, i);
      j < |out| && out[j].name == run.steps[p].symHash[i].value && Global(out[j].typ)
  {
    hide Sound, HashOk, Global, RunTo, Last, ProperNames;
    AtInput(run, p);
    var s, r, n := run.steps[p], Ended(run, p), run.steps[p].symHash[i].value;
    if r.smap[i] >= 0 {
      if i in r.origin {
        OwnRecord(s.cfg, s.syms, Begin(run, p), i);
      } else {
        assert r.hash[n].indx == r.smap[i];
      }
    }
  }

  lemma SymJoins(run: Run, p: nat, second: Link, direct: Link, at2: Sections, atD: Sections, kind: Kind,
                 defs2: map<Name, HashType>, defsD: map<Name, HashType>, i: nat)
    requires Sound(run) && IsInput(run, p) && i < |run.steps[p].syms|
    requires second == Second(run, at2, kind, defs2) && direct == Direct(run, p, atD, kind, defsD)
    requires SameDefinitions(run, second, defs2, defsD)
    ensures SymChains(First(run, p, kind), second, direct, i)
  {
    hide Sound, Last, Ended, Reached, Move, Place, RunTo, AfterSteps, Copied, Global, RecordAt, Known, IndexAt;
    if Waits(run.steps[p].symHash, run.t.hash, i) && IndexAt(run, p, i) >= 0 {
      IndexNames(run, p, i);
    }
  }

  /** A symbol copied in its own right has a record in the section it is in, with its address. */
  lemma RecordWritten(run: Run, p: nat, i: nat)
    requires Sound(run) && IsInput(run, p) && i < |run.steps[p].syms| && RecordAt(run, p, i).Record?
    ensures var out, j, s := Last(run).out, IndexAt(run, p, i), RecordAt(run, p, i);
      && 0 <= j < |out|
      && Raw(out[j]) == Record(s.kind, (s.value + Move(SectionOf(run.steps[p].cfg, s.kind))) % TWO32)
  {
    hide Sound, Last, Move, ProperNames, RunTo, KindOfType, HashOk, WaitingOk, MapsOk, OthersOk;
    var s := run.steps[p];
    AtInput(run, p);
    CopiedAt(s.cfg, s.syms, Begin(run, p), |s.syms|, i);
    SectionCopied(s.cfg, s.syms, Reached(run, p, i), i);
    NextReached(run, p, i);
  }

  lemma NextReached(run: Run, p: nat, i: nat)
    requires IsInput(run, p) && i < |run.steps[p].syms|
    ensures Reached(run, p, i + 1) == Step(run.steps[p].cfg, run.steps[p].syms, Reached(run, p, i), i)
  {
    hide Step;
  }

  lemma RecordJoins(run: Run, p: nat, at2: Sections, atD: Sections, kind: Kind, defs2: map<Name, HashType>,
                    defsD: map<Name, HashType>, i: nat)
    requires Sound(run) && IsInput(run, p) && i < |run.steps[p].syms| && NoWrap(run, p)
    ensures RecordChains(First(run, p, kind), Second(run, at2, kind, defs2), Direct(run, p, atD, kind, defsD), i)
  {
    hide Sound, Last, Move, Global, Known, SymAt, IndexAt;
    if RecordAt(run, p, i).Record? {
      RecordWritten(run, p, i);
    }
  }

  /** The join.  Whatever the inputs and options of a partial link are, and in whatever order its symbols are
      written, its output's symbol table makes the chain that the laws about linking twice ask for. */
  lemma ChainsHold(run: Run, p: nat, at2: Sections, atD: Sections, kind: Kind, defs2: map<Name, HashType>,
                   defsD: map<Name, HashType>)
    requires Sound(run) && IsInput(run, p) && NoWrap(run, p) && kind != Abs
    requires SameDefinitions(run, Second(run, at2, kind, defs2), defs2, defsD)
    requires forall k: Kind :: k != Abs ==>
      SectionChains(First(run, p, kind), Second(run, at2, kind, defs2), Direct(run, p, atD, kind, defsD), k)
    ensures Chains(First(run, p, kind), Second(run, at2, kind, defs2), Direct(run, p, atD, kind, defsD))
  {
    hide Sound, NoWrap, First, Second, Direct, SymChains, RecordChains, SameDefinitions, SectionChains;
    var f, s, d := First(run, p, kind), Second(run, at2, kind, defs2), Direct(run, p, atD, kind, defsD);
    forall i | 0 <= i < |f.syms|
      ensures SymChains(f, s, d, i) && RecordChains(f, s, d, i)
    {
      SymJoins(run, p, s, d, at2, atD, kind, defs2, defsD, i);
      RecordJoins(run, p, at2, atD, kind, defs2, defsD, i);
    }
    Inputs(run, p, at2, atD, kind, defs2, defsD);
  }

  lemma Inputs(run: Run, p: nat, at2: Sections, atD: Sections, kind: Kind, defs2: map<Name, HashType>,
               defsD: map<Name, HashType>)
    requires IsInput(run, p)
    ensures First(run, p, kind).input == kind && Second(run, at2, kind, defs2).input == kind
    ensures Direct(run, p, atD, kind, defsD).input == kind
  {
  }

  // ---- with the contents -----------------------------------------------

  /** Which input of the partial link a piece comes from, and where the direct link puts its sections. */
  datatype Origin = Origin(p: nat, at: Sections)

  /** The links that see a piece of an output section of this kind are those made from the tables. */
  ghost predicate FromTables(run: Run, o: Origin, at2: Sections, kind: Kind, defs2: map<Name, HashType>,
                             defsD: map<Name, HashType>, first: Link, direct: Link)
  {
    && IsInput(run, o.p) && NoWrap(run, o.p)
    && first == First(run, o.p, kind) && direct == Direct(run, o.p, o.at, kind, defsD)
    && 0 <= Input(first).outOffset
    && forall k: Kind :: k != Abs ==> SectionChains(first, Second(run, at2, kind, defs2), direct, k)
  }

  /** From symbol tables to contents (standard relocs): a section linked from the output of a partial link is
      what a direct link makes of the inputs, if and only if no reloc drifts.  Symbol indices and addresses are
      those the partial link's own symbol loop gave out. */
  lemma PartialLinkOfTablesStd(run: Run, ins: seq<StdInput>, from: seq<Origin>, at2: Sections, kind: Kind,
                               defs2: map<Name, HashType>, defsD: map<Name, HashType>, big: bool)
    requires Sound(run) && kind != Abs && |ins| == |from|
    requires SameDefinitions(run, Second(run, at2, kind, defs2), defs2, defsD)
    requires forall k :: 0 <= k < |ins| ==>
      && FromTables(run, from[k], at2, kind, defs2, defsD, ins[k].first, ins[k].direct)
      && AllStdOk(ins[k].first, ins[k].relocs, |ins[k].contents|)
      && AllStdOk(ins[k].direct, ins[k].relocs, |ins[k].contents|) && StdSeparate(ins[k].relocs)
    ensures StdInputsOk(ins, Second(run, at2, kind, defs2))
    ensures forall k :: 0 <= k < |ins| ==> StdReaches(ins[k], Second(run, at2, kind, defs2))
    ensures var second := Second(run, at2, kind, defs2);
      var section := Joined(StdPartialPieces(ins, second, big));
      StdPlaced(ins, second, big) && AllStdOk(second, StdPartialRelocs(ins, second), |section|) ==>
        (ApplyAll(StdPatches(second, false, StdPartialRelocs(ins, second), |section|), section, big)
           == Joined(StdDirectPieces(ins, second, big))
         <==> forall k :: 0 <= k < |ins| ==> AllNoDrift(ins[k].first, ins[k].relocs, |ins[k].contents|))
  {
    hide Sound, SameDefinitions, First, Second, Direct, Chains, SectionChains, AllStdOk, StdSeparate, StdPlaced,
      StdPartialRelocs, StdPartialPieces, StdDirectPieces, AllNoDrift, ApplyAll, Joined, NoWrap;
    var second := Second(run, at2, kind, defs2);
    forall k | 0 <= k < |ins|
      ensures StdInputOk(ins[k], second)
    {
      ChainsHold(run, from[k].p, at2, from[k].at, kind, defs2, defsD);
    }
    StdAllReach(ins, second);
    if StdPlaced(ins, second, big)
       && AllStdOk(second, StdPartialRelocs(ins, second), |Joined(StdPartialPieces(ins, second, big))|) {
      PartialLinkStd(ins, second, big);
    }
  }

  /** The same for extended relocs, whose base-relative ones look into the symbol table the partial link wrote:
      the contents agree if no drift reaches the bits of a field and, when each input's fields are separate,
      only if. */
  lemma PartialLinkOfTablesExt(run: Run, ins: seq<ExtInput>, from: seq<Origin>, at2: Sections, kind: Kind,
                               defs2: map<Name, HashType>, defsD: map<Name, HashType>, big: bool)
    requires Sound(run) && kind != Abs && |ins| == |from|
    requires SameDefinitions(run, Second(run, at2, kind, defs2), defs2, defsD)
    requires forall k :: 0 <= k < |ins| ==>
      && FromTables(run, from[k], at2, kind, defs2, defsD, ins[k].first, ins[k].direct)
      && AllExtOk(ins[k].first, ins[k].relocs, |ins[k].contents|)
      && AllExtOk(ins[k].direct, ins[k].relocs, |ins[k].contents|)
    ensures ExtInputsOk(ins, Second(run, at2, kind, defs2))
    ensures forall k :: 0 <= k < |ins| ==> ExtReaches(ins[k], Second(run, at2, kind, defs2))
    ensures var second, section := Second(run, at2, kind, defs2), Joined(ExtPieces(ins));
      ExtPlaced(ins) && AllExtOk(second, ExtPartialRelocs(ins, second), |section|) ==>
        var same := ApplyAll(ExtPatches(second, ExtPartialRelocs(ins, second), |section|), section, big)
          == Joined(ExtDirectPieces(ins, second, big));
        && (ExtAllKept(ins, second) ==> same)
        && ((forall k :: 0 <= k < |ins| ==> ExtSeparate(ins[k].relocs)) ==> (same <==> ExtAllKept(ins, second)))
  {
    hide Sound, SameDefinitions, First, Second, Direct, Chains, SectionChains, AllExtOk, ExtSeparate, ExtPlaced,
      ExtPartialRelocs, ExtPieces, ExtDirectPieces, ExtAllKept, ApplyAll, Joined, NoWrap;
    var second := Second(run, at2, kind, defs2);
    forall k | 0 <= k < |ins|
      ensures ExtInputOk(ins[k], second)
    {
      ChainsHold(run, from[k].p, at2, from[k].at, kind, defs2, defsD);
    }
    ExtAllReach(ins, second);
    if ExtPlaced(ins) && AllExtOk(second, ExtPartialRelocs(ins, second), |Joined(ExtPieces(ins))|) {
      PartialLinkExt(ins, second, big);
    }
  }
}
