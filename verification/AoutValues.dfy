// The values of the records an a.out link writes: a symbol's record has the address relocs against it get.
module AoutValues {
  import opened Bytes
  import P = Patches
  import opened AoutReloc
  import opened AoutSymtab
  import opened AoutRenumber
  import opened AoutJoin

  // ---- following indirections ------------------------------------------

  predicate Links(hash: Hash, n: Name) {
    n in hash && (hash[n].typ.Indirect? || hash[n].typ.Warning?)
  }

  /** A chain of indirect and warning entries, each linked to the next, and what it ends in. */
  predicate Chain(hash: Hash, path: seq<Name>) {
    && path != [] && !Links(hash, path[|path| - 1])
    && forall k :: 0 <= k < |path| - 1 ==> Links(hash, path[k]) && hash[path[k]].typ.link == path[k + 1]
  }

  lemma {:induction false} Repeats(hash: Hash, path: seq<Name>, i: nat, j: nat)
    requires Chain(hash, path) && i < j < |path|
    ensures path[i] != path[j]
    decreases |path| - j
  {
    if path[i] == path[j] && j + 1 < |path| {
      Repeats(hash, path, i + 1, j + 1);
    }
  }

  lemma {:induction false} ChainFrom(hash: Hash, path: seq<Name>, k: nat, seen: set<Name>)
    requires Chain(hash, path) && k < |path| && forall j :: k <= j < |path| ==> path[j] !in seen
    ensures Resolve(hash, path[k], seen) == path[|path| - 1]
    decreases |path| - k
  {
    if k + 1 < |path| {
      forall j | k + 1 <= j < |path|
        ensures path[j] !in seen + {path[k]}
      {
        Repeats(hash, path, k, j);
      }
      ChainFrom(hash, path, k + 1, seen + {path[k]});
    }
  }

  /** Following the links from a name ends where its chain does. */
  lemma ChainEnds(hash: Hash, path: seq<Name>)
    requires Chain(hash, path)
    ensures Resolve(hash, path[0], {}) == path[|path| - 1]
    ensures path[|path| - 1] in hash ==> ResolvedType(hash, path[0]) == hash[path[|path| - 1]].typ
  {
    ChainFrom(hash, path, 0, {});
  }

  // ---- the value of a record -------------------------------------------

  /** The section of the input that a type names; `bits` is the type without stab and external bits. */
  function OwnSection(cfg: Config, t: byte): Option<Section> {
    var bits := t / 2 % 16 * 2;
    if bits == 0x04 || t == 0x0f then Some(cfg.text)
    else if bits == 0x06 || t == 0x10 then Some(cfg.data)
    else if bits == 0x08 || t == 0x11 then Some(cfg.bss)
    else if bits == 0x02 || t == 0x0e then Some(Section(0, 0, 0, Abs))
    else None
  }

  /** A set element's type names the section it stands in. */
  function SetSection(cfg: Config, t: byte): Option<Section> {
    var bits := t / 2 % 16 * 2;
    if bits == 0x16 then Some(cfg.text)
    else if bits == 0x18 then Some(cfg.data)
    else if bits == 0x1a then Some(cfg.bss)
    else if bits == 0x14 then Some(Section(0, 0, 0, Abs))
    else None
  }

  /** The symbol is the name of another, or a stab: its value is passed through. */
  predicate PassedOn(t: byte, h: Option<HashType>) {
    t == 0x1e || t >= 0x20
    || (t / 2 % 16 * 2 == 0x0a && !(h.Some? && (h.value.Def? || h.value.Common?)))
  }

  function Moved(s: Section, value: int): int { value - s.vma + s.outVma + s.outOffset }

  /** The value a symbol is written with, given what the hash table says of the end of its chain.  A symbol that
      stands in a section moves with it; another gets what the hash table says: the address of a definition, the
      size of a common symbol, and 0 for what is not defined. */
  function Expected(cfg: Config, s: Nlist, h: Option<HashType>): int {
    if OwnSection(cfg, s.typ).Some? then Moved(OwnSection(cfg, s.typ).value, s.value)
    else if PassedOn(s.typ, h) then s.value
    else
      match h
      case Some(Def(v, sec, _)) => v + sec.outVma + sec.outOffset
      case Some(Common(size)) => size
      case Some(_) => 0
      case None => if SetSection(cfg, s.typ).Some? then Moved(SetSection(cfg, s.typ).value, s.value) else 0
  }

  lemma ClassOwn(cfg: Config, s: Nlist, h: Option<HashType>)
    requires OwnSection(cfg, s.typ).Some?
    ensures Classify(cfg, s, h).value == Moved(OwnSection(cfg, s.typ).value, s.value)
    ensures Classify(cfg, s, h).typ == s.typ
  {
    hide DefinedType;
    assert TypeBits(s.typ) == s.typ / 2 % 16 * 2;
  }

  lemma ClassPassed(cfg: Config, s: Nlist, h: Option<HashType>)
    requires OwnSection(cfg, s.typ).None? && PassedOn(s.typ, h)
    ensures Classify(cfg, s, h).value == s.value && Classify(cfg, s, h).typ == s.typ
  {
    hide DefinedType, SectionValue;
    assert TypeBits(s.typ) == s.typ / 2 % 16 * 2;
  }

  lemma ClassRest(cfg: Config, s: Nlist, h: Option<HashType>)
    requires OwnSection(cfg, s.typ).None? && !PassedOn(s.typ, h)
    ensures Classify(cfg, s, h).value == Expected(cfg, s, h)
  {
    hide DefinedType;
    assert TypeBits(s.typ) == s.typ / 2 % 16 * 2;
  }

  lemma ClassValue(cfg: Config, s: Nlist, h: Option<HashType>)
    ensures Classify(cfg, s, h).value == Expected(cfg, s, h)
  {
    hide Classify, OwnSection, SetSection, PassedOn;
    if OwnSection(cfg, s.typ).Some? {
      ClassOwn(cfg, s, h);
    } else if PassedOn(s.typ, h) {
      ClassPassed(cfg, s, h);
    } else {
      ClassRest(cfg, s, h);
    }
  }

  lemma NotBracket(cfg: Config, s: Nlist, h: Option<HashType>)
    requires s.typ < 0x20
    ensures Classify(cfg, s, h).typ != N_BINCL
  {
    hide SectionValue, TypeBits;
    if h.Some? && h.value.Def? {
      DefinedSmall(s.typ, h.value.sec, h.value.weak);
    }
  }

  lemma DefinedSmall(t: byte, sec: Section, weak: bool)
    requires t < 0x20
    ensures DefinedType(t, sec, weak) < 0x20
  {
    assert t == TypeBits(t) + t % 2;
  }

  // ---- one symbol ------------------------------------------------------

  lemma EmitValue(cfg: Config, syms: seq<Nlist>, st: State, i: nat, w: Written, name: Name, recName: Name)
    requires StateOk(syms, st) && i < |syms| && w.typ != N_BINCL
    ensures var r := Emit(cfg, syms, st, i, w, name, recName);
      |r.out| == |st.out| + 1 && r.out[|st.out|].value == w.value % TWO32 && r.hash == st.hash
  {
  }

  /** The record a symbol with a hash table entry gets in its own right. */
  lemma GlobalValue(cfg: Config, syms: seq<Nlist>, st: State, i: nat, e: Entry)
    requires StateOk(syms, st) && i < |syms| && EntryOf(st, i) == Some(e) && syms[i].typ < 0x20
    ensures var r, h := StepGlobal(cfg, syms, st, i, e), ResolvedType(st.hash, st.symHash[i].value);
      |r.out| == |st.out| + 1 ==> r.out[|st.out|].value == Expected(cfg, syms[i], Some(h)) % TWO32
  {
    hide Classify, Stripped, Emit, TypeBits, Resolve, ResolvedType, Expected;
    var s, n := syms[i], st.symHash[i].value;
    var st1 := if e.typ.Indirect? || e.typ.Warning?
      then st.(symHash := st.symHash[i := Some(Resolve(st.hash, n, {}))]) else st;
    var w := Classify(cfg, s, Some(ResolvedType(st1.hash, n)));
    ClassValue(cfg, s, Some(ResolvedType(st1.hash, n)));
    NotBracket(cfg, s, Some(ResolvedType(st1.hash, n)));
    var st2 := st1.(hash := st1.hash[n := e.(written := true, indx := |st1.out|)], pass := w.pass,
      skipNext := w.skipNext);
    EmitValue(cfg, syms, st2, i, w, SymName(st, i, s), RecordName(cfg, st, i, s));
  }

  /** And the record of a local symbol that is not a header's bracket. */
  lemma LocalValue(cfg: Config, syms: seq<Nlist>, st: State, i: nat)
    requires StateOk(syms, st) && i < |syms| && EntryOf(st, i).None? && syms[i].typ != N_BINCL
    requires st.smap[i] != -1 && !st.pass && !st.skipNext
    ensures var r := Step(cfg, syms, st, i);
      |r.out| == |st.out| + 1 ==> r.out[|st.out|].value == Expected(cfg, syms[i], None) % TWO32
  {
    hide Classify, Stripped, Discarded, Emit, TypeBits, Expected;
    var s := syms[i];
    var w := Classify(cfg, s, None);
    ClassValue(cfg, s, None);
    LocalType(cfg, s);
    EmitValue(cfg, syms, st.(smap := st.smap[i := -1], pass := w.pass, skipNext := w.skipNext), i, w, s.name, s.name);
  }

  lemma LocalType(cfg: Config, s: Nlist)
    ensures Classify(cfg, s, None).typ == s.typ
  {
    hide SectionValue, TypeBits;
  }

  // ---- the link --------------------------------------------------------

  /** The value a name's record has: the address of the definition its chain ends in, the size of a common symbol,
      0 for one that is not defined. */
  predicate RightValue(hash: Hash, n: Name, value: nat)
    requires n in hash
  {
    match ResolvedType(hash, n)
    case Def(v, sec, _) => value == (v + (sec.outVma + sec.outOffset)) % TWO32
    case Common(size) => hash[n].typ.Common? ==> value == size % TWO32
    case Undefd => hash[n].typ.Undefd? ==> value == 0
    case UndefdWeak => hash[n].typ.UndefdWeak? ==> value == 0
    case _ => true
  }

  /** The records of all names but those that only warn. */
  predicate ValuesOk(hash: Hash, out: seq<Nlist>) {
    forall n :: n in hash && !hash[n].typ.Warning? && hash[n].indx >= 0 ==>
      hash[n].indx < |out| && RightValue(hash, n, out[hash[n].indx].value)
  }

  /** A symbol of an input that has a hash table entry: it is no stab; a warning's entry is a warning; it stands in
      a section only if the name's definition is this one; and it is no indirection if the name is not. */
  predicate ProperSym(cfg: Config, s: Nlist, hash: Hash, n: Name)
    requires n in hash
  {
    && s.typ < 0x20 && (s.typ == 0x1e ==> hash[n].typ.Warning?)
    && (!hash[n].typ.Warning? ==>
          match ResolvedType(hash, n)
          case Def(v, sec, _) => OwnSection(cfg, s.typ).Some? ==>
            (Moved(OwnSection(cfg, s.typ).value, s.value) - (v + (sec.outVma + sec.outOffset))) % TWO32 == 0
          case _ => Waiting(hash[n].typ) ==> OwnSection(cfg, s.typ).None? && s.typ / 2 % 16 * 2 != 0x0a)
  }

  predicate ProperSyms(cfg: Config, syms: seq<Nlist>, symHash: seq<Option<Name>>, hash: Hash)
    requires |symHash| == |syms|
  {
    forall i :: 0 <= i < |syms| && symHash[i].Some? && symHash[i].value in hash ==>
      ProperSym(cfg, syms[i], hash, symHash[i].value)
  }

  lemma {:induction false} SameResolve(h: Hash, h': Hash, n: Name, seen: set<Name>)
    requires SameTypes(h, h')
    ensures Resolve(h, n, seen) == Resolve(h', n, seen)
    decreases h.Keys - seen
  {
    if n in h && n !in seen && (h[n].typ.Indirect? || h[n].typ.Warning?) {
      SameResolve(h, h', h[n].typ.link, seen + {n});
    }
  }

  lemma SameResolved(h: Hash, h': Hash, n: Name)
    requires SameTypes(h, h')
    ensures ResolvedType(h, n) == ResolvedType(h', n)
    ensures n in h ==> forall v :: RightValue(h, n, v) <==> RightValue(h', n, v)
  {
    hide Resolve;
    SameResolve(h, h', n, {});
  }

  lemma ExpectedRight(cfg: Config, s: Nlist, hash: Hash, n: Name)
    requires n in hash && ProperSym(cfg, s, hash, n) && !hash[n].typ.Warning?
    ensures RightValue(hash, n, Expected(cfg, s, Some(ResolvedType(hash, n))) % TWO32)
  {
    hide OwnSection, SetSection, Resolve, Moved;
    var h := ResolvedType(hash, n);
    if h.Def? && OwnSection(cfg, s.typ).Some? {
      P.ModSame(Moved(OwnSection(cfg, s.typ).value, s.value), h.value + (h.sec.outVma + h.sec.outOffset), TWO32);
    }
    if Waiting(hash[n].typ) {
      ResolvesToItself(hash, n);
    }
  }

  lemma ValueStep(cfg: Config, syms: seq<Nlist>, st: State, i: nat)
    requires StateOk(syms, st) && i < |syms| && ValuesOk(st.hash, st.out)
    requires st.symHash[i].Some? && st.symHash[i].value in st.hash ==>
      ProperSym(cfg, syms[i], st.hash, st.symHash[i].value)
    ensures var r := Step(cfg, syms, st, i); ValuesOk(r.hash, r.out)
  {
    hide Step, RightValue, ProperSym, ResolvedType, Expected;
    StepShape(cfg, syms, st, i);
    var r := Step(cfg, syms, st, i);
    forall n | n in r.hash && !r.hash[n].typ.Warning? && r.hash[n].indx >= 0
      ensures r.hash[n].indx < |r.out| && RightValue(r.hash, n, r.out[r.hash[n].indx].value)
    {
      SameResolved(st.hash, r.hash, n);
      if r.hash[n].indx != st.hash[n].indx {
        assert st.symHash[i] == Some(n) && Copies(syms, st, r, i);
        ProperSmall(cfg, syms[i], st.hash, n);
        OwnStep(cfg, syms, st, i);
        ExpectedRight(cfg, syms[i], st.hash, n);
      }
    }
  }

  lemma ProperSmall(cfg: Config, s: Nlist, hash: Hash, n: Name)
    requires n in hash && ProperSym(cfg, s, hash, n)
    ensures s.typ < 0x20
  {
  }

  /** Only a symbol's own step gives its entry an index. */
  lemma OwnStep(cfg: Config, syms: seq<Nlist>, st: State, i: nat)
    requires StateOk(syms, st) && i < |syms|
    requires var r := Step(cfg, syms, st, i); Copies(syms, st, r, i) && r.hash != st.hash
    requires syms[i].typ < 0x20
    ensures var r := Step(cfg, syms, st, i);
      && EntryOf(st, i).Some?
      && r.out[|st.out|].value
         == Expected(cfg, syms[i], Some(ResolvedType(st.hash, st.symHash[i].value))) % TWO32
  {
    hide StepGlobal, LocalStep, Expected, ResolvedType;
    var st1 := st.(smap := st.smap[i := -1]);
    LocalKeepsHash(cfg, syms, st1, i);
    GlobalValue(cfg, syms, st1, i, EntryOf(st1, i).value);
  }

  lemma LocalKeepsHash(cfg: Config, syms: seq<Nlist>, st: State, i: nat)
    requires StateOk(syms, st) && i < |syms|
    ensures LocalStep(cfg, syms, st, i).hash == st.hash
  {
    hide Classify, Stripped, Discarded, HeaderTotal, Totals, Marks;
  }

  lemma ProperStill(cfg: Config, s: Nlist, h: Hash, h': Hash, n: Name)
    requires SameTypes(h, h') && n in h && ProperSym(cfg, s, h, n)
    ensures ProperSym(cfg, s, h', n)
  {
    hide ResolvedType, OwnSection, Moved;
    SameResolved(h, h', n);
  }

  lemma {:induction false} ValueRun(cfg: Config, syms: seq<Nlist>, st: State, k: nat)
    requires StateOk(syms, st) && k <= |syms| && ValuesOk(st.hash, st.out) && ProperSyms(cfg, syms, st.symHash, st.hash)
    ensures var r := RunTo(cfg, syms, st, k); ValuesOk(r.hash, r.out)
  {
    hide Step, ValuesOk, ProperSym;
    if k > 0 {
      ValueRun(cfg, syms, st, k - 1);
      RunLeaves(cfg, syms, st, k - 1);
      var r := RunTo(cfg, syms, st, k - 1);
      assert r.symHash[k - 1] == r.symHash[k - 1..][0] == st.symHash[k - 1..][0] == st.symHash[k - 1];
      if st.symHash[k - 1].Some? && st.symHash[k - 1].value in st.hash {
        ProperStill(cfg, syms[k - 1], st.hash, r.hash, st.symHash[k - 1].value);
      }
      ValueStep(cfg, syms, r, k - 1);
    }
  }

  /** The record of a symbol that comes from no input. */
  lemma OtherValue(hash: Hash, n: Name)
    requires n in hash
    ensures var r := OtherRecord(n, hash[n].typ); r.Some? ==> r.value.name == n && RightValue(hash, n, r.value.value)
  {
    hide OtherType;
  }

  lemma ValueOther(strip: Strip, keep: set<Name>, hash: Hash, out: seq<Nlist>, n: Name)
    requires n in hash && ValuesOk(hash, out)
    ensures var (hash', out') := WriteOther(strip, keep, hash, out, n); ValuesOk(hash', out')
  {
    hide OtherRecord, RightValue;
    var t := if hash[n].typ.Warning? then hash[n].typ.link else n;
    var (hash', out') := WriteOther(strip, keep, hash, out, n);
    if t in hash {
      OtherValue(hash, t);
    }
    forall m | m in hash' && !hash'[m].typ.Warning? && hash'[m].indx >= 0
      ensures hash'[m].indx < |out'| && RightValue(hash', m, out'[hash'[m].indx].value)
    {
      SameResolved(hash, hash', m);
      assert hash'[m].indx == hash[m].indx || (m == t && hash'[m].indx == |out|);
    }
  }

  lemma ValueForce(strip: Strip, keep: set<Name>, hash: Hash, out: seq<Nlist>, n: Name)
    requires n in hash && ValuesOk(hash, out)
    ensures var (hash', out') := ForceIndex(strip, keep, hash, out, n); ValuesOk(hash', out')
  {
    hide WriteOther, RightValue;
    if hash[n].indx < 0 {
      var forced := hash[n := hash[n].(indx := -2, written := false)];
      forall m | m in forced
        ensures forall v :: RightValue(hash, m, v) <==> RightValue(forced, m, v)
      {
        SameResolved(hash, forced, m);
      }
      ValueOther(strip, keep, forced, out, n);
    }
  }

  /** Every input's symbols are as the symbol reader enters them. */
  predicate ProperLink(hash: Hash, steps: seq<LinkStep>) {
    forall k :: 0 <= k < |steps| && steps[k].WriteInput? && |steps[k].symHash| == |steps[k].syms| ==>
      ProperSyms(steps[k].cfg, steps[k].syms, steps[k].symHash, hash)
  }

  lemma ProperSymsStill(cfg: Config, syms: seq<Nlist>, symHash: seq<Option<Name>>, h: Hash, h': Hash)
    requires |symHash| == |syms| && SameTypes(h, h') && ProperSyms(cfg, syms, symHash, h)
    ensures ProperSyms(cfg, syms, symHash, h')
  {
    hide ProperSym;
    forall i | 0 <= i < |syms| && symHash[i].Some? && symHash[i].value in h'
      ensures ProperSym(cfg, syms[i], h', symHash[i].value)
    {
      ProperStill(cfg, syms[i], h, h', symHash[i].value);
    }
  }

  lemma ValueTake(strip: Strip, keep: set<Name>, t: Table, s: LinkStep)
    requires ValuesOk(t.hash, t.out)
    requires s.WriteInput? && |s.symHash| == |s.syms| ==> ProperSyms(s.cfg, s.syms, s.symHash, t.hash)
    ensures var r := TakeStep(strip, keep, t, s); ValuesOk(r.hash, r.out)
  {
    hide WriteOther, ForceIndex, ProperSyms, RunTo, RightValue;
    match s
    case WriteInput(cfg, syms, symHash) =>
      if |symHash| == |syms| {
        var st := Start(cfg, |syms|, symHash, t.hash, t.out, t.includes);
        assert ValuesOk(st.hash, st.out);
        ValueRun(cfg, syms, st, |syms|);
      }
    case Force(m) =>
      if m in t.hash {
        ValueForce(strip, keep, t.hash, t.out, m);
      }
    case Other(m) =>
      if m in t.hash {
        ValueOther(strip, keep, t.hash, t.out, m);
      }
  }

  /** In a whole link, whatever its inputs, options and order, the record at the index of every name has the value
      the name stands for, whether the record was copied from an input or written on its own. */
  lemma {:induction false} LinkValues(strip: Strip, keep: set<Name>, t: Table, steps: seq<LinkStep>)
    requires ValuesOk(t.hash, t.out) && ProperLink(t.hash, steps)
    ensures var r := AfterSteps(strip, keep, t, steps); ValuesOk(r.hash, r.out)
  {
    hide ValuesOk, TakeStep, ProperSyms;
    if steps != [] {
      var n := |steps| - 1;
      var u := AfterSteps(strip, keep, t, steps[..n]);
      LinkValues(strip, keep, t, steps[..n]);
      TypesKept(strip, keep, t, steps[..n]);
      if steps[n].WriteInput? && |steps[n].symHash| == |steps[n].syms| {
        ProperSymsStill(steps[n].cfg, steps[n].syms, steps[n].symHash, t.hash, u.hash);
      }
      ValueTake(strip, keep, u, steps[n]);
    }
  }

  /** The address in the record of a defined name is the one relocs against the name get. */
  lemma RecordIsAddress(run: Run, p: nat, i: nat, n: Name)
    requires ValuesOk(run.t.hash, run.t.out) && ProperLink(run.t.hash, run.steps)
    requires IsInput(run, p) && i < |run.steps[p].syms| && run.steps[p].symHash[i] == Some(n)
    requires SymAt(run, p, i).Defined? && n in Last(run).hash && Last(run).hash[n].indx >= 0
    ensures var j := Last(run).hash[n].indx;
      j < |Last(run).out| && Last(run).out[j].value == Address(SymAt(run, p, i)) % TWO32
  {
    hide AfterSteps, IndexAt;
    LinkValues(run.strip, run.keep, run.t, run.steps);
    TypesKept(run.strip, run.keep, run.t, run.steps);
  }

  // ---- a definition that was overridden --------------------------------

  /** When the chain of a symbol's name ends in a definition, the symbol is written with the definition's address if
      and only if it stands in no section or is itself at that address. */
  lemma DefinitionIff(cfg: Config, syms: seq<Nlist>, st: State, i: nat, e: Entry, path: seq<Name>)
    requires StateOk(syms, st) && i < |syms| && EntryOf(st, i) == Some(e) && syms[i].typ < 0x1e
    requires Chain(st.hash, path) && path[0] == st.symHash[i].value && path[|path| - 1] in st.hash
    requires st.hash[path[|path| - 1]].typ.Def? && |StepGlobal(cfg, syms, st, i, e).out| == |st.out| + 1
    ensures var d, s := st.hash[path[|path| - 1]].typ, syms[i];
      var address := (d.value + (d.sec.outVma + d.sec.outOffset)) % TWO32;
      StepGlobal(cfg, syms, st, i, e).out[|st.out|].value == address
      <==> OwnSection(cfg, s.typ).None? || Moved(OwnSection(cfg, s.typ).value, s.value) % TWO32 == address
  {
    hide StepGlobal, OwnSection, Resolve, Moved;
    ChainEnds(st.hash, path);
    GlobalValue(cfg, syms, st, i, e);
  }

  const F: Name := [102]

  /** An input whose weak `f` is at 4, in a link where another input defines it, at 8 of a text placed at 4096. */
  const WEAK := [Nlist(N_WEAKT, 0, 0, F, 4)]
  const PLACED := Section(0, 0, 4096, Text)
  const OPTIONS := Config(StripNone, DiscardNone, {}, {}, true, Section(0, 0, 0, Text), Section(0, 0, 0, Data),
                          Section(0, 0, 0, Bss), [97])

  /** The weak definition that lost is the one whose address is written, under the index of the name. */
  lemma OverriddenWeak()
    ensures var hash := map[F := Entry(Def(8, PLACED, false), -1, false)];
      var r := WriteSymbols(OPTIONS, WEAK, [Some(F)], hash, [], map[]);
      && Address(Defined(8, PLACED)) == 4104
      && F in r.hash && r.hash[F].indx == 1 && |r.out| == 2 && r.out[1].name == F && r.out[1].value == 4
  {
    hide Classify, Resolve;
    var hash := map[F := Entry(Def(8, PLACED, false), -1, false)];
    var st := Start(OPTIONS, 1, [Some(F)], hash, [], map[]);
    ClassOwn(OPTIONS, WEAK[0], Some(ResolvedType(hash, F)));
    assert RunTo(OPTIONS, WEAK, st, 0) == st;
    assert RunTo(OPTIONS, WEAK, st, 1) == Step(OPTIONS, WEAK, RunTo(OPTIONS, WEAK, st, 0), 0);
    var st1 := st.(smap := st.smap[0 := -1]);
    assert EntryOf(st1, 0) == Some(hash[F]);
    NotBracket(OPTIONS, WEAK[0], Some(ResolvedType(hash, F)));
  }
}
