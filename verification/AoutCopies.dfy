// The records an a.out link writes, field by field: which symbols the options keep, under which name and type, and
// what becomes of an indirection and the symbol behind it.
module AoutCopies {
  import opened Bytes
  import opened AoutReloc
  import opened AoutSymtab
  import opened AoutRenumber
  import opened AoutValues

  // ---- what the options keep -------------------------------------------

  /** Stripping keeps the symbol: everything; all but debugging symbols; the names on a list; nothing. */
  predicate StripKeeps(cfg: Config, t: byte, n: Name) {
    match cfg.strip
    case StripNone => true
    case StripDebugger => t < 0x20
    case StripSome => n in cfg.keep
    case StripAll => false
  }

  /** Discarding local symbols drops all of them, or the compiler's own labels that are no debugging symbols, and
      never an element of a set. */
  predicate DiscardKeeps(cfg: Config, t: byte, n: Name) {
    (cfg.discard == DiscardAll || (cfg.discard == DiscardL && t < 0x20 && n in cfg.localLabels))
      ==> t / 2 % 16 * 2 in {0x14, 0x16, 0x18, 0x1a}
  }

  lemma KeptIs(cfg: Config, t: byte, s: Nlist, n: Name)
    ensures Stripped(cfg, s, n) <==> !StripKeeps(cfg, s.typ, n)
    ensures Discarded(cfg, t, n) <==> !DiscardKeeps(cfg, t, n)
  {
    assert TypeBits(t) == t / 2 % 16 * 2;
  }

  // ---- the type --------------------------------------------------------

  /** The symbol stands for another: an indirection, or a warning about the symbol behind it. */
  predicate Stands(t: byte) { t / 2 % 16 * 2 == 0x0a || t == 0x1e }

  /** And it still does in the output: only an indirection whose name got a definition does not. */
  predicate StandsStill(t: byte, h: Option<HashType>) {
    Stands(t) && (t == 0x1e || !(h.Some? && (h.value.Def? || h.value.Common?)))
  }

  /** The number of a section as a type, strong and weak. */
  function Number(k: Kind, weak: bool): byte {
    match k
    case Text => if weak then 0x0f else 4
    case Data => if weak then 0x10 else 6
    case Bss => if weak then 0x11 else 8
    case Abs => if weak then 0x0e else 2
  }

  /** With the external bit set. */
  function Visible(t: byte): byte
    requires t < 0xff
  {
    if t % 2 == 0 then t + 1 else t
  }

  /** The type a symbol is written with.  One that stands in no section and whose name has a definition gets the
      type of the definition's section; it stays external, and an element of a set becomes so. */
  predicate TypeIs(cfg: Config, s: Nlist, h: Option<HashType>, t: byte) {
    if OwnSection(cfg, s.typ).Some? || PassedOn(s.typ, h) then t == s.typ
    else
      match h
      case Some(Def(_, sec, weak)) =>
        t == if s.typ % 2 == 1 || s.typ in {0x14, 0x16, 0x18, 0x1a} then Visible(Number(sec.out, weak))
             else Number(sec.out, weak)
      case Some(UndefdWeak) => t == 0x0d
      case _ => t == s.typ
  }

  lemma DefinedIs(t: byte, sec: Section, weak: bool)
    requires t < 0x20
    ensures DefinedType(t, sec, weak)
      == if t % 2 == 1 || t in {0x14, 0x16, 0x18, 0x1a} then Visible(Number(sec.out, weak)) else Number(sec.out, weak)
  {
    assert t == TypeBits(t) + t % 2;
    if t % 2 == 0 {
      assert TypeBits(t + 1) == TypeBits(t);
    }
  }

  lemma ClassType(cfg: Config, s: Nlist, h: Option<HashType>)
    ensures TypeIs(cfg, s, h, Classify(cfg, s, h).typ)
  {
    hide DefinedType, SectionValue, Visible, Number;
    assert TypeBits(s.typ) == s.typ / 2 % 16 * 2;
    if s.typ < 0x20 && h.Some? && h.value.Def? {
      DefinedIs(s.typ, h.value.sec, h.value.weak);
    }
  }

  lemma ClassFlags(cfg: Config, s: Nlist, h: Option<HashType>)
    ensures var w := Classify(cfg, s, h);
      && (w.pass <==> StandsStill(s.typ, h))
      && (w.skipNext <==> Stands(s.typ) && !StandsStill(s.typ, h) && s.typ < 0x20)
  {
    hide DefinedType, SectionValue;
    assert TypeBits(s.typ) == s.typ / 2 % 16 * 2;
  }

  // ---- one symbol ------------------------------------------------------

  /** The state with one more record, that of symbol `i`. */
  function Recorded(st: State, i: nat, r: Nlist): State
    requires i < |st.smap|
  {
    st.(smap := st.smap[i := |st.out|], out := st.out + [r], origin := st.origin + [i])
  }

  /** The symbol's turn has come: it is not dropped with a header, nor told of by the symbol before it. */
  predicate OwnTurn(syms: seq<Nlist>, st: State, i: nat)
    requires StateOk(syms, st)
  {
    i < |syms| && st.smap[i] != -1 && !st.pass && !st.skipNext
  }

  /** A local symbol that opens no header is copied under its own name and type exactly when both options keep it,
      and nothing else changes. */
  lemma LocalCopied(cfg: Config, syms: seq<Nlist>, st: State, i: nat)
    requires StateOk(syms, st) && OwnTurn(syms, st, i) && EntryOf(st, i).None? && syms[i].typ != N_BINCL
    ensures var s := syms[i];
      var copy := Nlist(s.typ, s.other, s.desc, s.name, Expected(cfg, s, None) % TWO32);
      Step(cfg, syms, st, i)
      == if StripKeeps(cfg, s.typ, s.name) && DiscardKeeps(cfg, s.typ, s.name)
         then Recorded(st, i, copy).(pass := Stands(s.typ))
         else st.(smap := st.smap[i := -1])
  {
    hide Classify, Stripped, Discarded, StripKeeps, DiscardKeeps, Stands, TypeBits, Expected;
    var s := syms[i];
    var w := Classify(cfg, s, None);
    ClassValue(cfg, s, None);
    LocalType(cfg, s);
    LocalFlags(cfg, s);
    KeptIs(cfg, s.typ, s, s.name);
    assert st.smap[i := -1][i := |st.out|] == st.smap[i := |st.out|];
  }

  lemma LocalFlags(cfg: Config, s: Nlist)
    ensures var w := Classify(cfg, s, None); (w.pass <==> Stands(s.typ)) && !w.skipNext
  {
    hide Classify;
    ClassFlags(cfg, s, None);
  }

  /** The name by which the options know a symbol that has a hash table entry. */
  function Label(s: Nlist, n: Name, e: Entry): Name { if e.typ.Warning? then s.name else n }

  /** Where relocs against the symbol will look: at the end of its chain. */
  function Followed(st: State, i: nat, e: Entry, end: Name): seq<Option<Name>>
    requires i < |st.symHash|
  {
    if e.typ.Indirect? || e.typ.Warning? then st.symHash[i := Some(end)] else st.symHash
  }

  /** What the hash table says at the end of a chain. */
  function EndType(hash: Hash, end: Name): HashType { if end in hash then hash[end].typ else New }

  /** The state after a symbol with an entry, whose chain ends in `end`.  One already written gets the index it has,
      and an indirection's target is then skipped; one that is stripped counts as written; any other gets a record,
      with what the end of its chain says, and its entry the record's index. */
  predicate GlobalStep(cfg: Config, s: Nlist, st: State, i: nat, e: Entry, n: Name, end: Name, r: State)
    requires i < |st.smap| == |st.symHash|
  {
    var h := Some(EndType(st.hash, end));
    if e.written then
      r == st.(symHash := Followed(st, i, e, end), smap := st.smap[i := e.indx], skipNext := Stands(s.typ))
    else if !StripKeeps(cfg, s.typ, Label(s, n, e)) then
      r == st.(symHash := Followed(st, i, e, end), smap := st.smap[i := -1], hash := st.hash[n := e.(written := true)])
    else
      && |r.out| == |st.out| + 1
      && TypeIs(cfg, s, h, r.out[|st.out|].typ)
      && r == Recorded(st, i, Nlist(r.out[|st.out|].typ, s.other, s.desc, if cfg.keepMemory then Label(s, n, e) else n,
          Expected(cfg, s, h) % TWO32)).(
            symHash := Followed(st, i, e, end), hash := st.hash[n := e.(written := true, indx := |st.out|)],
            pass := StandsStill(s.typ, h), skipNext := Stands(s.typ) && !StandsStill(s.typ, h))
  }

  lemma GlobalCopied(cfg: Config, syms: seq<Nlist>, st: State, i: nat, e: Entry, path: seq<Name>)
    requires StateOk(syms, st) && OwnTurn(syms, st, i) && EntryOf(st, i) == Some(e) && syms[i].typ < 0x20
    requires Chain(st.hash, path) && st.symHash[i] == Some(path[0])
    ensures GlobalStep(cfg, syms[i], st, i, e, path[0], path[|path| - 1], Step(cfg, syms, st, i))
  {
    hide StepGlobal, GlobalStep, Chain, Resolve;
    var st1 := st.(smap := st.smap[i := -1]);
    ChainSome(st.hash, path);
    GlobalOwn(cfg, syms, st1, i, e, path);
    assert EntryOf(st1, i) == Some(e);
    SameStep(cfg, syms[i], st, i, e, path[0], path[|path| - 1], StepGlobal(cfg, syms, st1, i, e));
  }

  lemma ChainSome(hash: Hash, path: seq<Name>)
    requires Chain(hash, path)
    ensures path != []
  {
  }

  /** The map's own entry is set in any case. */
  lemma SameStep(cfg: Config, s: Nlist, st: State, i: nat, e: Entry, n: Name, end: Name, r: State)
    requires i < |st.smap| == |st.symHash|
    requires GlobalStep(cfg, s, st.(smap := st.smap[i := -1]), i, e, n, end, r)
    ensures GlobalStep(cfg, s, st, i, e, n, end, r)
  {
    hide StripKeeps, Stands, StandsStill, Expected, TypeIs;
    assert st.smap[i := -1][i := |st.out|] == st.smap[i := |st.out|];
    assert st.smap[i := -1][i := e.indx] == st.smap[i := e.indx];
    assert st.smap[i := -1][i := -1] == st.smap[i := -1];
  }

  lemma GlobalOwn(cfg: Config, syms: seq<Nlist>, st: State, i: nat, e: Entry, path: seq<Name>)
    requires StateOk(syms, st) && i < |syms| && !st.pass && !st.skipNext
    requires st.smap[i] == -1 && EntryOf(st, i) == Some(e) && syms[i].typ < 0x20
    requires Chain(st.hash, path) && st.symHash[i] == Some(path[0])
    ensures GlobalStep(cfg, syms[i], st, i, e, path[0], path[|path| - 1], StepGlobal(cfg, syms, st, i, e))
  {
    hide Classify, Stripped, StripKeeps, Stands, StandsStill, TypeBits, Expected, TypeIs, Chain, Resolve, ResolvedType;
    ChainSome(st.hash, path);
    var s, n, end := syms[i], path[0], path[|path| - 1];
    var h := EndType(st.hash, end);
    ChainEnds(st.hash, path);
    EndIs(st.hash, path);
    KeptIs(cfg, s.typ, s, Label(s, n, e));
    StandsIs(s.typ);
    ClassValue(cfg, s, Some(h));
    ClassType(cfg, s, Some(h));
    ClassFlags(cfg, s, Some(h));
    NotBracket(cfg, s, Some(h));
    assert st.smap[i := -1] == st.smap;
  }

  lemma StandsIs(t: byte)
    ensures Stands(t) <==> TypeBits(t) == N_INDR || t == N_WARNING
  {
  }

  lemma EndIs(hash: Hash, path: seq<Name>)
    requires Chain(hash, path)
    ensures ResolvedType(hash, path[0]) == EndType(hash, path[|path| - 1])
  {
    hide Chain, Resolve;
    ChainEnds(hash, path);
  }

  /** The symbol behind one that stands for it is copied as it is. */
  lemma PassedCopied(cfg: Config, syms: seq<Nlist>, st: State, i: nat)
    requires StateOk(syms, st) && i < |syms| && st.smap[i] != -1 && st.pass
    ensures Step(cfg, syms, st, i) == Recorded(st, i, syms[i].(value := syms[i].value % TWO32)).(pass := false)
  {
    hide LocalStep, StepGlobal;
    assert st.smap[i := -1][i := |st.out|] == st.smap[i := |st.out|];
  }

  /** The symbol behind one that no longer does is not copied. */
  lemma SkippedDropped(cfg: Config, syms: seq<Nlist>, st: State, i: nat)
    requires StateOk(syms, st) && i < |syms| && st.smap[i] != -1 && !st.pass && st.skipNext
    ensures Step(cfg, syms, st, i) == st.(smap := st.smap[i := -1], skipNext := false)
  {
    hide LocalStep, StepGlobal;
  }

  /** An indirection or a warning with the symbol behind it, in two turns.  If the first is copied and still stands
      for the second, the second follows it in the output as it was; if it was written before, or its name got a
      definition, the second is dropped. */
  lemma PairCopied(cfg: Config, syms: seq<Nlist>, st: State, i: nat, e: Entry, path: seq<Name>)
    requires StateOk(syms, st) && OwnTurn(syms, st, i) && EntryOf(st, i) == Some(e) && syms[i].typ < 0x20
    requires Chain(st.hash, path) && st.symHash[i] == Some(path[0])
    requires Stands(syms[i].typ) && i + 1 < |syms| && st.smap[i + 1] != -1
    ensures var r1, h := Step(cfg, syms, st, i), Some(EndType(st.hash, path[|path| - 1]));
      var r := Step(cfg, syms, r1, i + 1);
      if e.written then r.out == st.out && r.smap[i] == e.indx && r.smap[i + 1] == -1
      else if !StripKeeps(cfg, syms[i].typ, Label(syms[i], path[0], e)) then r1.out == st.out && r1.smap[i] == -1
      else if StandsStill(syms[i].typ, h) then
        |r.out| == |st.out| + 2 && r.out[..|st.out|] == st.out && r.smap[i + 1] == r.smap[i] + 1 == |st.out| + 1
        && r.out[|st.out| + 1] == syms[i + 1].(value := syms[i + 1].value % TWO32)
      else |r.out| == |st.out| + 1 && r.out[..|st.out|] == st.out && r.smap[i + 1] == -1
  {
    hide Step, StripKeeps, Stands, StandsStill, Expected, TypeIs, Chain;
    ChainSome(st.hash, path);
    var r1, h := Step(cfg, syms, st, i), Some(EndType(st.hash, path[|path| - 1]));
    GlobalCopied(cfg, syms, st, i, e, path);
    if e.written || (StripKeeps(cfg, syms[i].typ, Label(syms[i], path[0], e)) && !StandsStill(syms[i].typ, h)) {
      SkippedDropped(cfg, syms, r1, i + 1);
    } else if StripKeeps(cfg, syms[i].typ, Label(syms[i], path[0], e)) {
      PassedCopied(cfg, syms, r1, i + 1);
    }
  }

  // ---- records that come from no symbol of an input --------------------

  /** Every input starts with a symbol of its own, a text symbol at the start of its text, unless all symbols are
      stripped, its name is not among those to keep, or all local ones are discarded. */
  lemma FileRecord(cfg: Config, n: nat, symHash: seq<Option<Name>>, hash: Hash, out: seq<Nlist>, includes: Includes)
    ensures var st := Start(cfg, n, symHash, hash, out, includes);
      && st.hash == hash && st.symHash == symHash && st.includes == includes && !st.pass && !st.skipNext
      && (forall i :: 0 <= i < n ==> st.smap[i] == 0)
      && st.out == if cfg.strip == StripAll || cfg.discard == DiscardAll
                      || (cfg.strip == StripSome && cfg.filename !in cfg.keep) then out
                   else out + [Nlist(0x04, 0, 0, cfg.filename, (cfg.text.outVma + cfg.text.outOffset) % TWO32)]
  {
    assert out + [] == out;
  }

  /** The type of a symbol that comes from no input. */
  predicate OtherTypeIs(h: HashType, t: byte) {
    match h
    case Undefd => t == 0x01
    case Common(_) => t == 0x01
    case UndefdWeak => t == 0x0d
    case Def(_, sec, weak) => t == Visible(Number(sec.out, weak))
    case _ => true
  }

  /** The entry meant: a warning's is the one it warns of. */
  function Meant(hash: Hash, n: Name): Name
    requires n in hash
  {
    if hash[n].typ.Warning? then hash[n].typ.link else n
  }

  /** A symbol is written on its own exactly when it was not written before, its type can be written, and it is
      kept or was forced; it is then the next record, and its entry has the index.  No entry but its own changes,
      and that counts as written from then on. */
  lemma OtherWritten(strip: Strip, keep: set<Name>, hash: Hash, out: seq<Nlist>, n: Name)
    requires n in hash && Meant(hash, n) in hash
    ensures var (hash', out') := WriteOther(strip, keep, hash, out, n);
      var m := Meant(hash, n);
      var kept := strip == StripNone || strip == StripDebugger || (strip == StripSome && m in keep);
      if !hash[m].written && Writable(hash[m].typ) && (kept || hash[m].indx == -2) then
        && hash' == hash[m := hash[m].(written := true, indx := |out|)]
        && |out'| == |out| + 1 && out'[..|out|] == out
        && out'[|out|].name == m && out'[|out|].other == 0 && out'[|out|].desc == 0
        && OtherTypeIs(hash[m].typ, out'[|out|].typ) && RightValue(hash, m, out'[|out|].value)
      else
        && out' == out
        && (hash' == hash || hash' == hash[m := hash[m].(written := true)])
        && (hash' == hash <==> hash[m].written || (hash[n].typ.Warning? && m != n && hash[m].typ.New?))
  {
    hide OtherRecord, RightValue, OtherType;
    var m := Meant(hash, n);
    OtherValue(hash, m);
    OtherFields(m, hash[m].typ);
  }

  lemma OtherFields(n: Name, h: HashType)
    ensures OtherRecord(n, h).Some? <==> Writable(h)
    ensures var r := OtherRecord(n, h);
      r.Some? ==> r.value.other == 0 && r.value.desc == 0 && OtherTypeIs(h, r.value.typ)
  {
  }
}
