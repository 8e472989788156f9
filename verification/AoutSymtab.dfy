// Writing an input's symbols in an a.out link: which are copied, under which index, with which type
// and value; and the folding of duplicate header stabs.
module AoutSymtab {
  import opened Bytes
  import opened AoutReloc

  type Name = seq<byte>

  const N_ABS := 0x02
  const N_TEXT := 0x04
  const N_DATA := 0x06
  const N_BSS := 0x08
  const N_INDR := 0x0a
  const N_WEAKU := 0x0d
  const N_WEAKA := 0x0e
  const N_WEAKT := 0x0f
  const N_WEAKD := 0x10
  const N_WEAKB := 0x11
  const N_SETA := 0x14
  const N_SETT := 0x16
  const N_SETD := 0x18
  const N_SETB := 0x1a
  const N_WARNING := 0x1e
  const N_BINCL := 0x82
  const N_EINCL := 0xa2
  const N_EXCL := 0xc2

  /** `type & N_TYPE` and `(type & N_STAB) != 0`. */
  function TypeBits(t: byte): nat { t / 2 % 16 * 2 }
  predicate IsStab(t: byte) { t >= 0x20 }

  /** A symbol of the input file, and one of the output. */
  datatype Nlist = Nlist(typ: byte, other: byte, desc: nat, name: Name, value: nat)

  /** What the hash table says of a name.  `Indirect` and `Warning` entries link to another name. */
  datatype HashType =
    | New | Undefd | UndefdWeak | Def(value: int, sec: Section, weak: bool) | Common(size: nat)
    | Indirect(link: Name) | Warning(link: Name)

  datatype Entry = Entry(typ: HashType, indx: int, written: bool)

  type Hash = map<Name, Entry>

  datatype Strip = StripNone | StripDebugger | StripSome | StripAll
  datatype Discard = DiscardNone | DiscardSecMerge | DiscardL | DiscardAll

  /** What does not change while one input's symbols are written. */
  datatype Config = Config(strip: Strip, discard: Discard, keep: set<Name>, localLabels: set<Name>, keepMemory: bool,
                           text: Section, data: Section, bss: Section, filename: Name)

  /** `hresolve`: the end of a chain of indirections. */
  function Resolve(hash: Hash, n: Name, seen: set<Name>): Name
    decreases hash.Keys - seen
  {
    if n in hash && n !in seen && (hash[n].typ.Indirect? || hash[n].typ.Warning?)
    then Resolve(hash, hash[n].typ.link, seen + {n})
    else n
  }

  function ResolvedType(hash: Hash, n: Name): HashType {
    var r := Resolve(hash, n, {});
    if r in hash then hash[r].typ else New
  }

  // ---- type and value --------------------------------------------------

  /** The type and value a symbol is written with; whether the next symbol is to be passed through or
      skipped, being the target of this one's indirection. */
  datatype Written = Written(typ: byte, value: int, pass: bool, skipNext: bool)

  function SectionValue(s: Section, value: int): int { Place(s) + (value - s.vma) }

  function WithBits(t: byte, bits: nat): byte
    requires bits < 0x20
  {
    var rest := t - TypeBits(t);
    rest + bits - (if t % 2 == 1 && bits % 2 == 1 then 1 else 0)
  }

  function DefinedType(t: byte, sec: Section, weak: bool): byte {
    var t' := if (t == N_SETT || t == N_SETD || t == N_SETB || t == N_SETA) && t % 2 == 0 then t + 1 else t;
    WithBits(t', match sec.out
                 case Text => if weak then N_WEAKT else N_TEXT
                 case Data => if weak then N_WEAKD else N_DATA
                 case Bss => if weak then N_WEAKB else N_BSS
                 case Abs => if weak then N_WEAKA else N_ABS)
  }

  function Classify(cfg: Config, s: Nlist, h: Option<HashType>): Written {
    var t, bits := s.typ, TypeBits(s.typ);
    if bits == N_TEXT || t == N_WEAKT then Written(t, SectionValue(cfg.text, s.value), false, false)
    else if bits == N_DATA || t == N_WEAKD then Written(t, SectionValue(cfg.data, s.value), false, false)
    else if bits == N_BSS || t == N_WEAKB then Written(t, SectionValue(cfg.bss, s.value), false, false)
    else if bits == N_ABS || t == N_WEAKA then Written(t, SectionValue(ABS_SECTION, s.value), false, false)
    else if (bits == N_INDR && (h.None? || !(h.value.Def? || h.value.Common?))) || t == N_WARNING then
      Written(t, s.value, true, false)
    else if IsStab(t) then Written(t, s.value, false, false)
    else
      var skipNext := bits == N_INDR;
      match h
      case None =>
        Written(t, if bits == N_SETT then SectionValue(cfg.text, s.value)
                   else if bits == N_SETD then SectionValue(cfg.data, s.value)
                   else if bits == N_SETB then SectionValue(cfg.bss, s.value)
                   else if bits == N_SETA then SectionValue(ABS_SECTION, s.value)
                   else 0, false, skipNext)
      case Some(Def(value, sec, weak)) => Written(DefinedType(t, sec, weak), value + Place(sec), false, skipNext)
      case Some(Common(size)) => Written(t, size, false, skipNext)
      case Some(UndefdWeak) => Written(N_WEAKU, 0, false, skipNext)
      case Some(_) => Written(t, 0, false, skipNext)
  }

  predicate Stripped(cfg: Config, s: Nlist, name: Name) {
    match cfg.strip
    case StripNone => false
    case StripDebugger => IsStab(s.typ)
    case StripSome => name !in cfg.keep
    case StripAll => true
  }

  predicate Discarded(cfg: Config, typ: byte, name: Name) {
    var bits := TypeBits(typ);
    && bits != N_SETT && bits != N_SETD && bits != N_SETB && bits != N_SETA
    && match cfg.discard
       case DiscardL => !IsStab(typ) && name in cfg.localLabels
       case DiscardAll => true
       case _ => false
  }

  // ---- header stabs ----------------------------------------------------

  /** The characters of a stab string, not counting file numbers: the digits after an open
      parenthesis.  Characters are signed; the sum is a `bfd_vma`. */
  function CharSum(s: Name): int {
    if s == [] then 0
    else
      var c := if s[0] >= 128 then s[0] as int - 256 else s[0] as int;
      c + CharSum(if s[0] == 40 then s[1 + DigitRun(s[1..])..] else s[1..])
  }

  /** The sum over a header's own symbols, from `j` at nesting `nest` to its N_EINCL. */
  function HeaderSum(syms: seq<Nlist>, j: nat, nest: nat): int
    decreases |syms| - j
  {
    if j >= |syms| then 0
    else if syms[j].typ == N_EINCL then (if nest == 0 then 0 else HeaderSum(syms, j + 1, nest - 1))
    else if syms[j].typ == N_BINCL then HeaderSum(syms, j + 1, nest + 1)
    else (if nest == 0 then CharSum(syms[j].name) else 0) + HeaderSum(syms, j + 1, nest)
  }

  function HeaderTotal(syms: seq<Nlist>, i: nat): nat {
    W64(HeaderSum(syms, i + 1, 0))
  }

  /** The symbols a duplicate header drops: its own symbols and its N_EINCL, not those of nested
      headers. */
  function Marks(syms: seq<Nlist>, j: nat, nest: nat): (r: set<nat>)
    ensures forall k :: k in r ==> j <= k < |syms|
    decreases |syms| - j
  {
    if j >= |syms| then {}
    else if syms[j].typ == N_EINCL then (if nest == 0 then {j} else Marks(syms, j + 1, nest - 1))
    else if syms[j].typ == N_BINCL then Marks(syms, j + 1, nest + 1)
    else (if nest == 0 then {j} else {}) + Marks(syms, j + 1, nest)
  }

  function Marked(m: seq<int>, marks: set<nat>): (r: seq<int>)
    ensures |r| == |m| && forall k :: 0 <= k < |m| ==> r[k] == if k in marks then -1 else m[k]
  {
    seq(|m|, k requires 0 <= k < |m| => if k in marks then -1 else m[k])
  }

  type Includes = map<Name, seq<nat>>

  function Totals(inc: Includes, n: Name): seq<nat> {
    if n in inc then inc[n] else []
  }

  // ---- one symbol ------------------------------------------------------

  /** The state of `aout_link_write_symbols`.  `out` is every record of the output so far, in index
      order; `origin` says which input symbol each record of this call came from. */
  datatype State = State(smap: seq<int>, symHash: seq<Option<Name>>, hash: Hash, out: seq<Nlist>, origin: seq<nat>,
                         includes: Includes, pass: bool, skipNext: bool)

  function Copy(st: State, i: nat, s: Nlist, typ: byte, value: int, name: Name): State
    requires i < |st.smap|
  {
    st.(smap := st.smap[i := |st.out|],
        out := st.out + [Nlist(typ, s.other, s.desc, name, value % TWO32)],
        origin := st.origin + [i])
  }

  /** The hash entry of symbol `i`, if it has one. */
  function EntryOf(st: State, i: nat): Option<Entry>
    requires i < |st.symHash|
  {
    match st.symHash[i]
    case None => None
    case Some(n) => if n in st.hash then Some(st.hash[n]) else None
  }

  function SymName(st: State, i: nat, s: Nlist): Name
    requires i < |st.symHash|
  {
    var e := EntryOf(st, i);
    if e.Some? && !e.value.typ.Warning? then st.symHash[i].value else s.name
  }

  function RecordName(cfg: Config, st: State, i: nat, s: Nlist): Name
    requires i < |st.symHash|
  {
    if EntryOf(st, i).Some? && !cfg.keepMemory then st.symHash[i].value else SymName(st, i, s)
  }

  /** A symbol that is written under its own entry, or kept as a local: header folding, then the copy. */
  function Emit(cfg: Config, syms: seq<Nlist>, st: State, i: nat, w: Written, name: Name, recName: Name): State
    requires i < |syms| && |st.smap| == |syms|
  {
    if w.typ == N_BINCL then
      var total, seen := HeaderTotal(syms, i), Totals(st.includes, name);
      if total !in seen then
        Copy(st.(includes := st.includes[name := seen + [total]]), i, syms[i], N_BINCL, total, recName)
      else Copy(st.(smap := Marked(st.smap, Marks(syms, i + 1, 0))), i, syms[i], N_EXCL, total, recName)
    else Copy(st, i, syms[i], w.typ, w.value, recName)
  }

  predicate StateOk(syms: seq<Nlist>, st: State) {
    |st.smap| == |st.symHash| == |syms|
  }

  function Step(cfg: Config, syms: seq<Nlist>, st0: State, i: nat): (r: State)
    requires StateOk(syms, st0) && i < |syms|
    ensures StateOk(syms, r)
  {
    var s := syms[i];
    if st0.smap[i] == -1 then st0
    else
      var st := st0.(smap := st0.smap[i := -1]);
      if st.pass then Copy(st.(pass := false), i, s, s.typ, s.value, s.name)
      else if st.skipNext then st.(skipNext := false)
      else
        match EntryOf(st, i)
        case None => LocalStep(cfg, syms, st, i)
        case Some(e) => StepGlobal(cfg, syms, st, i, e)
  }

  /** A symbol that has no hash table entry. */
  function LocalStep(cfg: Config, syms: seq<Nlist>, st: State, i: nat): (r: State)
    requires StateOk(syms, st) && i < |syms|
    ensures StateOk(syms, r)
  {
    var s, w := syms[i], Classify(cfg, syms[i], None);
    if Stripped(cfg, s, s.name) || Discarded(cfg, w.typ, s.name) then st
    else Emit(cfg, syms, st.(pass := w.pass, skipNext := w.skipNext), i, w, s.name, s.name)
  }

  /** A symbol that has a hash table entry. */
  function StepGlobal(cfg: Config, syms: seq<Nlist>, st: State, i: nat, e: Entry): (r: State)
    requires StateOk(syms, st) && i < |syms| && EntryOf(st, i) == Some(e)
    ensures StateOk(syms, r)
  {
    var s, n := syms[i], st.symHash[i].value;
    var name, recName := SymName(st, i, s), RecordName(cfg, st, i, s);
    var root := Resolve(st.hash, n, {});
    var st := if e.typ.Indirect? || e.typ.Warning? then st.(symHash := st.symHash[i := Some(root)]) else st;
    if e.written then
      st.(skipNext := TypeBits(s.typ) == N_INDR || s.typ == N_WARNING, smap := st.smap[i := e.indx])
    else if Stripped(cfg, s, name) then st.(hash := st.hash[n := e.(written := true)])
    else
      var w := Classify(cfg, s, Some(ResolvedType(st.hash, n)));
      var st := st.(hash := st.hash[n := e.(written := true, indx := |st.out|)], pass := w.pass,
        skipNext := w.skipNext);
      Emit(cfg, syms, st, i, w, name, recName)
  }

  /** After the first `k` symbols. */
  function RunTo(cfg: Config, syms: seq<Nlist>, st: State, k: nat): (r: State)
    requires StateOk(syms, st) && k <= |syms|
    ensures StateOk(syms, r)
  {
    if k == 0 then st else Step(cfg, syms, RunTo(cfg, syms, st, k - 1), k - 1)
  }

  // ---- the call --------------------------------------------------------

  predicate WritesFile(cfg: Config) {
    && cfg.strip != StripAll && (cfg.strip != StripSome || cfg.filename in cfg.keep) && cfg.discard != DiscardAll
  }

  function FileSymbol(cfg: Config): Nlist {
    Nlist(N_TEXT, 0, 0, cfg.filename, Place(cfg.text) % TWO32)
  }

  /** The state at the start of the symbol loop. */
  function Start(cfg: Config, n: nat, symHash: seq<Option<Name>>, hash: Hash, out: seq<Nlist>,
                 includes: Includes): (st: State)
    ensures |st.smap| == n
  {
    State(seq(n, _ => 0), symHash, hash, out + (if WritesFile(cfg) then [FileSymbol(cfg)] else []), [], includes,
      false, false)
  }

  /** The state after `aout_link_write_symbols`. */
  function WriteSymbols(cfg: Config, syms: seq<Nlist>, symHash: seq<Option<Name>>, hash: Hash, out: seq<Nlist>,
                        includes: Includes): State
    requires |symHash| == |syms|
  {
    RunTo(cfg, syms, Start(cfg, |syms|, symHash, hash, out, includes), |syms|)
  }

  // ---- symbols written on their own ------------------------------------

  const N_EXT := 1

  /** The type of a symbol that comes from no input (`aout_link_write_other_symbol`); None for one that
      is not written. */
  function OtherRecord(n: Name, typ: HashType): Option<Nlist> {
    match typ
    case Undefd => Some(Nlist(N_EXT, 0, 0, n, 0))
    case UndefdWeak => Some(Nlist(N_WEAKU, 0, 0, n, 0))
    case Def(value, sec, weak) => Some(Nlist(OtherType(sec, weak), 0, 0, n, (value + Place(sec)) % TWO32))
    case Common(size) => Some(Nlist(N_EXT, 0, 0, n, size % TWO32))
    case _ => None
  }

  /** The section's type with N_EXT or-ed in. */
  function OtherType(sec: Section, weak: bool): byte {
    var t := match sec.out
      case Text => if weak then N_WEAKT else N_TEXT
      case Data => if weak then N_WEAKD else N_DATA
      case Bss => if weak then N_WEAKB else N_BSS
      case Abs => if weak then N_WEAKA else N_ABS;
    if t % 2 == 0 then t + N_EXT else t
  }

  /** `aout_link_write_other_symbol` on entry `n`: the new hash table and output. */
  function WriteOther(strip: Strip, keep: set<Name>, hash: Hash, out: seq<Nlist>, n: Name): (Hash, seq<Nlist>)
    requires n in hash
  {
    var t := if hash[n].typ.Warning? then hash[n].typ.link else n;
    if t !in hash || (t != n && hash[t].typ.New?) || hash[t].written then (hash, out)
    else
      var e := hash[t].(written := true);
      if e.indx != -2 && (strip == StripAll || (strip == StripSome && t !in keep)) then (hash[t := e], out)
      else
        match OtherRecord(t, e.typ)
        case None => (hash[t := e], out)
        case Some(r) => (hash[t := e.(indx := |out|)], out + [r])
  }

  /** The step the reloc routines take for a symbol that was not written but is needed after all. */
  function ForceIndex(strip: Strip, keep: set<Name>, hash: Hash, out: seq<Nlist>, n: Name): (Hash, seq<Nlist>)
    requires n in hash
  {
    if hash[n].indx >= 0 then (hash, out)
    else WriteOther(strip, keep, hash[n := hash[n].(indx := -2, written := false)], out, n)
  }

  /** The section a symbol type stands for, read the way the linker reads it. */
  function KindOfType(t: byte): Option<Kind> {
    var bits := TypeBits(t);
    if bits == N_TEXT || t == N_WEAKT then Some(Text)
    else if bits == N_DATA || t == N_WEAKD then Some(Data)
    else if bits == N_BSS || t == N_WEAKB then Some(Bss)
    else if bits == N_ABS || t == N_WEAKA then Some(Abs)
    else None
  }
}
