// Relocating an a.out section: `ld -r` followed by a final link, against a final link alone.
module AoutReloc {
  import opened Bytes

  /** `GET_SWORD` of a word stored by `PUT_WORD`. */
  function Sword(x: int): int {
    var w := x % TWO32;
    if w >= TWO32 / 2 then w - TWO32 else w
  }

  // ---- a link step -----------------------------------------------------

  datatype Kind = Text | Data | Bss | Abs

  /** An input section: its own address, and where the link puts it. */
  datatype Section = Section(vma: int, outVma: int, outOffset: int, out: Kind)

  /** What the link knows about a symbol a reloc names (`sym_hashes[r_index]`).  No reloc may name an
      `Unattached` one. */
  datatype Sym = Defined(value: int, sec: Section) | UndefWeak | Undefined | Unattached

  /** A raw symbol of the input file; base-relative relocs look there, and need one in a section. */
  datatype Record = Record(kind: Kind, value: int) | NoSection

  /** One link step over one input section.  `newIndex` is the output index a reloc against symbol i
      ends up with: its `symbol_map` entry, or the index of the symbol written for its sake. */
  datatype Link = Link(text: Section, data: Section, bss: Section, input: Kind,
                       syms: seq<Sym>, records: seq<Record>, newIndex: seq<nat>)

  const ABS_SECTION := Section(0, 0, 0, Abs)

  function SecOf(l: Link, k: Kind): Section {
    match k
    case Text => l.text
    case Data => l.data
    case Bss => l.bss
    case Abs => ABS_SECTION
  }

  function Input(l: Link): Section { SecOf(l, l.input) }

  /** The final address of a section's start. */
  function Place(s: Section): int { s.outVma + s.outOffset }

  /** How far a section moves. */
  function Move(s: Section): int { Place(s) - s.vma }

  /** The value of a symbol; 0 when it is not defined. */
  function Address(s: Sym): int {
    match s
    case Defined(v, sec) => v + Place(sec)
    case _ => 0
  }

  /** `aout_reloc_index_to_section`, on `indx & N_TYPE`; other types abort. */
  predicate SectionIndex(index: nat) {
    var t := index / 2 % 16;
    t <= 4
  }

  function KindOf(index: nat): Kind
    requires SectionIndex(index)
  {
    match index / 2 % 16
    case 2 => Text
    case 3 => Data
    case 4 => Bss
    case _ => Abs
  }

  /** N_TEXT, N_DATA, N_BSS and N_ABS. */
  function IndexOf(k: Kind): (i: nat)
    ensures SectionIndex(i) && KindOf(i) == k
  {
    match k
    case Text => 4
    case Data => 6
    case Bss => 8
    case Abs => 2
  }

  // ---- what a reloc adds -----------------------------------------------

  /** A reloc names a symbol (`External`), a section, or, for base-relative SPARC relocs, a symbol by
      its raw record whatever `r_extern` says. */
  datatype Target = External(index: nat) | InSection(index: nat) | BaseRecord(index: nat)

  predicate TargetOk(l: Link, t: Target) {
    match t
    case External(i) => i < |l.syms| == |l.newIndex| && !l.syms[i].Unattached?
    case InSection(i) => SectionIndex(i)
    case BaseRecord(i) => i < |l.records| && |l.records| == |l.newIndex| && l.records[i].Record?
  }

  /** The relocatable branch: what is added to the word or addend in place.  `pc` says that the
      reloc is PC-relative and its addend includes the location. */
  function PartialShift(l: Link, t: Target, pc: bool): int
    requires TargetOk(l, t)
  {
    (match t
     case External(i) => if l.syms[i].Defined? then Address(l.syms[i]) else 0
     case InSection(i) => Move(SecOf(l, KindOf(i)))
     case BaseRecord(_) => 0)
    - if pc then Move(Input(l)) else 0
  }

  /** The relocatable branch: what the reloc is against afterwards. */
  function PartialTarget(l: Link, t: Target): Target
    requires TargetOk(l, t)
  {
    match t
    case External(i) =>
      if l.syms[i].Defined? then InSection(IndexOf(l.syms[i].sec.out)) else External(l.newIndex[i])
    case InSection(i) => t
    case BaseRecord(i) => BaseRecord(l.newIndex[i])
  }

  /** The final branch and `_bfd_final_link_relocate`: what is added to the word in place, or to the
      addend. */
  function FinalShift(l: Link, t: Target, pcrel: bool, pcrelOffset: bool, addr: nat): int
    requires TargetOk(l, t)
  {
    (match t
     case External(i) => Address(l.syms[i])
     case InSection(i) => Move(SecOf(l, KindOf(i))) + if pcrel then Input(l).vma else 0
     case BaseRecord(i) => Place(SecOf(l, l.records[i].kind)) + l.records[i].value - SecOf(l, l.records[i].kind).vma)
    - (if pcrel then Place(Input(l)) + (if pcrelOffset then addr else 0) else 0)
  }

  // ---- linking twice ---------------------------------------------------

  /** A section of kind `k` keeps its kind in the partial link, and ends up where the direct link puts
      it. */
  predicate SectionChains(first: Link, second: Link, direct: Link, k: Kind) {
    var s1, s2, sd := SecOf(first, k), SecOf(second, k), SecOf(direct, k);
    s1.out == k && s2.vma == s1.outVma && sd.vma == s1.vma && Place(sd) == Place(s2) + s1.outOffset
  }

  /** A symbol defined by the time of the partial link moves with its section afterwards; another is
      the same symbol under its new index. */
  predicate SymChains(first: Link, second: Link, direct: Link, i: nat)
    requires i < |first.syms| && |first.newIndex| == |first.syms|
  {
    && i < |direct.syms|
    && (!first.syms[i].Unattached? ==> !direct.syms[i].Unattached?)
    && match first.syms[i]
       case Unattached => true
       case Defined(_, sec) =>
         Address(direct.syms[i]) == Address(first.syms[i]) + Move(SecOf(second, sec.out))
       case _ =>
         var j := first.newIndex[i];
         j < |second.syms| && !second.syms[j].Unattached? && Address(second.syms[j]) == Address(direct.syms[i])
  }

  /** A raw symbol is written with its address in the partial output. */
  predicate RecordChains(first: Link, second: Link, direct: Link, i: nat)
    requires i < |first.records| && |first.newIndex| == |first.records|
  {
    var r, j := first.records[i], first.newIndex[i];
    && i < |direct.records|
    && (r.Record? ==>
          && direct.records[i] == r && j < |second.records|
          && second.records[j] == Record(r.kind, r.value + Move(SecOf(first, r.kind))))
  }

  /** `second` links the output of `first`; `direct` is the link that skips the partial output. */
  ghost predicate Chains(first: Link, second: Link, direct: Link) {
    && first.input == second.input == direct.input && first.input != Abs
    && (forall k: Kind :: k != Abs ==> SectionChains(first, second, direct, k))
    && |first.newIndex| == |first.syms| == |first.records| && |second.newIndex| == |second.syms| == |second.records|
    && |direct.newIndex| == |direct.syms| == |direct.records|
    && (forall i :: 0 <= i < |first.syms| ==> SymChains(first, second, direct, i))
    && (forall i :: 0 <= i < |first.records| ==> RecordChains(first, second, direct, i))
  }

  /** How much linking twice differs from linking once.  `pcrelOffset` relocs do not have the location
      in their addends, so the partial link leaves those alone. */
  function Drift(first: Link, t: Target, pcrel: bool, pcrelOffset: bool): int
    requires TargetOk(first, t)
  {
    var vma, moved := Input(first).vma, Input(first).outVma;
    if !pcrel then 0
    else
      match t
      case InSection(_) => if pcrelOffset then moved - vma else 0
      case External(i) =>
        if first.syms[i].Defined? then (if pcrelOffset then moved else vma)
        else (if pcrelOffset then 0 else vma - moved)
      case BaseRecord(_) => if pcrelOffset then 0 else vma - moved
  }

  /** What the chain says of the section a reloc is in, of a section it names, */
  lemma KindChains(first: Link, second: Link, direct: Link, k: Kind)
    requires Chains(first, second, direct)
    ensures first.input == second.input == direct.input && SectionChains(first, second, direct, first.input)
    ensures Move(SecOf(first, k)) + Move(SecOf(second, k)) == Move(SecOf(direct, k))
    ensures SecOf(second, k).vma == SecOf(first, k).outVma && SecOf(direct, k).vma == SecOf(first, k).vma
  {
    assert SectionChains(first, second, direct, first.input);
    assert k != Abs ==> SectionChains(first, second, direct, k);
  }

  /** of a symbol, */
  lemma SymbolChains(first: Link, second: Link, direct: Link, i: nat)
    requires Chains(first, second, direct) && i < |first.syms|
    ensures SymChains(first, second, direct, i) && |direct.newIndex| == |direct.syms|
      && |second.newIndex| == |second.syms|
  {
  }

  /** and of a raw symbol. */
  lemma RawChains(first: Link, second: Link, direct: Link, i: nat)
    requires Chains(first, second, direct) && i < |first.records|
    ensures RecordChains(first, second, direct, i)
    ensures |direct.newIndex| == |direct.records| && |second.newIndex| == |second.records|
  {
  }

  /** The relocated value, linking twice against linking once, for every kind of reloc. */
  lemma LinkTwice(first: Link, second: Link, direct: Link, t: Target, pcrel: bool, pcrelOffset: bool, addr: nat,
                  addr': nat)
    requires Chains(first, second, direct) && TargetOk(first, t)
    requires addr' == addr + Input(first).outOffset
    ensures TargetOk(direct, t) && TargetOk(second, PartialTarget(first, t))
    ensures PartialShift(first, t, pcrel && !pcrelOffset)
            + FinalShift(second, PartialTarget(first, t), pcrel, pcrelOffset, addr')
         == FinalShift(direct, t, pcrel, pcrelOffset, addr) + Drift(first, t, pcrel, pcrelOffset)
  {
    hide Chains, KindOf, IndexOf, SectionIndex;
    match t
    case External(i) =>
      KindChains(first, second, direct, Abs);
      SymbolChains(first, second, direct, i);
    case InSection(i) =>
      KindChains(first, second, direct, KindOf(i));
    case BaseRecord(i) =>
      KindChains(first, second, direct, first.records[i].kind);
      RawChains(first, second, direct, i);
  }
}
