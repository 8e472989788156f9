// GOT slots of the ARC linker: who gets which words, and the dynamic relocations for them.
module ArcGot {
  import opened Bytes

  datatype GotType = GotUnknown | GotNormal | GotTlsGd | GotTlsIe | GotTlsLe
  datatype Words = TlsNone | TlsMod | TlsOff | TlsModAndOff

  /** `struct got_entry`, but for its `next`. */
  datatype Entry = Entry(typ: GotType, offset: nat, processed: bool, created: bool, existing: Words)

  function Width(e: Entry): (w: nat)
    ensures w == 4 || w == 8
  {
    if e.existing == TlsModAndOff then 8 else 4
  }

  /** What recording a symbol as dynamic depends on and changes (`bfd_elf_link_record_dynamic_symbol`): a
      plug-in's symbol is left alone, one of hidden visibility is forced local and may stop there. */
  datatype Hash = Hash(dynindx: int, forcedLocal: bool, plugin: bool, hides: bool, staysLocal: bool, defRegular: bool)

  /** `sgot->size`, `srelgot->size` in relocations, and the count of dynamic symbols. */
  datatype Table = Table(got: nat, rel: nat, dynsyms: nat)

  function RecordDynamic(h: Hash, t: Table, strtabOk: bool): (Hash, Table, bool) {
    if h.dynindx != -1 || h.plugin then (h, t, true)
    else
      var h' := if h.hides then h.(forcedLocal := true) else h;
      if h.hides && h.staysLocal then (h', t, true)
      else (h'.(dynindx := t.dynsyms), t.(dynsyms := t.dynsyms + 1), strtabOk)
  }

  /** One word of the GOT, and a relocation for it if `reserve` holds. */
  datatype Added = Added(table: Table, h: Option<Hash>, ok: bool)

  function AddRef(t: Table, reserve: bool, h: Option<Hash>, strtabOk: bool): Added {
    var t1 := if reserve then t.(rel := t.rel + 1) else t;
    if h.Some? && h.value.dynindx == -1 && !h.value.forcedLocal then
      var (h', t2, ok) := RecordDynamic(h.value, t1, strtabOk);
      Added(if ok then t2.(got := t2.got + 4) else t2, Some(h'), ok)
    else Added(t1.(got := t1.got + 4), h, true)
  }

  /** The first entry of a type. */
  function Find(l: seq<Entry>, typ: GotType): (r: Option<nat>)
    ensures r.Some? ==> r.value < |l| && l[r.value].typ == typ && forall j :: 0 <= j < r.value ==> l[j].typ != typ
    ensures r.None? ==> forall j :: 0 <= j < |l| ==> l[j].typ != typ
  {
    if l == [] then None
    else if l[0].typ == typ then Some(0)
    else
      var r := Find(l[1..], typ);
      if r.Some? then Some(r.value + 1) else None
  }

  datatype Filled = Filled(list: seq<Entry>, table: Table, h: Option<Hash>, ok: bool)

  function NewEntry(typ: GotType, offset: nat, existing: Words): Entry {
    Entry(typ, offset, false, false, existing)
  }

  /** `arc_fill_got_info_for_reloc`. */
  function Fill(l: seq<Entry>, t: Table, typ: GotType, pic: bool, h: Option<Hash>, strtabOk: bool): Filled {
    if Find(l, typ).Some? then Filled(l, t, h, true)
    else
      match typ
      case GotUnknown => Filled(l, t, h, false)
      case GotNormal =>
        var a := AddRef(t, pic || h.Some?, h, strtabOk);
        Filled(if a.ok then l + [NewEntry(typ, t.got, TlsNone)] else l, a.table, a.h, a.ok)
      case GotTlsGd =>
        var a := AddRef(t, true, h, strtabOk);
        if !a.ok then Filled(l, a.table, a.h, false)
        else
          var b := AddRef(a.table, true, a.h, strtabOk);
          Filled(if b.ok then l + [NewEntry(typ, t.got, TlsModAndOff)] else l, b.table, b.h, b.ok)
      case _ =>
        var a := AddRef(t, true, h, strtabOk);
        Filled(if a.ok then l + [NewEntry(typ, t.got, TlsOff)] else l, a.table, a.h, a.ok)
  }

  /** How many relocations are reserved for an entry of a symbol that is, or is not, in the hash table. */
  function Reserve(e: Entry, pic: bool, global: bool): nat {
    if e.existing == TlsModAndOff then 2 else if e.existing == TlsNone then (if pic || global then 1 else 0) else 1
  }

  /** The kinds of entry there are. */
  predicate Proper(e: Entry) {
    match e.typ
    case GotUnknown => false
    case GotNormal => e.existing == TlsNone
    case GotTlsGd => e.existing == TlsModAndOff
    case _ => e.existing == TlsOff
  }

  /** What one request does: nothing for a type the symbol has, and otherwise, when it succeeds, one new
      entry at the old end of the GOT that takes exactly what the GOT grows by and has what it needs
      reserved.  A request that fails does not grow the GOT. */
  lemma FillShape(l: seq<Entry>, t: Table, typ: GotType, pic: bool, h: Option<Hash>, strtabOk: bool)
    ensures var f := Fill(l, t, typ, pic, h, strtabOk);
      && f.h.Some? == h.Some?
      && (Find(l, typ).Some? ==> f == Filled(l, t, h, true))
      && (!f.ok ==> f.list == l && f.table.got == t.got && f.table.rel >= t.rel)
      && (f.ok && Find(l, typ).None? ==>
            |f.list| == |l| + 1 && f.list[..|l|] == l
            && var e := f.list[|l|];
               && e.typ == typ && e.offset == t.got && !e.created && Proper(e)
               && f.table.got == t.got + Width(e) && f.table.rel == t.rel + Reserve(e, pic, h.Some?))
  {
  }

  /** A symbol is made dynamic under the next index, and counted, only if it was not dynamic, not forced local and
      no plug-in's; only hiding forces it local; and nothing else about it changes. */
  predicate Recorded(h: Hash, dynsyms: nat, g: Hash, dynsyms': nat) {
    && g.plugin == h.plugin && g.hides == h.hides && g.staysLocal == h.staysLocal && g.defRegular == h.defRegular
    && (if g.dynindx == h.dynindx then dynsyms' == dynsyms
        else h.dynindx == -1 && !h.forcedLocal && !h.plugin && g.dynindx == dynsyms && dynsyms' == dynsyms + 1)
    && (h.forcedLocal ==> g.forcedLocal)
    && (g.forcedLocal && !h.forcedLocal ==> h.dynindx == -1 && h.hides && (h.staysLocal ==> g.dynindx == -1))
  }

  /** Dynamic, or one of those that are not to be. */
  predicate Settled(h: Hash) { h.dynindx != -1 || h.forcedLocal || h.plugin }

  /** What becomes of a symbol that is asked for: nothing if it is settled; else it is forced local exactly if it is
      hidden, and dynamic from now on unless hiding keeps it local. */
  predicate Asked(h: Hash, dynsyms: nat, g: Hash) {
    if Settled(h) then g == h
    else g.forcedLocal == h.hides && g.dynindx == if h.hides && h.staysLocal then -1 else dynsyms
  }

  lemma RefRecords(t: Table, reserve: bool, h: Hash, strtabOk: bool)
    ensures var a := AddRef(t, reserve, Some(h), strtabOk);
      && a.h.Some? && Recorded(h, t.dynsyms, a.h.value, a.table.dynsyms) && Settled(a.h.value)
      && Asked(h, t.dynsyms, a.h.value)
      && (Settled(h) ==> a.h == Some(h) && a.table.dynsyms == t.dynsyms && a.ok)
    ensures AddRef(t, reserve, None, strtabOk).table.dynsyms == t.dynsyms
  {
  }

  /** What a request for a type it does not have does to the symbol; any other leaves it alone. */
  lemma FillRecords(l: seq<Entry>, t: Table, typ: GotType, pic: bool, h: Hash, strtabOk: bool)
    ensures var f := Fill(l, t, typ, pic, Some(h), strtabOk);
      && f.h.Some? && Recorded(h, t.dynsyms, f.h.value, f.table.dynsyms)
      && (f.ok && Find(l, typ).None? ==> Settled(f.h.value))
      && (if Find(l, typ).None? && typ != GotUnknown then Asked(h, t.dynsyms, f.h.value) else f.h.value == h)
    ensures Fill(l, t, typ, pic, None, strtabOk).table.dynsyms == t.dynsyms
  {
    hide AddRef, Find;
    RefRecords(t, true, h, strtabOk);
    RefRecords(t, pic, h, strtabOk);
    var a := AddRef(t, true, Some(h), strtabOk);
    RefRecords(a.table, true, a.h.value, strtabOk);
    RefRecords(AddRef(t, true, None, strtabOk).table, true, h, strtabOk);
    NoSymbol(t, true, strtabOk);
  }

  lemma NoSymbol(t: Table, reserve: bool, strtabOk: bool)
    ensures AddRef(t, reserve, None, strtabOk).h.None? && AddRef(t, reserve, None, strtabOk).ok
  {
  }

  // ---- dynamic relocations ---------------------------------------------

  datatype RelaType = Relative | GlobDat | DtpMod | TpOff | DtpOff

  datatype Rela = Rela(offset: nat, sym: int, typ: RelaType, addend: nat)

  /** What emission depends on: whether dynamic sections exist, position independence, `-Bsymbolic`. */
  datatype Info = Info(dynamicSections: bool, pic: bool, symbolic: bool)

  function AddRela(i: Info, r: Rela): seq<Rela> {
    if i.dynamicSections then [r] else []
  }

  /** `create_got_dynrelocs_for_single_entry`; `word` is what the GOT holds at the entry. */
  function Emit(e: Entry, i: Info, h: Option<Hash>, word: nat): (Entry, seq<Rela>) {
    if e.created then (e, [])
    else if e.typ == GotNormal then
      (e.(created := true),
       if i.pic && h.Some? && (i.symbolic || h.value.dynindx == -1) && h.value.defRegular then
         AddRela(i, Rela(e.offset, 0, Relative, 0))
       else if h.Some? && h.value.dynindx != -1 then AddRela(i, Rela(e.offset, h.value.dynindx, GlobDat, 0))
       else [])
    else if e.existing == TlsNone then (e, [])
    else
      var dynindx := if h.None? || h.value.dynindx == -1 then 0 else h.value.dynindx;
      var mod := if e.existing == TlsModAndOff || e.existing == TlsMod
        then AddRela(i, Rela(e.offset, dynindx, DtpMod, 0)) else [];
      var off := if e.existing == TlsModAndOff || e.existing == TlsOff then
                   AddRela(i, Rela(e.offset + (if e.existing == TlsModAndOff then 4 else 0), dynindx,
                                   if e.typ == GotTlsIe then TpOff else DtpOff, if e.typ == GotTlsIe then word else 0))
                 else [];
      (e.(created := true), mod + off)
  }

  /** The word a relocation applies to lies in the entry. */
  predicate InSlot(e: Entry, r: Rela) {
    e.offset <= r.offset && r.offset + 4 <= e.offset + Width(e)
  }

  /** An entry's relocations are no more than were reserved for it, apply to its own words, each to another
      one, and come only once. */
  lemma EmitShape(e: Entry, i: Info, h: Option<Hash>, word: nat)
    requires Proper(e)
    ensures var (e', out) := Emit(e, i, h, word);
      && e' == e.(created := true) && (e.created ==> out == [])
      && |out| <= Reserve(e, i.pic, h.Some?)
      && (forall j :: 0 <= j < |out| ==> InSlot(e, out[j]))
      && (forall j, k :: 0 <= j < k < |out| ==> out[j].offset != out[k].offset)
  {
  }
}
