// What the dynamic loader leaves in a GOT slot, given the relocations the linker wrote for it.
module ArcGotLoad {
  import opened Bytes
  import opened ArcGot

  /** What the loader knows when it applies relocations: by how much the object was moved, which module it is, and
      for each dynamic symbol its address, the module that defines it and its offset in that module's TLS block;
      and where each module's block is, seen from the thread pointer. */
  datatype World = World(base: int, own: int, address: int -> int, moduleOf: int -> int, offsetIn: int -> int,
                         block: int -> int)

  /** Symbol 0 is none: the module is the object itself, and the offset is all in the word. */
  function Module(w: World, sym: int): int { if sym == 0 then w.own else w.moduleOf(sym) }
  function Offset(w: World, sym: int): int { if sym == 0 then 0 else w.offsetIn(sym) }

  /** The words of the GOT, by their offsets. */
  type Got = nat -> int

  /** The meaning of each relocation type. */
  function Value(w: World, r: Rela, word: int): int {
    match r.typ
    case Relative => word + w.base
    case GlobDat => w.address(r.sym)
    case DtpMod => Module(w, r.sym)
    case DtpOff => word + Offset(w, r.sym)
    case TpOff => w.block(Module(w, r.sym)) + Offset(w, r.sym) + r.addend
  }

  function Applied(w: World, r: Rela, got: Got): Got {
    (p: nat) => if p == r.offset then Value(w, r, got(p)) else got(p)
  }

  function Loaded(w: World, rs: seq<Rela>, got: Got): Got {
    if rs == [] then got else Applied(w, rs[|rs| - 1], Loaded(w, rs[..|rs| - 1], got))
  }

  lemma LoadedOne(w: World, r: Rela, got: Got)
    ensures Loaded(w, [r], got)(r.offset) == Value(w, r, got(r.offset))
    ensures forall p: nat :: p != r.offset ==> Loaded(w, [r], got)(p) == got(p)
    ensures forall p: nat :: Loaded(w, [], got)(p) == got(p)
  {
    assert [r][..0] == [];
  }

  lemma LoadedTwo(w: World, r: Rela, s: Rela, got: Got)
    requires r.offset != s.offset
    ensures Loaded(w, [r, s], got)(r.offset) == Value(w, r, got(r.offset))
    ensures Loaded(w, [r, s], got)(s.offset) == Value(w, s, got(s.offset))
    ensures forall p: nat :: p != r.offset && p != s.offset ==> Loaded(w, [r, s], got)(p) == got(p)
  {
    assert [r, s][..1] == [r];
    LoadedOne(w, r, got);
  }

  /** The dynamic symbol the loader looks up for an entry; 0 for a symbol it does not know. */
  function DynSym(h: Option<Hash>): int {
    if h.Some? && h.value.dynindx != -1 then h.value.dynindx else 0
  }

  /** The symbol of a normal entry is bound to its definition in this object when the object is linked. */
  predicate Bound(i: Info, h: Option<Hash>) {
    i.pic && h.Some? && (i.symbolic || h.value.dynindx == -1) && h.value.defRegular
  }

  /** Whether an entry needs the loader. */
  predicate NeedsLoader(e: Entry, i: Info, h: Option<Hash>) {
    i.dynamicSections && (e.typ == GotNormal ==> Bound(i, h) || DynSym(h) != 0)
  }

  /** What the loader leaves in an entry's slot.
      A general dynamic entry's first word is the symbol's module, the second its offset there.
      An initial exec entry is the symbol's offset from the thread pointer, counted from what the GOT held.
      A local exec entry is the symbol's offset in its module.
      A normal entry is what the GOT held, moved with the object, for a symbol bound in it, the address of the
      symbol for another the loader knows, and else what the GOT held. */
  ghost predicate SlotRight(e: Entry, i: Info, h: Option<Hash>, w: World, got: Got, after: Got) {
    var sym := DynSym(h);
    if !i.dynamicSections then forall p: nat :: after(p) == got(p)
    else
      match e.typ
      case GotTlsGd =>
        after(e.offset) == Module(w, sym) && after(e.offset + 4) == got(e.offset + 4) + Offset(w, sym)
      case GotTlsIe => after(e.offset) == w.block(Module(w, sym)) + Offset(w, sym) + got(e.offset)
      case GotTlsLe => after(e.offset) == got(e.offset) + Offset(w, sym)
      case GotNormal =>
        after(e.offset) == (if Bound(i, h) then got(e.offset) + w.base
                            else if sym != 0 then w.address(sym)
                            else got(e.offset))
      case GotUnknown => true
  }

  /** Emission writes relocations exactly for the entries that need the loader, and those that put into every word
      of the slot what it stands for and leave all other words alone.  The index of a dynamic symbol is never 0. */
  lemma EmitLoads(e: Entry, i: Info, h: Option<Hash>, w: World, got: Got)
    requires Proper(e) && !e.created && got(e.offset) >= 0 && (h.Some? ==> h.value.dynindx != 0)
    ensures var rs := Emit(e, i, h, got(e.offset)).1;
      && (rs != [] <==> NeedsLoader(e, i, h))
      && SlotRight(e, i, h, w, got, Loaded(w, rs, got))
      && forall p: nat :: p < e.offset || e.offset + Width(e) <= p ==> Loaded(w, rs, got)(p) == got(p)
  {
    hide Loaded;
    var rs := Emit(e, i, h, got(e.offset)).1;
    LoadedOne(w, Rela(0, 0, Relative, 0), got);
    if |rs| == 1 {
      assert rs == [rs[0]];
      LoadedOne(w, rs[0], got);
    } else if |rs| == 2 {
      assert rs == [rs[0], rs[1]];
      LoadedTwo(w, rs[0], rs[1], got);
    }
  }

  /** What a request reserves for its entry is used up by emission if and only if the entry needs the loader or had
      nothing reserved: two relocations for general dynamic, one for the other TLS types, and for a normal entry
      one unless it is a local symbol's in an object that is not position independent. */
  lemma ReservedUsed(l: seq<Entry>, t: Table, typ: GotType, i: Info, h: Option<Hash>, strtabOk: bool, g: Option<Hash>,
                     word: nat)
    requires Find(l, typ).None? && Fill(l, t, typ, i.pic, h, strtabOk).ok
    requires g.Some? == h.Some? && (g.Some? ==> g.value.dynindx != 0)
    ensures var f := Fill(l, t, typ, i.pic, h, strtabOk);
      |f.list| == |l| + 1
      && var reserved, e := f.table.rel - t.rel, f.list[|l|];
      var used := |Emit(e, i, g, word).1|;
      && reserved == (match typ case GotTlsGd => 2 case GotNormal => (if i.pic || h.Some? then 1 else 0) case _ => 1)
      && used <= reserved && (used == 0 || used == reserved)
      && (used == reserved <==> NeedsLoader(e, i, g) || (typ == GotNormal && !i.pic && h.None?))
  {
    FillShape(l, t, typ, i.pic, h, strtabOk);
  }

  // ---- the address of the symbol ---------------------------------------

  /** Where a normal entry's symbol is at run time, and what the GOT holds for it. */
  predicate Placed(e: Entry, i: Info, h: Option<Hash>, w: World, got: Got, local: bool, linked: int, address: int) {
    // A symbol bound in this object is where it was linked, moved with the object, and the GOT holds its linked
    // address; the loader looks up any other.
    && (local ==> address == linked + w.base && got(e.offset) == linked)
    && (local && DynSym(h) != 0 ==> w.address(DynSym(h)) == address)
    && (!local ==> DynSym(h) != 0 && !Bound(i, h) && i.dynamicSections && w.address(DynSym(h)) == address)
    // An object that is not position independent stays where it was linked.
    && (!i.pic ==> w.base == 0)
  }

  /** A normal entry ends up with its symbol's address if and only if the object was not moved, or the loader is
      there to see to it.  It is not, in a position-independent object, for local symbols and for those that
      are not dynamic and not defined by a regular object. */
  lemma NormalIsAddress(e: Entry, i: Info, h: Option<Hash>, w: World, got: Got, local: bool, linked: int, address: int)
    requires e.typ == GotNormal && Proper(e) && !e.created && got(e.offset) >= 0
    requires (h.Some? ==> h.value.dynindx != 0) && Placed(e, i, h, w, got, local, linked, address)
    ensures Loaded(w, Emit(e, i, h, got(e.offset)).1, got)(e.offset) == address
      <==> w.base == 0 || NeedsLoader(e, i, h)
  {
    hide Loaded, Emit;
    EmitLoads(e, i, h, w, got);
  }
}
