// The ARC linker's GOT lists, sizes and relocations as they are updated in place.
module ArcGotList {
  import opened Bytes
  import opened ArcGot

  class GotEntry {
    var next: GotEntry?
    const typ: GotType
    const offset: nat
    var processed: bool
    var created: bool
    const existing: Words

    constructor (typ: GotType, offset: nat, existing: Words)
      ensures next == null && Value() == NewEntry(typ, offset, existing)
    {
      this.typ, this.offset, this.existing := typ, offset, existing;
      next, processed, created := null, false, false;
    }

    function Value(): Entry
      reads this
    {
      Entry(typ, offset, processed, created, existing)
    }
  }

  function NodeAt(l: seq<GotEntry>, i: nat): GotEntry? {
    if i < |l| then l[i] else null
  }

  /** A symbol's hash table entry, as far as this needs it. */
  class HashEntry {
    var hash: Hash

    constructor (hash: Hash)
      ensures this.hash == hash
    {
      this.hash := hash;
    }
  }

  ghost function HashOf(h: HashEntry?): Option<Hash>
    reads h
  {
    if h == null then None else Some(h.hash)
  }

  /** The head of a symbol's list; `nodes` is the list. */
  class GotList {
    var head: GotEntry?
    ghost var nodes: seq<GotEntry>

    constructor ()
      ensures Valid() && nodes == []
    {
      head, nodes := null, [];
    }

    ghost predicate Valid()
      reads this, nodes
    {
      && head == NodeAt(nodes, 0)
      && (forall i {:trigger nodes[i].next} :: 0 <= i < |nodes| ==> nodes[i].next == NodeAt(nodes, i + 1))
      && (forall i, j :: 0 <= i < j < |nodes| ==> nodes[i] != nodes[j])
    }

    ghost function Entries(): (r: seq<Entry>)
      reads this, nodes
      ensures |r| == |nodes|
    {
      seq(|nodes|, i requires 0 <= i < |nodes| reads this, nodes => nodes[i].Value())
    }

    /** `got_entry_for_type`. */
    method ForType(typ: GotType) returns (r: GotEntry?)
      requires Valid()
      ensures r == if Find(Entries(), typ).Some? then nodes[Find(Entries(), typ).value] else null
    {
      ghost var i := 0;
      r := head;
      while r != null
        invariant i <= |nodes| && r == NodeAt(nodes, i)
        invariant forall j :: 0 <= j < i ==> Entries()[j].typ != typ
        decreases |nodes| - i
      {
        assert Entries()[i].typ == nodes[i].typ && nodes[i].next == NodeAt(nodes, i + 1);
        if r.typ == typ {
          return;
        }
        r := r.next;
        i := i + 1;
      }
    }

    /** `new_got_entry_to_list`, which does nothing for a type the list has. */
    method NewEntryAtEnd(typ: GotType, offset: nat, existing: Words)
      requires Valid()
      modifies this, nodes
      ensures Valid()
      ensures Entries() == old(Entries())
        + if Find(old(Entries()), typ).None? then [NewEntry(typ, offset, existing)] else []
    {
      ghost var was, values := nodes, Entries();
      ghost var i := 0;
      var last: GotEntry?, p := null, head;
      while p != null
        invariant i <= |nodes| && p == NodeAt(nodes, i) && last == (if i == 0 then null else nodes[i - 1])
        invariant forall j :: 0 <= j < i ==> values[j].typ != typ
        decreases |nodes| - i
      {
        assert Entries()[i].typ == nodes[i].typ && nodes[i].next == NodeAt(nodes, i + 1);
        if p.typ == typ {
          return;
        }
        last, p := p, p.next;
        i := i + 1;
      }
      var entry := new GotEntry(typ, offset, existing);
      if last == null {
        head := entry;
      } else {
        last.next := entry;
      }
      nodes := was + [entry];
      assert forall j :: 0 <= j < |was| ==> nodes[j].Value() == values[j];
    }
  }

  /** The sizes and relocations in the linker's hash table. */
  class Htab {
    var table: Table
    var relocs: seq<Rela>

    constructor (table: Table)
      ensures this.table == table && relocs == []
    {
      this.table, relocs := table, [];
    }

    /** `ADD_SYMBOL_REF_SEC_AND_RELOC`. */
    method AddSymbolRef(reserve: bool, h: HashEntry?, strtabOk: bool) returns (offset: nat, ok: bool)
      modifies `table, h
      ensures offset == old(table.got)
      ensures AddRef(old(table), reserve, old(HashOf(h)), strtabOk) == Added(table, HashOf(h), ok)
    {
      offset := table.got;
      if reserve {
        table := table.(rel := table.rel + 1);
      }
      if h != null {
        if h.hash.dynindx == -1 && !h.hash.forcedLocal {
          var (hash, t, recorded) := RecordDynamic(h.hash, table, strtabOk);
          h.hash, table := hash, t;
          if !recorded {
            return offset, false;
          }
        }
      }
      table := table.(got := table.got + 4);
      return offset, true;
    }

    /** The one-word types. */
    method FillOne(typ: GotType, existing: Words, reserve: bool, list: GotList, h: HashEntry?,
                   strtabOk: bool) returns (ok: bool)
      requires list.Valid() && Find(list.Entries(), typ).None?
      modifies `table, h, list, list.nodes
      ensures list.Valid()
      ensures AddRef(old(table), reserve, old(HashOf(h)), strtabOk) == Added(table, HashOf(h), ok)
      ensures list.Entries() == old(list.Entries()) + if ok then [NewEntry(typ, old(table.got), existing)] else []
    {
      hide AddRef, Find;
      ghost var before := list.Entries();
      var offset;
      offset, ok := AddSymbolRef(reserve, h, strtabOk);
      assert list.Entries() == before;
      if ok {
        list.NewEntryAtEnd(typ, offset, existing);
      }
    }

    /** The two words of a general dynamic entry. */
    method FillTwo(typ: GotType, list: GotList, h: HashEntry?, strtabOk: bool) returns (ok: bool)
      requires list.Valid() && Find(list.Entries(), typ).None?
      modifies `table, h, list, list.nodes
      ensures list.Valid()
      ensures var a := AddRef(old(table), true, old(HashOf(h)), strtabOk);
        var b := if a.ok then AddRef(a.table, true, a.h, strtabOk) else a;
        && b == Added(table, HashOf(h), ok)
        && list.Entries() == old(list.Entries()) + if ok then [NewEntry(typ, old(table.got), TlsModAndOff)] else []
    {
      hide AddRef, Find;
      ghost var before := list.Entries();
      var offset, notneeded;
      offset, ok := AddSymbolRef(true, h, strtabOk);
      if ok {
        notneeded, ok := AddSymbolRef(true, h, strtabOk);
      }
      assert list.Entries() == before;
      if ok {
        list.NewEntryAtEnd(typ, offset, TlsModAndOff);
      }
    }

    /** `arc_fill_got_info_for_reloc`. */
    method FillGotInfo(typ: GotType, list: GotList, pic: bool, h: HashEntry?, strtabOk: bool) returns (ok: bool)
      requires list.Valid()
      modifies `table, h, list, list.nodes
      ensures list.Valid()
      ensures Fill(old(list.Entries()), old(table), typ, pic, old(HashOf(h)), strtabOk)
        == Filled(list.Entries(), table, HashOf(h), ok)
    {
      hide AddRef, Find;
      var entry := list.ForType(typ);
      if entry != null {
        return true;
      }
      match typ {
        case GotNormal =>
          ok := FillOne(typ, TlsNone, pic || h != null, list, h, strtabOk);
        case GotTlsGd =>
          ok := FillTwo(typ, list, h, strtabOk);
        case GotTlsIe =>
          ok := FillOne(typ, TlsOff, true, list, h, strtabOk);
        case GotTlsLe =>
          ok := FillOne(typ, TlsOff, true, list, h, strtabOk);
        case GotUnknown =>
          ok := false;
      }
    }

    /** `ADD_RELA`. */
    method Write(i: Info, r: Rela)
      modifies `relocs
      ensures relocs == old(relocs) + AddRela(i, r)
    {
      if i.dynamicSections {
        relocs := relocs + [r];
      }
    }

    /** `create_got_dynrelocs_for_single_entry`; `word` is what the GOT holds at the entry. */
    method CreateForEntry(e: GotEntry, i: Info, h: HashEntry?, word: nat)
      modifies `relocs, e`created
      ensures var (v, rs) := Emit(old(e.Value()), i, HashOf(h), word); e.Value() == v && relocs == old(relocs) + rs
    {
      var was := e.Value();
      if e.typ == GotNormal && !e.created {
        if i.pic && h != null && (i.symbolic || h.hash.dynindx == -1) && h.hash.defRegular {
          Write(i, Rela(e.offset, 0, Relative, 0));
        } else if h != null && h.hash.dynindx != -1 {
          Write(i, Rela(e.offset, h.hash.dynindx, GlobDat, 0));
        }
        e.created := true;
      } else if e.existing != TlsNone && !e.created {
        var dynindx := if h == null || h.hash.dynindx == -1 then 0 else h.hash.dynindx;
        if e.existing == TlsModAndOff || e.existing == TlsMod {
          Write(i, Rela(e.offset, dynindx, DtpMod, 0));
        }
        if e.existing == TlsModAndOff || e.existing == TlsOff {
          var addend := if e.typ == GotTlsIe then word else 0;
          Write(i, Rela(e.offset + (if e.existing == TlsModAndOff then 4 else 0), dynindx,
                        if e.typ == GotTlsIe then TpOff else DtpOff, addend));
        }
        e.created := true;
      }
    }

    /** `create_got_dynrelocs_for_got_info`; `words` is what the GOT holds. */
    method CreateForList(list: GotList, i: Info, h: HashEntry?, words: nat -> nat)
      requires list.Valid()
      modifies `relocs, list.nodes
      ensures list.Valid() && relocs == old(relocs) + EmitAll(old(list.Entries()), i, HashOf(h), words)
      ensures forall k :: 0 <= k < |list.nodes| ==>
        list.Entries()[k] == Emit(old(list.Entries()[k]), i, HashOf(h), words(list.nodes[k].offset)).0
    {
      hide Emit, EmitAll;
      ghost var before := list.Entries();
      var e := list.head;
      ghost var k := 0;
      NoEntries(i, HashOf(h), words);
      while e != null
        invariant k <= |list.nodes| && e == NodeAt(list.nodes, k) && list.Valid()
        invariant relocs == old(relocs) + EmitAll(before[..k], i, HashOf(h), words)
        invariant forall j :: 0 <= j < k ==>
          list.nodes[j].Value() == Emit(before[j], i, HashOf(h), words(before[j].offset)).0
        invariant forall j :: k <= j < |list.nodes| ==> list.nodes[j].Value() == before[j]
        decreases |list.nodes| - k
      {
        assert e.Value() == before[k] && list.nodes[k].next == NodeAt(list.nodes, k + 1);
        CreateForEntry(e, i, h, words(e.offset));
        OneMore(before, k, i, HashOf(h), words);
        e := e.next;
        k := k + 1;
      }
      assert before[..k] == before;
    }
  }

  /** The relocations of a whole list. */
  function EmitAll(l: seq<Entry>, i: Info, h: Option<Hash>, words: nat -> nat): seq<Rela> {
    if l == [] then []
    else EmitAll(l[..|l| - 1], i, h, words) + Emit(l[|l| - 1], i, h, words(l[|l| - 1].offset)).1
  }

  lemma NoEntries(i: Info, h: Option<Hash>, words: nat -> nat)
    ensures EmitAll([], i, h, words) == []
  {
  }

  lemma OneMore(l: seq<Entry>, k: nat, i: Info, h: Option<Hash>, words: nat -> nat)
    requires k < |l|
    ensures EmitAll(l[..k + 1], i, h, words) == EmitAll(l[..k], i, h, words) + Emit(l[k], i, h, words(l[k].offset)).1
  {
    hide Emit;
    assert l[..k + 1][..k] == l[..k];
  }
}
