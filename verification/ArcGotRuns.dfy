// The GOT over every run of requests and emissions, for all symbols together.
module ArcGotRuns {
  import opened Bytes
  import opened ArcGot

  /** Symbols of one file, and symbols in the hash table. */
  datatype Sym = Local(file: nat, index: nat) | Global(id: nat)

  datatype Slot = Slot(sym: Sym, entry: Entry)

  datatype Emitted = Emitted(slot: nat, rela: Rela)

  /** All the symbols' GOT lists, as slots in the order they were made; the symbols' hash table entries; and
      the relocations written. */
  datatype Link = Link(slots: seq<Slot>, hs: map<Sym, Hash>, table: Table, out: seq<Emitted>)

  /** The GOT list of one symbol. */
  function ListOf(slots: seq<Slot>, s: Sym): seq<Entry> {
    if slots == [] then []
    else
      var last := slots[|slots| - 1];
      ListOf(slots[..|slots| - 1], s) + if last.sym == s then [last.entry] else []
  }

  function HashOf(l: Link, s: Sym): (h: Option<Hash>)
    ensures h.Some? <==> s.Global?
  {
    if s.Local? then None else Some(if s in l.hs then l.hs[s] else Hash(-1, false, false, false, false, false))
  }

  /** A request for a GOT entry, the emission of a slot's relocations, and whatever else the linker does to a
      symbol in between. */
  datatype Event =
    | Request(sym: Sym, typ: GotType, strtabOk: bool)
    | Emission(slot: nat, dynamicSections: bool, symbolic: bool, word: nat)
    | Change(sym: Sym, h: Hash)

  function AfterRequest(l: Link, pic: bool, s: Sym, typ: GotType, strtabOk: bool): Link {
    var list := ListOf(l.slots, s);
    var f := Fill(list, l.table, typ, pic, HashOf(l, s), strtabOk);
    l.(slots := if |f.list| > |list| then l.slots + [Slot(s, f.list[|list|])] else l.slots,
       table := f.table, hs := if f.h.Some? then l.hs[s := f.h.value] else l.hs)
  }

  function Tagged(k: nat, rs: seq<Rela>): (r: seq<Emitted>)
    ensures |r| == |rs| && forall j :: 0 <= j < |rs| ==> r[j] == Emitted(k, rs[j])
  {
    seq(|rs|, j requires 0 <= j < |rs| => Emitted(k, rs[j]))
  }

  function AfterEmission(l: Link, k: nat, i: Info, word: nat): Link
    requires k < |l.slots|
  {
    var s := l.slots[k];
    var (e, rs) := Emit(s.entry, i, HashOf(l, s.sym), word);
    l.(slots := l.slots[k := Slot(s.sym, e)], out := l.out + Tagged(k, rs))
  }

  function After(l: Link, pic: bool, e: Event): Link {
    match e
    case Request(s, typ, strtabOk) => AfterRequest(l, pic, s, typ, strtabOk)
    case Emission(k, dynamicSections, symbolic, word) =>
      if k < |l.slots| then AfterEmission(l, k, Info(dynamicSections, pic, symbolic), word) else l
    case Change(s, h) => l.(hs := l.hs[s := h])
  }

  function Run(l: Link, pic: bool, es: seq<Event>): Link {
    if es == [] then l else After(Run(l, pic, es[..|es| - 1]), pic, es[|es| - 1])
  }

  // ---- the invariant ---------------------------------------------------

  /** The end of the `k`th slot, or the place where the first began. */
  function End(slots: seq<Slot>, base: nat, k: nat): nat
    requires k <= |slots|
  {
    if k == 0 then base else slots[k - 1].entry.offset + Width(slots[k - 1].entry)
  }

  /** Each slot begins where the one before it ends. */
  predicate Tiled(slots: seq<Slot>, base: nat, end: nat) {
    (forall k :: 0 <= k < |slots| ==> Placed(slots, base, k)) && end == End(slots, base, |slots|)
  }

  predicate Placed(slots: seq<Slot>, base: nat, k: nat)
    requires k < |slots|
  {
    Proper(slots[k].entry) && slots[k].entry.offset == End(slots, base, k)
  }

  /** Byte `p` of the GOT is in slot `k`. */
  predicate Covers(slots: seq<Slot>, k: nat, p: nat) {
    k < |slots| && slots[k].entry.offset <= p < slots[k].entry.offset + Width(slots[k].entry)
  }

  ghost predicate Covered(slots: seq<Slot>, p: nat) {
    exists k: nat :: Covers(slots, k, p)
  }

  /** No symbol has two slots of one type. */
  predicate OneEach(slots: seq<Slot>) {
    forall j, k :: 0 <= j < k < |slots| ==> slots[j].sym != slots[k].sym || slots[j].entry.typ != slots[k].entry.typ
  }

  /** What the slots have reserved, and what those of them that have been emitted have. */
  function Reserved(slots: seq<Slot>, pic: bool): nat {
    if slots == [] then 0
    else
      var last := slots[|slots| - 1];
      Reserved(slots[..|slots| - 1], pic) + Reserve(last.entry, pic, last.sym.Global?)
  }

  function Spent(slots: seq<Slot>, pic: bool): (n: nat)
    ensures n <= Reserved(slots, pic)
  {
    if slots == [] then 0
    else
      var last := slots[|slots| - 1];
      Spent(slots[..|slots| - 1], pic) + if last.entry.created then Reserve(last.entry, pic, last.sym.Global?) else 0
  }

  /** Every relocation written applies to a word of the slot it was written for, which is done; no two to the
      same word. */
  predicate OutOk(slots: seq<Slot>, out: seq<Emitted>) {
    && (forall j {:trigger out[j]} :: 0 <= j < |out| ==>
          out[j].slot < |slots| && slots[out[j].slot].entry.created && InSlot(slots[out[j].slot].entry, out[j].rela))
    && (forall i, j :: 0 <= i < j < |out| && out[i].slot == out[j].slot ==> out[i].rela.offset != out[j].rela.offset)
  }

  predicate Sound(l: Link, pic: bool, base: Table) {
    && Tiled(l.slots, base.got, l.table.got) && OneEach(l.slots) && OutOk(l.slots, l.out)
    && base.rel + Reserved(l.slots, pic) <= l.table.rel && |l.out| <= Spent(l.slots, pic)
  }

  // ---- requests --------------------------------------------------------

  lemma {:induction false} ListHas(slots: seq<Slot>, s: Sym, k: nat)
    requires k < |slots| && slots[k].sym == s
    ensures exists j :: 0 <= j < |ListOf(slots, s)| && ListOf(slots, s)[j] == slots[k].entry
    decreases |slots|
  {
    var n := |slots| - 1;
    if k < n {
      ListHas(slots[..n], s, k);
      var j :| 0 <= j < |ListOf(slots[..n], s)| && ListOf(slots[..n], s)[j] == slots[..n][k].entry;
      assert ListOf(slots, s)[j] == slots[k].entry;
    } else {
      assert ListOf(slots, s)[|ListOf(slots[..n], s)|] == slots[n].entry;
    }
  }

  lemma {:induction false} ListFrom(slots: seq<Slot>, s: Sym, j: nat) returns (k: nat)
    requires j < |ListOf(slots, s)|
    ensures k < |slots| && slots[k] == Slot(s, ListOf(slots, s)[j])
    decreases |slots|
  {
    var n := |slots| - 1;
    if j < |ListOf(slots[..n], s)| {
      k := ListFrom(slots[..n], s, j);
    } else {
      k := n;
    }
  }

  /** The code's traversal of a symbol's list finds a type exactly when the symbol has a slot of it. */
  lemma FindIff(slots: seq<Slot>, s: Sym, typ: GotType)
    ensures Find(ListOf(slots, s), typ).Some?
      <==> exists k :: 0 <= k < |slots| && slots[k].sym == s && slots[k].entry.typ == typ
  {
    var list := ListOf(slots, s);
    if Find(list, typ).Some? {
      var k := ListFrom(slots, s, Find(list, typ).value);
    }
    forall k | 0 <= k < |slots| && slots[k].sym == s && slots[k].entry.typ == typ
      ensures Find(list, typ).Some?
    {
      ListHas(slots, s, k);
    }
  }

  /** A symbol asking again for what it has changes nothing. */
  lemma RepeatedRequest(l: Link, pic: bool, s: Sym, typ: GotType, strtabOk: bool, k: nat)
    requires k < |l.slots| && l.slots[k].sym == s && l.slots[k].entry.typ == typ
    ensures var r := AfterRequest(l, pic, s, typ, strtabOk);
      r.slots == l.slots && r.table == l.table && r.out == l.out && HashOf(r, s) == HashOf(l, s)
  {
    FindIff(l.slots, s, typ);
  }

  /** One more slot at the end. */
  lemma SlotAdded(slots: seq<Slot>, s: Slot, pic: bool)
    ensures Reserved(slots + [s], pic) == Reserved(slots, pic) + Reserve(s.entry, pic, s.sym.Global?)
    ensures Spent(slots + [s], pic) == Spent(slots, pic)
      + if s.entry.created then Reserve(s.entry, pic, s.sym.Global?) else 0
  {
    assert (slots + [s])[..|slots|] == slots;
  }

  lemma TiledMore(slots: seq<Slot>, s: Slot, base: nat, end: nat)
    requires Tiled(slots, base, end) && Proper(s.entry) && s.entry.offset == end
    ensures Tiled(slots + [s], base, end + Width(s.entry))
  {
    hide Proper, Width;
    var r := slots + [s];
    forall k: nat | k < |r|
      ensures Placed(r, base, k)
    {
      assert k < |slots| ==> Placed(slots, base, k);
      assert End(r, base, k) == End(slots, base, k);
    }
  }

  lemma RequestKeeps(l: Link, pic: bool, base: Table, s: Sym, typ: GotType, strtabOk: bool)
    requires Sound(l, pic, base)
    ensures Sound(AfterRequest(l, pic, s, typ, strtabOk), pic, base)
  {
    hide Fill, Tiled, Proper, Width, Reserve, Reserved, Spent, InSlot;
    var list, h := ListOf(l.slots, s), HashOf(l, s);
    FillShape(list, l.table, typ, pic, h, strtabOk);
    FindIff(l.slots, s, typ);
    var f := Fill(list, l.table, typ, pic, h, strtabOk);
    if |f.list| > |list| {
      var slot := Slot(s, f.list[|list|]);
      SlotAdded(l.slots, slot, pic);
      TiledMore(l.slots, slot, base.got, l.table.got);
    }
  }

  // ---- dynamic symbols -------------------------------------------------

  /** Dynamic symbols have different indices, all below the count; index 0 is none's. */
  predicate DynamicOk(hs: map<Sym, Hash>, dynsyms: nat) {
    && 0 < dynsyms
    && (forall s :: s in hs && hs[s].dynindx != -1 ==> 0 < hs[s].dynindx < dynsyms)
    && (forall s, t :: s in hs && t in hs && s != t && hs[s].dynindx != -1 ==> hs[s].dynindx != hs[t].dynindx)
  }

  /** A request keeps this, and no symbol loses its index or gets another. */
  lemma RequestKeepsDynamic(l: Link, pic: bool, s: Sym, typ: GotType, strtabOk: bool)
    requires DynamicOk(l.hs, l.table.dynsyms)
    ensures var r := AfterRequest(l, pic, s, typ, strtabOk);
      && DynamicOk(r.hs, r.table.dynsyms)
      && forall t :: t in l.hs ==> t in r.hs && (l.hs[t].dynindx != -1 ==> r.hs[t].dynindx == l.hs[t].dynindx)
  {
    hide Fill;
    var list := ListOf(l.slots, s);
    if s.Global? {
      FillRecords(list, l.table, typ, pic, HashOf(l, s).value, strtabOk);
    } else {
      FillRecords(list, l.table, typ, pic, Hash(-1, false, false, false, false, false), strtabOk);
      FillLocal(list, l.table, typ, pic, strtabOk);
    }
  }

  lemma FillLocal(list: seq<Entry>, t: Table, typ: GotType, pic: bool, strtabOk: bool)
    ensures Fill(list, t, typ, pic, None, strtabOk).h.None?
  {
  }

  // ---- emissions -------------------------------------------------------

  lemma {:induction false} SlotDone(slots: seq<Slot>, k: nat, pic: bool)
    requires k < |slots|
    ensures var s := slots[k];
      var done := slots[k := Slot(s.sym, s.entry.(created := true))];
      && Reserved(done, pic) == Reserved(slots, pic)
      && Spent(done, pic) == Spent(slots, pic) + if s.entry.created then 0 else Reserve(s.entry, pic, s.sym.Global?)
    decreases |slots|
  {
    var n, s := |slots| - 1, slots[k];
    var t := Slot(s.sym, s.entry.(created := true));
    if k < n {
      SlotDone(slots[..n], k, pic);
      assert slots[k := t][..n] == slots[..n][k := t];
    } else {
      assert slots[k := t][..n] == slots[..n];
    }
  }

  lemma TiledDone(slots: seq<Slot>, k: nat, base: nat, end: nat)
    requires Tiled(slots, base, end) && k < |slots|
    ensures Tiled(slots[k := Slot(slots[k].sym, slots[k].entry.(created := true))], base, end)
  {
    var r := slots[k := Slot(slots[k].sym, slots[k].entry.(created := true))];
    forall j: nat | j < |r|
      ensures Placed(r, base, j)
    {
      assert Placed(slots, base, j);
      assert End(r, base, j) == End(slots, base, j);
    }
  }

  lemma EmissionKeeps(l: Link, pic: bool, base: Table, k: nat, i: Info, word: nat)
    requires Sound(l, pic, base) && k < |l.slots| && i.pic == pic
    ensures Sound(AfterEmission(l, k, i, word), pic, base)
  {
    hide Emit, Tiled, Proper, Reserve, Reserved, Spent;
    var s, h := l.slots[k], HashOf(l, l.slots[k].sym);
    ProperSlot(l.slots, base.got, l.table.got, k);
    EmitShape(s.entry, i, h, word);
    var (e, rs) := Emit(s.entry, i, h, word);
    TiledDone(l.slots, k, base.got, l.table.got);
    SlotDone(l.slots, k, pic);
    OutMore(l.slots, l.out, k, rs);
  }

  lemma ProperSlot(slots: seq<Slot>, base: nat, end: nat, k: nat)
    requires Tiled(slots, base, end) && k < |slots|
    ensures Proper(slots[k].entry)
  {
    assert Placed(slots, base, k);
  }

  lemma OutMore(slots: seq<Slot>, out: seq<Emitted>, k: nat, rs: seq<Rela>)
    requires OutOk(slots, out) && k < |slots| && (slots[k].entry.created ==> rs == [])
    requires forall j :: 0 <= j < |rs| ==> InSlot(slots[k].entry, rs[j])
    requires forall i, j :: 0 <= i < j < |rs| ==> rs[i].offset != rs[j].offset
    ensures OutOk(slots[k := Slot(slots[k].sym, slots[k].entry.(created := true))], out + Tagged(k, rs))
  {
    hide Width;
    var r, o := slots[k := Slot(slots[k].sym, slots[k].entry.(created := true))], out + Tagged(k, rs);
    forall j {:trigger o[j]} | 0 <= j < |o|
      ensures o[j].slot < |r| && r[o[j].slot].entry.created && InSlot(r[o[j].slot].entry, o[j].rela)
    {
      assert j < |out| ==> o[j] == out[j];
      assert j >= |out| ==> o[j] == Emitted(k, rs[j - |out|]);
      WidthCreated(slots[k].entry);
    }
    forall i, j | 0 <= i < j < |o| && o[i].slot == o[j].slot
      ensures o[i].rela.offset != o[j].rela.offset
    {
      assert i < |out| ==> o[i] == out[i];
      assert j < |out| ==> o[j] == out[j];
      assert i >= |out| ==> o[i] == Emitted(k, rs[i - |out|]);
      assert j >= |out| ==> o[j] == Emitted(k, rs[j - |out|]);
    }
  }

  lemma WidthCreated(e: Entry)
    ensures Width(e.(created := true)) == Width(e)
  {
  }

  // ---- every run -------------------------------------------------------

  lemma {:induction false} RunKeeps(l: Link, pic: bool, base: Table, es: seq<Event>)
    requires Sound(l, pic, base)
    ensures Sound(Run(l, pic, es), pic, base)
    decreases |es|
  {
    hide AfterRequest, AfterEmission, Tiled, OneEach, OutOk, Reserved, Spent;
    if es != [] {
      var n := |es| - 1;
      RunKeeps(l, pic, base, es[..n]);
      var r := Run(l, pic, es[..n]);
      match es[n]
      case Request(s, typ, strtabOk) => RequestKeeps(r, pic, base, s, typ, strtabOk);
      case Emission(k, dynamicSections, symbolic, word) =>
        if k < |r.slots| {
          EmissionKeeps(r, pic, base, k, Info(dynamicSections, pic, symbolic), word);
        }
      case Change(s, h) =>
    }
  }

  lemma {:induction false} EndsGrow(slots: seq<Slot>, base: nat, end: nat, j: nat, k: nat)
    requires Tiled(slots, base, end) && j <= k <= |slots|
    ensures End(slots, base, j) <= End(slots, base, k) && (j < k ==> End(slots, base, j) < End(slots, base, k))
    decreases k - j
  {
    hide Proper;
    if j < k {
      EndsGrow(slots, base, end, j, k - 1);
      assert Placed(slots, base, k - 1);
    }
  }

  /** The slot that byte `p` of the GOT is in. */
  lemma {:induction false} SlotAt(slots: seq<Slot>, base: nat, end: nat, p: nat) returns (k: nat)
    requires Tiled(slots, base, end) && base <= p < end
    ensures Covers(slots, k, p)
  {
    hide Width, Proper;
    k := |slots| - 1;
    while slots[k].entry.offset > p
      invariant k < |slots| && p < End(slots, base, k + 1)
      decreases k
    {
      assert Placed(slots, base, k);
      k := k - 1;
    }
  }

  /** The main result.  However requests and emissions come, the slots handed out are disjoint and fill what
      the GOT has grown by, one for each symbol and type; the relocations written are no more than the room
      reserved for them; and each applies to a word of its own slot, never to one that has another. */
  lemma SlotsAndRelocations(hs: map<Sym, Hash>, base: Table, pic: bool, es: seq<Event>)
    ensures var l := Run(Link([], hs, base, []), pic, es);
      && base.got <= l.table.got && base.rel + |l.out| <= l.table.rel
      && (forall j, k :: 0 <= j < k < |l.slots| ==>
            l.slots[j].entry.offset + Width(l.slots[j].entry) <= l.slots[k].entry.offset)
      && (forall p: nat :: base.got <= p < l.table.got ==> Covered(l.slots, p))
      && (forall k :: 0 <= k < |l.slots| ==>
            base.got <= l.slots[k].entry.offset && l.slots[k].entry.offset + Width(l.slots[k].entry) <= l.table.got)
      && OneEach(l.slots) && OutOk(l.slots, l.out)
  {
    hide Width, OneEach, OutOk, Reserved, Spent, Run, Proper;
    var l := Run(Link([], hs, base, []), pic, es);
    Empty(hs, base, pic);
    RunKeeps(Link([], hs, base, []), pic, base, es);
    var n := |l.slots|;
    EndsGrow(l.slots, base.got, l.table.got, 0, n);
    forall j, k | 0 <= j < k < n
      ensures l.slots[j].entry.offset + Width(l.slots[j].entry) <= l.slots[k].entry.offset
    {
      EndsGrow(l.slots, base.got, l.table.got, j + 1, k);
      assert Placed(l.slots, base.got, k);
    }
    forall k | 0 <= k < n
      ensures base.got <= l.slots[k].entry.offset && l.slots[k].entry.offset + Width(l.slots[k].entry) <= l.table.got
    {
      assert Placed(l.slots, base.got, k);
      EndsGrow(l.slots, base.got, l.table.got, 0, k);
      EndsGrow(l.slots, base.got, l.table.got, k + 1, n);
    }
    forall p: nat | base.got <= p < l.table.got
      ensures Covered(l.slots, p)
    {
      var k := SlotAt(l.slots, base.got, l.table.got, p);
    }
  }

  lemma Empty(hs: map<Sym, Hash>, base: Table, pic: bool)
    ensures Sound(Link([], hs, base, []), pic, base)
  {
  }
}
