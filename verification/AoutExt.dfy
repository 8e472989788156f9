// Relocating with extended (SPARC) relocs: addends live in the relocs, fields are filled.
module AoutExt {
  import opened Bytes
  import opened Patches
  import opened AoutReloc
  import opened AoutSection

  /** The part of `howto_table_ext` that matters; `base` marks RELOC_BASE10, 13 and 22, `rev`
      RELOC_SPARC_REV32. */
  datatype Howto = Howto(size: nat, shift: nat, bits: nat, pcrel: bool, pcrelOffset: bool, base: bool, rev: bool)

  datatype ExtReloc = ExtReloc(addr: nat, index: nat, extern: bool, howto: Howto, addend: int)

  function ExtTarget(r: ExtReloc): Target {
    if r.howto.base then BaseRecord(r.index) else if r.extern then External(r.index) else InSection(r.index)
  }

  predicate ExtOk(l: Link, r: ExtReloc, len: nat) {
    && TargetOk(l, ExtTarget(r)) && WordSize(r.howto.size) && r.howto.shift + r.howto.bits <= 32
    && r.addr + r.howto.size <= len
    && 0 <= Input(l).outOffset && r.addr + Input(l).outOffset < TWO32 / 2
    && (r.howto.base ==> !r.extern)
    && (r.howto.rev ==> !r.howto.pcrel && r.howto.size == 4)
  }

  predicate AllExtOk(l: Link, rs: seq<ExtReloc>, len: nat) {
    forall i :: 0 <= i < |rs| ==> ExtOk(l, rs[i], len)
  }

  /** The relocatable branch: the reloc is rewritten, the contents stay. */
  function ExtMoved(l: Link, r: ExtReloc): ExtReloc
    requires TargetOk(l, ExtTarget(r)) && 0 <= Sword(r.addr + Input(l).outOffset)
  {
    var t := PartialTarget(l, ExtTarget(r));
    var relocation := W64(PartialShift(l, ExtTarget(r), r.howto.pcrel && !r.howto.pcrelOffset));
    r.(addr := Sword(r.addr + Input(l).outOffset), extern := t.External?, index := t.index,
       addend := if relocation != 0 then Sword(r.addend + relocation) else r.addend)
  }

  /** The value the final branch puts into the field, as far as a 32-bit target sees it. */
  function ExtValue(l: Link, r: ExtReloc): int
    requires TargetOk(l, ExtTarget(r))
  {
    W64(FinalShift(l, ExtTarget(r), r.howto.pcrel, r.howto.pcrelOffset, r.addr) + r.addend)
  }

  function ExtPatch(l: Link, r: ExtReloc): Patch
    requires TargetOk(l, ExtTarget(r))
  {
    if r.howto.rev then Rev32(r.addr, ExtValue(l, r))
    else Fill(r.addr, r.howto.size, ExtValue(l, r), r.howto.shift, r.howto.bits)
  }

  function ExtPatches(l: Link, rs: seq<ExtReloc>, len: nat): (ps: seq<Patch>)
    requires AllExtOk(l, rs, len)
    ensures |ps| == |rs| && AllFit(ps, len)
    ensures forall i :: 0 <= i < |rs| ==> ps[i] == ExtPatch(l, rs[i])
  {
    seq(|rs|, i requires 0 <= i < |rs| => ExtPatch(l, rs[i]))
  }

  // ---- what a reloc leaves ---------------------------------------------

  /** What the addend stands for: an address in the input or, against a symbol or for base-relative relocs, a
      distance from it.  A PC-relative addend does not have the place it is relative to in it: the start of
      the input section, if it is against a section, and, but for `pcrelOffset`, the offset in that. */
  function Told(r: ExtReloc, vma: int): int {
    r.addend + (if r.howto.pcrel && !r.howto.pcrelOffset then r.addr else 0)
    + (if r.howto.pcrel && !r.howto.base && !r.extern then vma else 0)
  }

  /** The address a reloc is about after a final link: the symbol's and the distance from it, or as far from the
      section's start as in the input. */
  function Meant(l: Link, r: ExtReloc): int
    requires TargetOk(l, ExtTarget(r))
  {
    var told := Told(r, Input(l).vma);
    if r.howto.base then
      var s := l.records[r.index];
      var sec := match s.kind
        case Text => l.text
        case Data => l.data
        case Bss => l.bss
        case Abs => Section(0, 0, 0, Abs);
      told + (s.value - sec.vma + (sec.outVma + sec.outOffset))
    else if r.extern then told + Final(l.syms[r.index])
    else told - Named(l, r.index).vma + (Named(l, r.index).outVma + Named(l, r.index).outOffset)
  }

  /** `v` is what the field is to hold: that address or, for a PC-relative reloc, its distance from the field's
      own place in the output. */
  predicate ForField(l: Link, r: ExtReloc, v: int)
    requires TargetOk(l, ExtTarget(r))
  {
    var place := Input(l).outVma + Input(l).outOffset + r.addr;
    (v + (if r.howto.pcrel then place else 0) - Meant(l, r)) % TWO32 == 0
  }

  /** The field holds the bits of `v` from the howto's shift on, the rest of the word is as it was; a reversed word
      has `v` added and its bytes turned round. */
  predicate Holds(r: ExtReloc, v: int, c: seq<byte>, after: seq<byte>, big: bool)
    requires r.addr + r.howto.size <= |c| == |after|
  {
    var h, field, field' := r.howto, c[r.addr..r.addr + r.howto.size], after[r.addr..r.addr + r.howto.size];
    if h.rev then GetLe(field') < TWO32 && (GetLe(field') - (Get(field, big) + v)) % TWO32 == 0
    else
      && Get(field', big) % Pow2(h.bits) == (v / Pow2(h.shift)) % Pow2(h.bits)
      && Get(field', big) / Pow2(h.bits) == Get(field, big) / Pow2(h.bits)
  }

  /** The relocs of one section fill separate fields, each inside its word. */
  predicate ExtSeparate(rs: seq<ExtReloc>) {
    && (forall i :: 0 <= i < |rs| ==> rs[i].howto.bits <= 8 * rs[i].howto.size)
    && forall i, j :: 0 <= i < j < |rs| ==>
         rs[i].addr + rs[i].howto.size <= rs[j].addr || rs[j].addr + rs[j].howto.size <= rs[i].addr
  }

  ghost predicate ExtRelocated(l: Link, r: ExtReloc, c: seq<byte>, after: seq<byte>, big: bool)
    requires ExtOk(l, r, |c|) && |after| == |c|
  {
    forall v :: ForField(l, r, v) ==> Holds(r, v, c, after, big)
  }

  /** No reloc's word holds byte `j`. */
  predicate ExtOutside(rs: seq<ExtReloc>, j: nat) {
    forall i :: 0 <= i < |rs| ==> j < rs[i].addr || rs[i].addr + rs[i].howto.size <= j
  }

  /** By how much a partial link's PC-relative addend misses what it should stand for in the output. */
  function Missed(l: Link, r: ExtReloc): int
    requires TargetOk(l, ExtTarget(r))
  {
    var here := Input(l);
    if !r.howto.pcrel then 0
    else if r.howto.base || (r.extern && !l.syms[r.index].Defined?) then
      (if r.howto.pcrelOffset then 0 else here.vma - here.outVma)
    else if r.extern then (if r.howto.pcrelOffset then here.outVma else here.vma)
    else (if r.howto.pcrelOffset then here.outVma - here.vma else 0)
  }

  /** The reloc a partial link writes: at its place in the output section; against a symbol under its new index or,
      if the symbol is defined, against the section the symbol is in; and with an addend that stands for the same
      distance from the symbol or, against a section, for the address in the output. */
  predicate ExtRewritten(l: Link, r: ExtReloc, r': ExtReloc)
    requires TargetOk(l, ExtTarget(r))
  {
    var told, told' := Told(r, Input(l).vma), Told(r', Input(l).outVma);
    && r'.addr == r.addr + Input(l).outOffset && r'.howto == r.howto
    && (r'.addend == r.addend || -0x8000_0000 <= r'.addend < 0x8000_0000)
    && if r.howto.base then
         !r'.extern && r'.index == l.newIndex[r.index] && (told' - (told + Missed(l, r))) % TWO32 == 0
       else if !r.extern then
         var sec := Named(l, r.index);
         && !r'.extern && r'.index == r.index
         && (told' - (told - sec.vma + (sec.outVma + sec.outOffset) + Missed(l, r))) % TWO32 == 0
       else if l.syms[r.index].Defined? then
         && !r'.extern
         && r'.index == (match l.syms[r.index].sec.out case Text => 4 case Data => 6 case Bss => 8 case Abs => 2)
         && (told' - (told + Final(l.syms[r.index]) + Missed(l, r))) % TWO32 == 0
       else
         r'.extern && r'.index == l.newIndex[r.index] && (told' - (told + Missed(l, r))) % TWO32 == 0
  }

  lemma ExtIsRewritten(l: Link, r: ExtReloc, len: nat)
    requires ExtOk(l, r, len)
    ensures ExtRewritten(l, r, ExtMoved(l, r))
  {
    hide W64, Sword, KindOf, SectionIndex, Told, Missed, Named, Final, Address, SecOf;
    SwordSmall(r.addr + Input(l).outOffset);
    var p, r' := PartialShift(l, ExtTarget(r), r.howto.pcrel && !r.howto.pcrelOffset), ExtMoved(l, r);
    SwordRange(r.addend + W64(p));
    AddendMoves(l, r, p, r'.addend);
    AddendTells(l, r, r', p);
  }

  /** The addend, once the place it is relative to has been put back. */
  lemma AddendTells(l: Link, r: ExtReloc, r': ExtReloc, p: int)
    requires TargetOk(l, ExtTarget(r)) && r'.howto == r.howto && r'.addr == r.addr + Input(l).outOffset
    requires r'.extern == PartialTarget(l, ExtTarget(r)).External?
    requires p == PartialShift(l, ExtTarget(r), r.howto.pcrel && !r.howto.pcrelOffset)
    ensures var told, told' := Told(r, Input(l).vma), Told(r', Input(l).outVma);
      told' - (r'.addend - (r.addend + p)) == Missed(l, r) +
        if r.howto.base then told
        else if !r.extern then told - Named(l, r.index).vma + (Named(l, r.index).outVma + Named(l, r.index).outOffset)
        else if l.syms[r.index].Defined? then told + Final(l.syms[r.index])
        else told
  {
    hide KindOf, SectionIndex, IndexOf, Final, Named, SecOf, Address;
  }

  lemma SwordRange(x: int)
    ensures -0x8000_0000 <= Sword(x) < 0x8000_0000
  {
  }

  /** The value the code computes is one that is meant for the field. */
  lemma ValueIsFor(l: Link, r: ExtReloc, v: int)
    requires TargetOk(l, ExtTarget(r)) && ForField(l, r, v)
    ensures (ExtValue(l, r) - v) % TWO32 == 0
  {
    hide W64, FinalShift, Meant, TargetOk;
    var x := FinalShift(l, ExtTarget(r), r.howto.pcrel, r.howto.pcrelOffset, r.addr) + r.addend;
    MeantIs(l, r);
    ModSame(v, x, TWO32);
    W64Mod32(x);
    ModSame(W64(x), v, TWO32);
  }

  lemma MeantIs(l: Link, r: ExtReloc)
    requires TargetOk(l, ExtTarget(r))
    ensures var place := Input(l).outVma + Input(l).outOffset + r.addr;
      FinalShift(l, ExtTarget(r), r.howto.pcrel, r.howto.pcrelOffset, r.addr) + r.addend
        + (if r.howto.pcrel then place else 0) == Meant(l, r)
  {
    hide KindOf, SectionIndex, FinalShift, Meant;
    if r.howto.base {
      MeantRecord(l, r);
    } else if r.extern {
      MeantSymbol(l, r);
    } else {
      MeantSection(l, r);
    }
  }

  lemma MeantRecord(l: Link, r: ExtReloc)
    requires TargetOk(l, ExtTarget(r)) && r.howto.base
    ensures var place := Input(l).outVma + Input(l).outOffset + r.addr;
      FinalShift(l, ExtTarget(r), r.howto.pcrel, r.howto.pcrelOffset, r.addr) + r.addend
        + (if r.howto.pcrel then place else 0) == Meant(l, r)
  {
    hide KindOf, SectionIndex, Named, Final, Address, Input;
  }

  lemma MeantSymbol(l: Link, r: ExtReloc)
    requires TargetOk(l, ExtTarget(r)) && !r.howto.base && r.extern
    ensures var place := Input(l).outVma + Input(l).outOffset + r.addr;
      FinalShift(l, ExtTarget(r), r.howto.pcrel, r.howto.pcrelOffset, r.addr) + r.addend
        + (if r.howto.pcrel then place else 0) == Meant(l, r)
  {
    hide KindOf, SectionIndex, Named, Final, Address, Input, SecOf;
  }

  lemma MeantSection(l: Link, r: ExtReloc)
    requires TargetOk(l, ExtTarget(r)) && !r.howto.base && !r.extern
    ensures var place := Input(l).outVma + Input(l).outOffset + r.addr;
      FinalShift(l, ExtTarget(r), r.howto.pcrel, r.howto.pcrelOffset, r.addr) + r.addend
        + (if r.howto.pcrel then place else 0) == Meant(l, r)
  {
    hide KindOf, SectionIndex, Named, Final, Address, Input, SecOf;
  }

  /** Filling the low bits of a word. */
  lemma Filled(w: nat, x: nat, b: nat, n: nat)
    requires WordSize(n) && b <= 8 * n && w < Modulus(n) && x < Pow2(b)
    ensures var r := (w - w % Pow2(b) + x) % Modulus(n);
      r < Modulus(n) && r % Pow2(b) == x && r / Pow2(b) == w / Pow2(b)
  {
    hide Pow2, Modulus;
    WordPow2(n);
    Pow2Adds(b, 8 * n - b);
    FilledIn(w, x, Pow2(b), Pow2(8 * n - b));
  }

  lemma FilledIn(w: nat, x: nat, p: nat, q: nat)
    requires x < p && 0 < q && w < p * q
    ensures p * q > 0 && (w - w % p + x) % (p * q) == w - w % p + x
    ensures (w - w % p + x) % p == x && (w - w % p + x) / p == w / p
  {
    var k := w / p;
    assert w - w % p == p * k;
    Quotient(w, p, q);
    MulGrows(p, k + 1, q);
    assert p * (k + 1) == p * k + p;
    ModOf(p * k + x, 0, p * k + x, p * q);
    ModOf(p * k + x, k, x, p);
    DivShift(x, k, p);
    DivSmall(x, p);
  }

  lemma Quotient(w: nat, p: nat, q: nat)
    requires p > 0 && w < p * q
    ensures w / p < q
  {
    var k := w / p;
    assert w == p * k + w % p;
    if k >= q {
      MulGrows(p, q, k);
    }
  }

  lemma MulGrows(p: nat, a: nat, b: nat)
    requires a <= b
    ensures p * a <= p * b
  {
    assert p * b == p * a + p * (b - a);
  }

  lemma DivSmall(x: nat, p: nat)
    requires x < p
    ensures x / p == 0
  {
  }

  lemma WordPow2(n: nat)
    requires WordSize(n)
    ensures Modulus(n) == Pow2(8 * n)
  {
    Pow2Values();
  }

  lemma ExtHolds(l: Link, r: ExtReloc, field: seq<byte>, big: bool, v: int)
    requires TargetOk(l, ExtTarget(r)) && WordSize(r.howto.size) && r.howto.shift + r.howto.bits <= 32
    requires (r.howto.rev ==> r.howto.size == 4) && r.howto.bits <= 8 * r.howto.size
    requires |field| == r.howto.size && ForField(l, r, v)
    ensures var field', h := NewField(ExtPatch(l, r), field, big), r.howto;
      if h.rev then GetLe(field') < TWO32 && (GetLe(field') - (Get(field, big) + v)) % TWO32 == 0
      else
        && Get(field', big) % Pow2(h.bits) == (v / Pow2(h.shift)) % Pow2(h.bits)
        && Get(field', big) / Pow2(h.bits) == Get(field, big) / Pow2(h.bits)
  {
    hide Put, Get, PutLe, GetLe, ExtValue, ForField, Pow2, Modulus, ExtTarget;
    var x, w, n, h := ExtValue(l, r), Get(field, big), r.howto.size, r.howto;
    ValueIsFor(l, r, v);
    ModulusIs(n);
    GetBound(field, big);
    if h.rev {
      Pow256Values();
      GetPutLe((w + x) % TWO32, 4);
      RevSame(w, x, v);
    } else {
      BitsSame(x, v, h.shift, h.bits);
      var bits := (x / Pow2(h.shift)) % Pow2(h.bits);
      Filled(w, bits, h.bits, n);
      GetPut((w - w % Pow2(h.bits) + bits) % Modulus(n), n, big);
    }
  }

  lemma RevSame(w: int, x: int, v: int)
    requires (x - v) % TWO32 == 0
    ensures ((w + x) % TWO32 - (w + v)) % TWO32 == 0
  {
    ModSame(w + x, w + v, TWO32);
    ModSame((w + x) % TWO32, w + v, TWO32);
    ModTwice(w + x, TWO32);
  }

  lemma ExtPlaces(l: Link, rs: seq<ExtReloc>, len: nat)
    requires AllExtOk(l, rs, len)
    ensures var ps := ExtPatches(l, rs, len);
      && (forall i :: 0 <= i < |rs| ==> ps[i].at == rs[i].addr && ps[i].Size() == rs[i].howto.size)
      && (ExtSeparate(rs) ==> Separate(ps))
  {
    hide ExtValue, TargetOk;
  }

  /** What the final branch's loop leaves in the words and in the other bytes. */
  lemma ExtLoopLeaves(l: Link, rs: seq<ExtReloc>, c: seq<byte>, big: bool)
    requires AllExtOk(l, rs, |c|)
    ensures var after := ApplyAll(ExtPatches(l, rs, |c|), c, big);
      && (ExtSeparate(rs) ==> forall i :: 0 <= i < |rs| ==> ExtRelocated(l, rs[i], c, after, big))
      && forall j :: 0 <= j < |c| && ExtOutside(rs, j) ==> after[j] == c[j]
  {
    hide ApplyAll, ExtPatches, ExtRelocated, ExtSeparate;
    var ps := ExtPatches(l, rs, |c|);
    var after := ApplyAll(ps, c, big);
    ExtPlaces(l, rs, |c|);
    if ExtSeparate(rs) {
      forall i | 0 <= i < |rs|
        ensures ExtRelocated(l, rs[i], c, after, big)
      {
        ExtLeaves(l, rs, c, big, i);
      }
    }
    forall j | 0 <= j < |c| && ExtOutside(rs, j)
      ensures after[j] == c[j]
    {
      ByteUntouched(ps, c, big, j);
    }
  }

  lemma ExtLeaves(l: Link, rs: seq<ExtReloc>, c: seq<byte>, big: bool, i: nat)
    requires AllExtOk(l, rs, |c|) && ExtSeparate(rs) && i < |rs|
    ensures ExtRelocated(l, rs[i], c, ApplyAll(ExtPatches(l, rs, |c|), c, big), big)
  {
    hide ApplyAll, NewField, ForField, Get, GetLe, Pow2, TargetOk, ExtPatch;
    var r, ps := rs[i], ExtPatches(l, rs, |c|);
    assert ExtOk(l, r, |c|) && r.howto.bits <= 8 * r.howto.size;
    ExtPlaces(l, rs, |c|);
    FieldAfter(ps, c, big, i);
    forall v | ForField(l, r, v)
      ensures Holds(r, v, c, ApplyAll(ps, c, big), big)
    {
      ExtHolds(l, r, c[r.addr..r.addr + r.howto.size], big, v);
    }
  }

  /** `aout_link_input_section_ext`. */
  method LinkInputSectionExt(l: Link, relocatable: bool, relocs: array<ExtReloc>, contents: array<byte>, big: bool)
    requires AllExtOk(l, relocs[..], contents.Length)
    modifies relocs, contents
    ensures contents[..] == if relocatable then old(contents[..])
      else ApplyAll(ExtPatches(l, old(relocs[..]), contents.Length), old(contents[..]), big)
    ensures forall i :: 0 <= i < relocs.Length ==>
      relocs[i] == if relocatable then ExtMoved(l, old(relocs[i])) else old(relocs[i])
    ensures relocatable ==> forall i :: 0 <= i < relocs.Length ==> ExtRewritten(l, old(relocs[i]), relocs[i])
    ensures !relocatable && ExtSeparate(old(relocs[..])) ==> forall i :: 0 <= i < relocs.Length ==>
      ExtRelocated(l, old(relocs[i]), old(contents[..]), contents[..], big)
    ensures forall j :: 0 <= j < contents.Length && (relocatable || ExtOutside(old(relocs[..]), j)) ==>
      contents[j] == old(contents[j])
  {
    hide ApplyAll, Apply, ExtPatch, ExtMoved, ExtRelocated, ExtRewritten, ExtOutside, ExtSeparate;
    ghost var rs, c := relocs[..], contents[..];
    ghost var ps := ExtPatches(l, rs, contents.Length);
    NoPatches(c, big);
    for k := 0 to relocs.Length
      invariant contents[..] == if relocatable then c else ApplyAll(ps[..k], c, big)
      invariant forall i :: 0 <= i < relocs.Length ==>
        relocs[i] == if i < k && relocatable then ExtMoved(l, rs[i]) else rs[i]
    {
      var r := relocs[k];
      assert ExtOk(l, rs[k], contents.Length);
      if relocatable {
        relocs[k] := ExtMoved(l, r);
      } else {
        NextPatch(ps, k, c, big);
        PatchInPlace(ExtPatch(l, r), contents, big);
      }
    }
    assert ps[..relocs.Length] == ps;
    ExtLoopLeaves(l, rs, c, big);
    forall i | 0 <= i < relocs.Length
      ensures ExtRewritten(l, rs[i], ExtMoved(l, rs[i]))
    {
      assert ExtOk(l, rs[i], contents.Length);
      ExtIsRewritten(l, rs[i], contents.Length);
    }
  }

  predicate ExtNoDrift(first: Link, r: ExtReloc)
    requires TargetOk(first, ExtTarget(r))
  {
    Drift(first, ExtTarget(r), r.howto.pcrel, r.howto.pcrelOffset) % TWO32 == 0
  }

  lemma SwordIs(x: int)
    ensures Sword(x) % TWO32 == x % TWO32
  {
  }

  /** The value put into the field, linked twice against once: it moves by the drift, modulo the 32-bit
      word, so that it is the same if and only if the reloc does not drift. */
  lemma ExtWord(first: Link, second: Link, direct: Link, r: ExtReloc, len: nat)
    requires Chains(first, second, direct) && ExtOk(first, r, len)
    ensures TargetOk(direct, ExtTarget(r)) && ExtTarget(ExtMoved(first, r)) == PartialTarget(first, ExtTarget(r))
    ensures TargetOk(second, ExtTarget(ExtMoved(first, r)))
      && ExtMoved(first, r).addr == r.addr + Input(first).outOffset
    ensures ExtMoved(first, r).howto == r.howto
    ensures var d := Drift(first, ExtTarget(r), r.howto.pcrel, r.howto.pcrelOffset);
      (ExtValue(second, ExtMoved(first, r)) - ExtValue(direct, r) - d) % TWO32 == 0
    ensures (ExtValue(second, ExtMoved(first, r)) - ExtValue(direct, r)) % TWO32 == 0 <==> ExtNoDrift(first, r)
  {
    hide PartialShift, FinalShift, Drift, W64, Chains, Sword;
    var t, o, h := ExtTarget(r), Input(first).outOffset, r.howto;
    SwordSmall(r.addr + o);
    LinkTwice(first, second, direct, t, h.pcrel, h.pcrelOffset, r.addr, r.addr + o);
    var p, f, g := PartialShift(first, t, h.pcrel && !h.pcrelOffset),
      FinalShift(second, PartialTarget(first, t), h.pcrel, h.pcrelOffset, r.addr + o),
                   FinalShift(direct, t, h.pcrel, h.pcrelOffset, r.addr);
    var a := ExtMoved(first, r).addend;
    AddendMoves(first, r, p, a);
    ValueMod(f, a, p, g, r.addend);
  }


  lemma W64Mod32(a: int)
    ensures W64(a) % TWO32 == a % TWO32
  {
    W64Sum(a, 0, 4);
  }

  /** The addend moves by the partial shift, modulo the word. */
  lemma AddendMoves(first: Link, r: ExtReloc, p: int, a: int)
    requires TargetOk(first, ExtTarget(r)) && 0 <= Sword(r.addr + Input(first).outOffset)
    requires p == PartialShift(first, ExtTarget(r), r.howto.pcrel && !r.howto.pcrelOffset)
    requires a == ExtMoved(first, r).addend
    ensures (a - (r.addend + p)) % TWO32 == 0
  {
    hide PartialShift, W64, Sword;
    W64Mod32(p);
    SwordIs(r.addend + W64(p));
    ModSame(W64(p), p, TWO32);
    ModSame(a, r.addend + p, TWO32);
    ModSame(r.addend + W64(p), r.addend + p, TWO32);
    if W64(p) == 0 {
      ModSame(r.addend, r.addend + p, TWO32);
    }
  }

  lemma ValueMod(f: int, a: int, p: int, g: int, e: int)
    requires (a - (e + p)) % TWO32 == 0
    ensures (W64(f + a) - W64(g + e) - (p + f - g)) % TWO32 == 0
    ensures (W64(f + a) - W64(g + e)) % TWO32 == 0 <==> (p + f - g) % TWO32 == 0
  {
    W64Moves(f + a, g + e);
    var x, y, z := W64(f + a) - W64(g + e), (f + a) - (g + e), p + f - g;
    assert y - z == a - (e + p);
    ModSame(x, y, TWO32);
    ModSame(y, z, TWO32);
    ModSame(x, z, TWO32);
    ModSame(x, 0, TWO32);
    ModSame(z, 0, TWO32);
  }

  lemma W64Moves(a: int, b: int)
    ensures ((W64(a) - W64(b)) - (a - b)) % TWO32 == 0
  {
    hide W64;
    W64Mod32(a);
    W64Mod32(b);
    ModSame(W64(a), a, TWO32);
    ModSame(W64(b), b, TWO32);
    ModDiff(W64(a) - a, W64(b) - b, TWO32);
  }

  lemma ModDiff(a: int, b: int, m: int)
    requires m > 0 && a % m == 0 && b % m == 0
    ensures (a - b) % m == 0
  {
    ModSame(a, b, m);
  }

  /** The edits of the second link, at the places the fields have in the input section. */
  function ExtLocal(first: Link, second: Link, rs: seq<ExtReloc>, len: nat): (ps: seq<Patch>)
    requires AllExtOk(first, rs, len)
    requires forall i :: 0 <= i < |rs| ==> TargetOk(second, ExtTarget(ExtMoved(first, rs[i])))
    ensures |ps| == |rs| && AllFit(ps, len)
    ensures forall i :: 0 <= i < |rs| ==> ps[i] == ExtLocalPatch(first, second, rs[i])
  {
    seq(|rs|, i requires 0 <= i < |rs| => ExtLocalPatch(first, second, rs[i]))
  }

  function ExtLocalPatch(first: Link, second: Link, r: ExtReloc): Patch
    requires TargetOk(first, ExtTarget(r)) && 0 <= Sword(r.addr + Input(first).outOffset)
    requires TargetOk(second, ExtTarget(ExtMoved(first, r)))
  {
    var v := ExtValue(second, ExtMoved(first, r));
    if r.howto.rev then Rev32(r.addr, v) else Fill(r.addr, r.howto.size, v, r.howto.shift, r.howto.bits)
  }

  /** A moved value leaves the field alone: the drift does not reach the bits the field holds, counting
      the carry out of the bits below it. */
  predicate ExtKept(first: Link, direct: Link, r: ExtReloc)
    requires TargetOk(first, ExtTarget(r)) && TargetOk(direct, ExtTarget(r))
  {
    var d := Drift(first, ExtTarget(r), r.howto.pcrel, r.howto.pcrelOffset);
    if r.howto.rev then d % TWO32 == 0 else BitsKept(ExtValue(direct, r), d, r.howto.shift, r.howto.bits)
  }

  predicate AllExtKept(first: Link, direct: Link, rs: seq<ExtReloc>, len: nat)
    requires AllExtOk(first, rs, len) && AllExtOk(direct, rs, len)
  {
    forall i :: 0 <= i < |rs| ==> ExtKept(first, direct, rs[i])
  }

  /** When the field is sure to be kept: without drift, and, if it starts at bit 0, exactly if the drift
      vanishes in the bits it holds. */
  lemma KeptWhen(first: Link, direct: Link, r: ExtReloc, len: nat)
    requires ExtOk(first, r, len) && TargetOk(direct, ExtTarget(r))
    ensures ExtNoDrift(first, r) ==> ExtKept(first, direct, r)
    ensures r.howto.shift == 0 && !r.howto.rev ==>
      (ExtKept(first, direct, r)
       <==> Drift(first, ExtTarget(r), r.howto.pcrel, r.howto.pcrelOffset) % Pow2(r.howto.bits) == 0)
  {
    hide Drift, ExtTarget, ExtValue, TargetOk, BitsKept, Pow2;
    BitsKeptIs(ExtValue(direct, r), Drift(first, ExtTarget(r), r.howto.pcrel, r.howto.pcrelOffset), r.howto.shift,
      r.howto.bits);
  }

  /** One field, linked twice against once. */
  lemma ExtField(first: Link, second: Link, direct: Link, r: ExtReloc, len: nat)
    requires Chains(first, second, direct) && ExtOk(first, r, len) && ExtOk(direct, r, len)
    requires TargetOk(second, ExtTarget(ExtMoved(first, r)))
    ensures SameWord(ExtLocalPatch(first, second, r), ExtPatch(direct, r)) <==> ExtKept(first, direct, r)
  {
    hide Chains, Drift, ExtTarget, ExtMoved, ExtValue, TargetOk, BitsKept, Pow2;
    ExtWord(first, second, direct, r, len);
    var v, w := ExtValue(second, ExtMoved(first, r)), ExtValue(direct, r);
    var d := Drift(first, ExtTarget(r), r.howto.pcrel, r.howto.pcrelOffset);
    if r.howto.rev {
      ModSame(v - w, d, TWO32);
      ModSame(d, 0, TWO32);
    } else {
      MovedBits(v, w, d, r.howto.shift, r.howto.bits);
    }
  }

  /** The second link knows what the moved relocs name. */
  lemma ExtTargets(first: Link, second: Link, direct: Link, rs: seq<ExtReloc>, len: nat)
    requires Chains(first, second, direct) && AllExtOk(first, rs, len)
    ensures forall i :: 0 <= i < |rs| ==> TargetOk(second, ExtTarget(ExtMoved(first, rs[i])))
  {
    hide Chains, ExtTarget, ExtMoved, ExtValue, TargetOk;
    forall i | 0 <= i < |rs|
      ensures TargetOk(second, ExtTarget(ExtMoved(first, rs[i])))
    {
      assert ExtOk(first, rs[i], len);
      ExtWord(first, second, direct, rs[i], len);
    }
  }

  /** One input section: its contents, relocated after a partial link, are what a direct link makes of
      them if every reloc's field is kept, whether or not the fields overlap, and, for separate fields,
      only if. */
  lemma ExtSectionTwice(first: Link, second: Link, direct: Link, rs: seq<ExtReloc>, c: seq<byte>, big: bool)
    requires Chains(first, second, direct) && AllExtOk(first, rs, |c|) && AllExtOk(direct, rs, |c|)
    ensures forall i :: 0 <= i < |rs| ==> TargetOk(second, ExtTarget(ExtMoved(first, rs[i])))
    ensures var same :=
        ApplyAll(ExtLocal(first, second, rs, |c|), c, big) == ApplyAll(ExtPatches(direct, rs, |c|), c, big);
      && (AllExtKept(first, direct, rs, |c|) ==> same)
      && (ExtSeparate(rs) ==> (same <==> AllExtKept(first, direct, rs, |c|)))
  {
    hide ApplyAll, Chains, ExtKept, ExtMoved, ExtTarget, ExtValue, SameWord;
    ExtTargets(first, second, direct, rs, |c|);
    var ps, ds := ExtLocal(first, second, rs, |c|), ExtPatches(direct, rs, |c|);
    forall i | 0 <= i < |rs|
      ensures SameWord(ps[i], ds[i]) <==> ExtKept(first, direct, rs[i])
    {
      ExtField(first, second, direct, rs[i], |c|);
    }
    if AllExtKept(first, direct, rs, |c|) {
      SameEdits(ps, ds, c, big);
    }
    if ExtSeparate(rs) {
      SameContents(ps, ds, c, big);
    }
  }
}
