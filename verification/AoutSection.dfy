// Relocating whole section contents with standard and with extended a.out relocs.
module AoutSection {
  import opened Bytes
  import opened Patches
  import opened AoutReloc

  // ---- standard relocs -------------------------------------------------

  /** `reloc_std_external` with a plain howto: the whole word is relocated in place. */
  datatype StdReloc = StdReloc(addr: nat, index: nat, extern: bool, pcrel: bool, size: nat)

  function StdTarget(r: StdReloc): Target {
    if r.extern then External(r.index) else InSection(r.index)
  }

  /** What the linker demands of a reloc: a known target, an address in range before and after. */
  predicate StdOk(l: Link, r: StdReloc, len: nat) {
    && TargetOk(l, StdTarget(r)) && WordSize(r.size) && r.addr + r.size <= len
    && 0 <= Input(l).outOffset && r.addr + Input(l).outOffset < TWO32 / 2
  }

  predicate AllStdOk(l: Link, rs: seq<StdReloc>, len: nat) {
    forall i :: 0 <= i < |rs| ==> StdOk(l, rs[i], len)
  }

  function StdPartialPatch(l: Link, r: StdReloc): (p: Patch)
    requires TargetOk(l, StdTarget(r))
    ensures p.Add?
  {
    Add(r.addr, r.size, W64(PartialShift(l, StdTarget(r), r.pcrel)))
  }

  function StdFinalPatch(l: Link, r: StdReloc): Patch
    requires TargetOk(l, StdTarget(r))
  {
    Add(r.addr, r.size, W64(FinalShift(l, StdTarget(r), r.pcrel, false, r.addr)))
  }

  function StdMoved(l: Link, r: StdReloc): StdReloc
    requires TargetOk(l, StdTarget(r)) && 0 <= Sword(r.addr + Input(l).outOffset)
  {
    var t := PartialTarget(l, StdTarget(r));
    r.(addr := Sword(r.addr + Input(l).outOffset), extern := t.External?, index := t.index)
  }

  function StdPatches(l: Link, relocatable: bool, rs: seq<StdReloc>, len: nat): (ps: seq<Patch>)
    requires AllStdOk(l, rs, len)
    ensures |ps| == |rs| && AllFit(ps, len)
    ensures forall i :: 0 <= i < |rs| ==>
      ps[i] == if relocatable then StdPartialPatch(l, rs[i]) else StdFinalPatch(l, rs[i])
  {
    seq(|rs|, i requires 0 <= i < |rs| => if relocatable then StdPartialPatch(l, rs[i]) else StdFinalPatch(l, rs[i]))
  }

  lemma AddNothing(at: nat, n: nat, c: seq<byte>, big: bool)
    requires Add(at, n, 0).Fits(|c|)
    ensures Apply(Add(at, n, 0), c, big) == c
  {
    hide Put, Get, Modulus;
    var field := c[at..at + n];
    GetBound(field, big);
    ModulusIs(n);
    PutGet(field, big);
    assert (Get(field, big) + 0) % Modulus(n) == Get(field, big);
    SpliceSame(c, at, n);
  }

  lemma SpliceSame(c: seq<byte>, at: nat, n: nat)
    requires at + n <= |c|
    ensures Splice(c, at, c[at..at + n]) == c
  {
  }

  lemma {:induction false} PutGet(s: seq<byte>, big: bool)
    ensures Put(Get(s, big), |s|, big) == s
  {
    if s != [] {
      if big {
        PutGet(s[..|s| - 1], big);
        assert GetBe(s) / 256 == GetBe(s[..|s| - 1]) && GetBe(s) % 256 == s[|s| - 1];
      } else {
        PutGetLe(s);
      }
    }
  }

  method PatchInPlace(p: Patch, contents: array<byte>, big: bool)
    requires p.Fits(contents.Length)
    modifies contents
    ensures contents[..] == Apply(p, old(contents[..]), big)
  {
    hide NewField, Splice;
    var c := contents[..];
    var field := NewField(p, FieldOf(p, c), big);
    forall k | 0 <= k < p.Size() {
      contents[p.at + k] := field[k];
    }
    SpliceIs(c, p.at, field, contents[..]);
  }

  lemma SpliceIs(c: seq<byte>, at: nat, field: seq<byte>, after: seq<byte>)
    requires at + |field| <= |c| == |after|
    requires forall k :: 0 <= k < |field| ==> after[at + k] == field[k]
    requires forall j :: 0 <= j < |c| && (j < at || at + |field| <= j) ==> after[j] == c[j]
    ensures after == Splice(c, at, field)
  {
    assert after[at..at + |field|] == field;
    assert after[..at] == c[..at] && after[at + |field|..] == c[at + |field|..];
    assert after == after[..at] + after[at..at + |field|] + after[at + |field|..];
  }

  // ---- what a reloc leaves ---------------------------------------------

  /** The relocs of one section edit separate words. */
  predicate StdSeparate(rs: seq<StdReloc>) {
    forall i, j :: 0 <= i < j < |rs| ==> rs[i].addr + rs[i].size <= rs[j].addr || rs[j].addr + rs[j].size <= rs[i].addr
  }

  /** Equal modulo the word. */
  predicate Same(a: int, b: int, n: nat)
    requires WordSize(n)
  {
    (a - b) % Modulus(n) == 0
  }

  function WordAt(c: seq<byte>, at: nat, n: nat, big: bool): nat
    requires at + n <= |c|
  {
    Get(c[at..at + n], big)
  }

  /** The section a reloc's index names: N_TEXT, N_DATA and N_BSS, or the absolute one. */
  function Named(l: Link, index: nat): (s: Section)
    requires SectionIndex(index)
    ensures s == SecOf(l, KindOf(index))
  {
    var bits := index / 2 % 16 * 2;
    if bits == 4 then l.text else if bits == 6 then l.data else if bits == 8 then l.bss else Section(0, 0, 0, Abs)
  }

  /** Where a symbol ends up, by its own section's place in the output; 0 for one that is not defined. */
  function Final(s: Sym): (a: int)
    ensures a == Address(s)
  {
    if s.Defined? then s.value + (s.sec.outVma + s.sec.outOffset) else 0
  }

  /** What a word `w` becomes in a final link.  Against a symbol it grows by the symbol's address; against a
      section it stays as far from the section's start.  A PC-relative word stands for a distance from its own
      place: from the start of the section if it is against a symbol, from the address in the input if not. */
  predicate StdFinalWord(l: Link, r: StdReloc, w: nat, after: nat)
    requires TargetOk(l, StdTarget(r)) && WordSize(r.size)
  {
    var here := Input(l);
    var place := here.outVma + here.outOffset + r.addr;
    if r.extern then
      if r.pcrel then Same(after + place, (w + r.addr) + Final(l.syms[r.index]), r.size)
      else Same(after, w + Final(l.syms[r.index]), r.size)
    else
      var sec := Named(l, r.index);
      if r.pcrel then
        Same(after + place - (sec.outVma + sec.outOffset), (w + here.vma + r.addr) - sec.vma, r.size)
      else Same(after - (sec.outVma + sec.outOffset), w - sec.vma, r.size)
  }

  /** What it becomes in a partial link, where its place in the output is `addr + outOffset`.  Against a
      section it is as after a final link.  Against a symbol that is defined it turns into a word against a
      section: it now holds the symbol's address in the output as well, and if it is PC-relative it misses
      that by the input section's address.  Against another symbol it says what it said, and misses that,
      if PC-relative, by how far the output section is from the input section. */
  predicate StdPartialWord(l: Link, r: StdReloc, w: nat, after: nat)
    requires TargetOk(l, StdTarget(r)) && WordSize(r.size)
  {
    var here := Input(l);
    var place := here.outVma + here.outOffset + r.addr;
    if !r.extern then StdFinalWord(l, r, w, after)
    else if l.syms[r.index].Defined? then
      if r.pcrel then Same(after + place, (w + r.addr) + Final(l.syms[r.index]) + here.vma, r.size)
      else Same(after, w + Final(l.syms[r.index]), r.size)
    else
      if r.pcrel then Same(after + (r.addr + here.outOffset), (w + r.addr) - (here.outVma - here.vma), r.size)
      else Same(after, w, r.size)
  }

  /** The word of a reloc before and after. */
  predicate StdRelocated(l: Link, relocatable: bool, r: StdReloc, c: seq<byte>, after: seq<byte>, big: bool)
    requires StdOk(l, r, |c|) && |after| == |c|
  {
    var w, w' := WordAt(c, r.addr, r.size, big), WordAt(after, r.addr, r.size, big);
    if relocatable then StdPartialWord(l, r, w, w') else StdFinalWord(l, r, w, w')
  }

  /** No reloc's word holds byte `j`. */
  predicate StdOutside(rs: seq<StdReloc>, j: nat) {
    forall i :: 0 <= i < |rs| ==> j < rs[i].addr || rs[i].addr + rs[i].size <= j
  }

  /** The reloc a partial link writes: at its place in the output section, against the symbol under its new
      index or, if the symbol is defined, against the section the symbol is in. */
  predicate StdRewritten(l: Link, r: StdReloc, r': StdReloc)
    requires TargetOk(l, StdTarget(r))
  {
    && r'.addr == r.addr + Input(l).outOffset && r'.pcrel == r.pcrel && r'.size == r.size
    && if !r.extern then !r'.extern && r'.index == r.index
       else if l.syms[r.index].Defined? then
         && !r'.extern
         && r'.index == match l.syms[r.index].sec.out case Text => 4 case Data => 6 case Bss => 8 case Abs => 2
       else r'.extern && r'.index == l.newIndex[r.index]
  }

  lemma SwordSmall(x: int)
    requires 0 <= x < TWO32 / 2
    ensures Sword(x) == x
  {
  }

  lemma StdIsRewritten(l: Link, r: StdReloc, len: nat)
    requires StdOk(l, r, len)
    ensures StdRewritten(l, r, StdMoved(l, r))
  {
    SwordSmall(r.addr + Input(l).outOffset);
  }

  /** What adding a number leaves in a word. */
  lemma Added(p: Patch, field: seq<byte>, big: bool)
    requires p.Valid() && p.Add? && |field| == p.size
    ensures Same(Get(NewField(p, field, big), big), Get(field, big) + p.delta, p.size)
  {
    hide Put, Get, Modulus;
    var w, m := Get(field, big), Modulus(p.size);
    ModulusIs(p.size);
    GetPut((w + p.delta) % m, p.size, big);
    ModSame((w + p.delta) % m, w + p.delta, m);
    ModTwice(w + p.delta, m);
  }

  lemma ModTwice(a: int, m: nat)
    requires m > 0
    ensures (a % m) % m == a % m
  {
    ModOf(a % m, 0, a % m, m);
  }

  /** Sums wrap around at 2^64, which is a multiple of the word. */
  lemma SameSum(after: int, w: int, d: int, n: nat, x: int, y: int)
    requires WordSize(n) && Same(after, w + W64(d), n) && x - y == after - (w + d)
    ensures Same(x, y, n)
  {
    hide W64, Modulus;
    var m := Modulus(n);
    W64Sum(d, 0, n);
    ModSame(W64(d), d, m);
    ModSame(after, w + W64(d), m);
    ModSame(w + W64(d), w + d, m);
    assert (w + W64(d)) - (w + d) == W64(d) - d;
    ModSame(after, w + d, m);
  }

  lemma StdWordIs(l: Link, relocatable: bool, r: StdReloc, field: seq<byte>, big: bool)
    requires TargetOk(l, StdTarget(r)) && WordSize(r.size) && |field| == r.size
    ensures var p := if relocatable then StdPartialPatch(l, r) else StdFinalPatch(l, r);
      var w, after := Get(field, big), Get(NewField(p, field, big), big);
      if relocatable then StdPartialWord(l, r, w, after) else StdFinalWord(l, r, w, after)
  {
    hide Put, Get, Modulus, NewField, W64, Same, KindOf, SectionIndex;
    var p := if relocatable then StdPartialPatch(l, r) else StdFinalPatch(l, r);
    Added(p, field, big);
    var w, after := Get(field, big), Get(NewField(p, field, big), big);
    var d := if relocatable then PartialShift(l, StdTarget(r), r.pcrel)
             else FinalShift(l, StdTarget(r), r.pcrel, false, r.addr);
    forall x: int, y: int | x - y == after - (w + d)
      ensures Same(x, y, r.size)
    {
      SameSum(after, w, d, r.size, x, y);
    }
  }

  /** After the whole loop, when no reloc edits another's word. */
  lemma StdWordsAre(l: Link, relocatable: bool, rs: seq<StdReloc>, c: seq<byte>, big: bool, k: nat)
    requires AllStdOk(l, rs, |c|) && StdSeparate(rs) && k < |rs|
    ensures StdRelocated(l, relocatable, rs[k], c, ApplyAll(StdPatches(l, relocatable, rs, |c|), c, big), big)
  {
    hide ApplyAll, NewField, StdPartialPatch, StdFinalPatch, StdPartialWord, StdFinalWord, Get, TargetOk;
    assert StdOk(l, rs[k], |c|);
    var ps := StdPatches(l, relocatable, rs, |c|);
    PatchPlaces(l, relocatable, rs, |c|);
    FieldAfter(ps, c, big, k);
    StdWordIs(l, relocatable, rs[k], c[rs[k].addr..rs[k].addr + rs[k].size], big);
  }

  lemma PatchPlaces(l: Link, relocatable: bool, rs: seq<StdReloc>, len: nat)
    requires AllStdOk(l, rs, len)
    ensures var ps := StdPatches(l, relocatable, rs, len);
      && (forall i :: 0 <= i < |rs| ==> ps[i].at == rs[i].addr && ps[i].Size() == rs[i].size)
      && (StdSeparate(rs) ==> Separate(ps))
  {
    hide PartialShift, FinalShift, TargetOk;
  }

  lemma StdBytesStay(l: Link, relocatable: bool, rs: seq<StdReloc>, c: seq<byte>, big: bool, j: nat)
    requires AllStdOk(l, rs, |c|) && j < |c|
    requires StdOutside(rs, j)
    ensures ApplyAll(StdPatches(l, relocatable, rs, |c|), c, big)[j] == c[j]
  {
    hide ApplyAll, AllStdOk, StdPatches;
    PatchPlaces(l, relocatable, rs, |c|);
    ByteUntouched(StdPatches(l, relocatable, rs, |c|), c, big, j);
  }

  /** `aout_link_input_section_std`: each reloc edits the contents; in a relocatable link it is
      rewritten as well. */
  method LinkInputSectionStd(l: Link, relocatable: bool, relocs: array<StdReloc>, contents: array<byte>, big: bool)
    requires AllStdOk(l, relocs[..], contents.Length)
    modifies relocs, contents
    ensures contents[..] == ApplyAll(StdPatches(l, relocatable, old(relocs[..]), contents.Length),
      old(contents[..]), big)
    ensures forall i :: 0 <= i < relocs.Length ==>
      relocs[i] == if relocatable then StdMoved(l, old(relocs[i])) else old(relocs[i])
    ensures relocatable ==> forall i :: 0 <= i < relocs.Length ==> StdRewritten(l, old(relocs[i]), relocs[i])
    ensures StdSeparate(old(relocs[..])) ==> forall i :: 0 <= i < relocs.Length ==>
      StdRelocated(l, relocatable, old(relocs[i]), old(contents[..]), contents[..], big)
    ensures forall j :: 0 <= j < contents.Length && StdOutside(old(relocs[..]), j) ==> contents[j] == old(contents[j])
  {
    hide ApplyAll, Apply, StdPartialPatch, StdFinalPatch, StdMoved, StdRelocated, StdOutside, StdRewritten, StdSeparate;
    ghost var rs, c := relocs[..], contents[..];
    ghost var ps := StdPatches(l, relocatable, rs, contents.Length);
    assert ApplyAll([], c, big) == c by { NoPatches(c, big); }
    for k := 0 to relocs.Length
      invariant contents[..] == ApplyAll(ps[..k], c, big)
      invariant forall i :: 0 <= i < relocs.Length ==>
        relocs[i] == if i < k && relocatable then StdMoved(l, rs[i]) else rs[i]
    {
      var r := relocs[k];
      assert StdOk(l, rs[k], contents.Length);
      NextPatch(ps, k, c, big);
      if relocatable {
        var p := StdPartialPatch(l, r);
        relocs[k] := StdMoved(l, r);
        PatchUnlessZero(p, contents, big);
      } else {
        PatchInPlace(StdFinalPatch(l, r), contents, big);
      }
    }
    assert ps[..relocs.Length] == ps;
    StdLoopLeaves(l, relocatable, rs, c, big);
  }

  /** What the loop leaves in the words, the other bytes and the relocs. */
  lemma StdLoopLeaves(l: Link, relocatable: bool, rs: seq<StdReloc>, c: seq<byte>, big: bool)
    requires AllStdOk(l, rs, |c|)
    ensures forall i :: 0 <= i < |rs| ==> StdRewritten(l, rs[i], StdMoved(l, rs[i]))
    ensures var after := ApplyAll(StdPatches(l, relocatable, rs, |c|), c, big);
      && (StdSeparate(rs) ==> forall i :: 0 <= i < |rs| ==> StdRelocated(l, relocatable, rs[i], c, after, big))
      && forall j :: 0 <= j < |c| && StdOutside(rs, j) ==> after[j] == c[j]
  {
    hide ApplyAll, StdPatches, StdRewritten, StdMoved, StdPartialWord, StdFinalWord, WordAt, TargetOk;
    var after := ApplyAll(StdPatches(l, relocatable, rs, |c|), c, big);
    forall i | 0 <= i < |rs|
      ensures StdRewritten(l, rs[i], StdMoved(l, rs[i]))
      ensures StdSeparate(rs) ==> StdRelocated(l, relocatable, rs[i], c, after, big)
    {
      assert StdOk(l, rs[i], |c|);
      StdIsRewritten(l, rs[i], |c|);
      if StdSeparate(rs) {
        StdWordsAre(l, relocatable, rs, c, big, i);
      }
    }
    forall j | 0 <= j < |c| && StdOutside(rs, j)
      ensures after[j] == c[j]
    {
      StdBytesStay(l, relocatable, rs, c, big, j);
    }
  }

  /** The relocatable branch does not touch a word when there is nothing to add. */
  method PatchUnlessZero(p: Patch, contents: array<byte>, big: bool)
    requires p.Fits(contents.Length) && p.Add?
    modifies contents
    ensures contents[..] == Apply(p, old(contents[..]), big)
  {
    if p.delta == 0 {
      AddNothing(p.at, p.size, contents[..], big);
    } else {
      PatchInPlace(p, contents, big);
    }
  }

  lemma NoPatches(c: seq<byte>, big: bool)
    ensures AllFit([], |c|) && ApplyAll([], c, big) == c
  {
  }

  lemma NextPatch(ps: seq<Patch>, k: nat, c: seq<byte>, big: bool)
    requires k < |ps| && AllFit(ps, |c|)
    ensures ApplyAll(ps[..k + 1], c, big) == Apply(ps[k], ApplyAll(ps[..k], c, big), big)
  {
    assert ps[..k + 1][..k] == ps[..k];
  }

  function AllStdMoved(l: Link, rs: seq<StdReloc>): (r: seq<StdReloc>)
    requires forall i :: 0 <= i < |rs| ==> TargetOk(l, StdTarget(rs[i])) && 0 <= Sword(rs[i].addr + Input(l).outOffset)
    ensures |r| == |rs| && forall i :: 0 <= i < |rs| ==> r[i] == StdMoved(l, rs[i])
  {
    seq(|rs|, i requires 0 <= i < |rs| => StdMoved(l, rs[i]))
  }

  // ---- the meaning of a partially linked section -----------------------

  lemma W64Is(a: int, n: nat)
    requires WordSize(n)
    ensures exists k: int :: W64(a) == a + Modulus(n) * k
  {
    var q := a / TWO64;
    assert W64(a) == a - TWO64 * q;
    var k := if n == 1 then 0x100_0000_0000_0000 else if n == 2 then 0x1_0000_0000_0000 else if n == 4 then TWO32
      else 1;
    assert TWO64 == Modulus(n) * k;
    assert W64(a) == a + Modulus(n) * (-(k * q));
  }

  /** Wrapping around at 2^64 does not show in a word. */
  lemma W64Sum(a: int, b: int, n: nat)
    requires WordSize(n)
    ensures (W64(a) + W64(b)) % Modulus(n) == (a + b) % Modulus(n) && W64(a) % Modulus(n) == a % Modulus(n)
  {
    hide W64, Modulus;
    W64Is(a, n);
    W64Is(b, n);
    var m := Modulus(n);
    var j: int :| W64(a) == a + m * j;
    var k: int :| W64(b) == b + m * k;
    ModShift(a, j, m);
    ModShift(a + b, j + k, m);
  }

  predicate NoDrift(first: Link, r: StdReloc)
    requires TargetOk(first, StdTarget(r)) && WordSize(r.size)
  {
    Drift(first, StdTarget(r), r.pcrel, false) % Modulus(r.size) == 0
  }

  lemma WordDrift(p: int, f: int, g: int, n: nat)
    requires WordSize(n)
    ensures (W64(p) + W64(f) - W64(g)) % Modulus(n) == 0 <==> (p + f - g) % Modulus(n) == 0
  {
    hide W64, Modulus;
    W64Sum(p, f, n);
    W64Sum(g, 0, n);
    var m := Modulus(n);
    ModSame(W64(p) + W64(f), W64(g), m);
    ModSame(p + f, g, m);
  }

  /** One word, linked twice against once. */
  lemma StdWord(first: Link, second: Link, direct: Link, r: StdReloc, len: nat)
    requires Chains(first, second, direct) && StdOk(first, r, len)
    ensures TargetOk(direct, StdTarget(r)) && StdTarget(StdMoved(first, r)) == PartialTarget(first, StdTarget(r))
    ensures TargetOk(second, StdTarget(StdMoved(first, r)))
      && StdMoved(first, r).addr == r.addr + Input(first).outOffset
    ensures var a, b, d := StdPartialPatch(first, r).delta, StdFinalPatch(second, StdMoved(first, r)).delta,
      StdFinalPatch(direct, r).delta;
      (a + b - d) % Modulus(r.size) == 0 <==> NoDrift(first, r)
  {
    hide PartialShift, FinalShift, Drift, W64, Chains, PartialTarget, Modulus, KindOf, IndexOf, SectionIndex;
    var t, o := StdTarget(r), Input(first).outOffset;
    LinkTwice(first, second, direct, t, r.pcrel, false, r.addr, r.addr + o);
    var p, f, g := PartialShift(first, t, r.pcrel),
      FinalShift(second, PartialTarget(first, t), r.pcrel, false, r.addr + o),
                   FinalShift(direct, t, r.pcrel, false, r.addr);
    WordDrift(p, f, g, r.size);
    PartialNotBase(first, r);
  }

  lemma PartialNotBase(first: Link, r: StdReloc)
    requires TargetOk(first, StdTarget(r))
    ensures !PartialTarget(first, StdTarget(r)).BaseRecord?
  {
  }

  /** The edits of the second link, at the places the words have in the input section. */
  function StdLocal(first: Link, second: Link, rs: seq<StdReloc>, len: nat): (ps: seq<Patch>)
    requires AllStdOk(first, rs, len)
    requires forall i :: 0 <= i < |rs| ==> TargetOk(second, StdTarget(StdMoved(first, rs[i])))
    ensures |ps| == |rs| && AllFit(ps, len)
    ensures forall i :: 0 <= i < |rs| ==>
      ps[i] == Add(rs[i].addr, rs[i].size, StdFinalPatch(second, StdMoved(first, rs[i])).delta)
  {
    seq(|rs|, i requires 0 <= i < |rs| =>
      Add(rs[i].addr, rs[i].size, StdFinalPatch(second, StdMoved(first, rs[i])).delta))
  }

  function SumPatches(ps: seq<Patch>, qs: seq<Patch>): (rs: seq<Patch>)
    requires |ps| == |qs| && forall i :: 0 <= i < |ps| ==> ps[i].Add? && qs[i].Add?
    ensures |rs| == |ps|
    ensures forall i :: 0 <= i < |ps| ==> rs[i] == Add(ps[i].at, ps[i].size, ps[i].delta + qs[i].delta)
  {
    seq(|ps|, i requires 0 <= i < |ps| => Add(ps[i].at, ps[i].size, ps[i].delta + qs[i].delta))
  }

  predicate AllNoDrift(first: Link, rs: seq<StdReloc>, len: nat)
    requires AllStdOk(first, rs, len)
  {
    forall i :: 0 <= i < |rs| ==> NoDrift(first, rs[i])
  }

  /** The second link knows what the moved relocs name. */
  lemma StdTargets(first: Link, second: Link, direct: Link, rs: seq<StdReloc>, len: nat)
    requires Chains(first, second, direct) && AllStdOk(first, rs, len)
    ensures forall i :: 0 <= i < |rs| ==> TargetOk(second, StdTarget(StdMoved(first, rs[i])))
  {
    hide Chains, StdTarget, StdMoved, TargetOk;
    forall i | 0 <= i < |rs|
      ensures TargetOk(second, StdTarget(StdMoved(first, rs[i])))
    {
      assert StdOk(first, rs[i], len);
      StdWord(first, second, direct, rs[i], len);
    }
  }

  /** One input section: its contents relocated twice are its contents relocated once, if and only if
      no reloc drifts. */
  lemma StdSectionTwice(first: Link, second: Link, direct: Link, rs: seq<StdReloc>, c: seq<byte>, big: bool)
    requires Chains(first, second, direct) && AllStdOk(first, rs, |c|) && AllStdOk(direct, rs, |c|) && StdSeparate(rs)
    ensures forall i :: 0 <= i < |rs| ==> TargetOk(second, StdTarget(StdMoved(first, rs[i])))
    ensures ApplyAll(StdLocal(first, second, rs, |c|), ApplyAll(StdPatches(first, true, rs, |c|), c, big), big)
            == ApplyAll(StdPatches(direct, false, rs, |c|), c, big)
      <==> AllNoDrift(first, rs, |c|)
  {
    hide ApplyAll, Chains, NoDrift, W64, StdMoved, StdTarget, PartialShift, FinalShift, Modulus;
    StdTargets(first, second, direct, rs, |c|);
    var ps, qs, ds := StdPatches(first, true, rs, |c|), StdLocal(first, second, rs, |c|),
      StdPatches(direct, false, rs, |c|);
    var sums := SumPatches(ps, qs);
    assert Sums(ps, qs, sums);
    TwoPasses(ps, qs, sums, c, big);
    SameContents(sums, ds, c, big);
    forall i | 0 <= i < |rs|
      ensures SameWord(sums[i], ds[i]) <==> NoDrift(first, rs[i])
    {
      StdWord(first, second, direct, rs[i], |c|);
    }
  }

  // ---- several inputs in one output section ----------------------------

  datatype Piece = Piece(gap: seq<byte>, contents: seq<byte>)

  /** The pieces of an output section, with the bytes that align each. */
  function Joined(ps: seq<Piece>): seq<byte> {
    if ps == [] then [] else Joined(ps[..|ps| - 1]) + ps[|ps| - 1].gap + ps[|ps| - 1].contents
  }

  /** The offset of piece `k` in the output section. */
  function OffsetOf(ps: seq<Piece>, k: nat): nat
    requires k < |ps|
  {
    |Joined(ps[..k])| + |ps[k].gap|
  }

  /** The pieces after edits of their own contents. */
  function Edited(ps: seq<Piece>, es: seq<seq<Patch>>, big: bool): (r: seq<Piece>)
    requires |ps| == |es| && forall k :: 0 <= k < |ps| ==> AllFit(es[k], |ps[k].contents|)
    ensures |r| == |ps|
    ensures forall k :: 0 <= k < |ps| ==> r[k] == Piece(ps[k].gap, ApplyAll(es[k], ps[k].contents, big))
  {
    seq(|ps|, k requires 0 <= k < |ps| => Piece(ps[k].gap, ApplyAll(es[k], ps[k].contents, big)))
  }

  /** The same edits, at the places the pieces have in the output section. */
  function AllEdits(ps: seq<Piece>, es: seq<seq<Patch>>): seq<Patch>
    requires |ps| == |es|
  {
    if ps == [] then []
    else
      var n := |ps| - 1;
      AllEdits(ps[..n], es[..n]) + AllMoved(es[n], OffsetOf(ps, n))
  }

  lemma NotMoved(ps: seq<Patch>)
    ensures AllMoved(ps, 0) == ps
  {
  }

  /** Edits of what comes first and edits of what comes last. */
  lemma TwoParts(before: seq<Patch>, here: seq<Patch>, left: seq<byte>, gap: seq<byte>, c: seq<byte>, big: bool)
    requires AllFit(before, |left|) && AllFit(here, |c|)
    ensures var es := before + AllMoved(here, |left| + |gap|);
      && AllFit(es, |left + gap + c|)
      && ApplyAll(es, left + gap + c, big) == ApplyAll(before, left, big) + gap + ApplyAll(here, c, big)
  {
    hide ApplyAll, AllMoved, AllFit;
    var moved, left' := AllMoved(here, |left| + |gap|), ApplyAll(before, left, big);
    NotMoved(before);
    ApplyAllMoved(before, [], left, gap + c, big);
    assert [] + left + (gap + c) == left + gap + c && [] + left' + (gap + c) == left' + gap + c + [];
    ApplyAllMoved(here, left' + gap, c, [], big);
    ApplyAppend(before, moved, left + gap + c, big);
    assert left' + gap + ApplyAll(here, c, big) + [] == left' + gap + ApplyAll(here, c, big);
  }

  /** Relocating an output section is relocating its pieces. */
  lemma {:induction false} PiecewiseEdits(ps: seq<Piece>, es: seq<seq<Patch>>, big: bool)
    requires |ps| == |es| && forall k :: 0 <= k < |ps| ==> AllFit(es[k], |ps[k].contents|)
    ensures AllFit(AllEdits(ps, es), |Joined(ps)|)
    ensures ApplyAll(AllEdits(ps, es), Joined(ps), big) == Joined(Edited(ps, es, big))
  {
    hide ApplyAll, AllMoved, AllFit;
    if ps == [] {
      NoPatches([], big);
    } else {
      var n := |ps| - 1;
      PiecewiseEdits(ps[..n], es[..n], big);
      TwoParts(AllEdits(ps[..n], es[..n]), es[n], Joined(ps[..n]), ps[n].gap, ps[n].contents, big);
      assert Edited(ps, es, big)[..n] == Edited(ps[..n], es[..n], big);
    }
  }

  predicate SameShape(ps: seq<Piece>, qs: seq<Piece>) {
    |ps| == |qs| && forall k :: 0 <= k < |ps| ==> ps[k].gap == qs[k].gap && |ps[k].contents| == |qs[k].contents|
  }

  lemma SameParts(a: seq<byte>, b: seq<byte>, g: seq<byte>, c: seq<byte>, d: seq<byte>)
    requires |a| == |b|
    ensures a + g + c == b + g + d <==> a == b && c == d
  {
    assert (a + g + c)[..|a|] == a && (a + g + c)[|a| + |g|..] == c;
    assert (b + g + d)[..|b|] == b && (b + g + d)[|b| + |g|..] == d;
  }

  lemma {:induction false} JoinedSame(ps: seq<Piece>, qs: seq<Piece>)
    requires SameShape(ps, qs)
    ensures |Joined(ps)| == |Joined(qs)|
    ensures Joined(ps) == Joined(qs) <==> forall k :: 0 <= k < |ps| ==> ps[k].contents == qs[k].contents
  {
    hide Joined;
    if ps == [] {
      assert qs == [];
    } else {
      var n := |ps| - 1;
      JoinedSame(ps[..n], qs[..n]);
      SameParts(Joined(ps[..n]), Joined(qs[..n]), ps[n].gap, ps[n].contents, qs[n].contents);
      JoinedLast(ps);
      JoinedLast(qs);
      SameUpTo(ps, qs, n);
    }
  }

  lemma JoinedLast(ps: seq<Piece>)
    requires ps != []
    ensures Joined(ps) == Joined(ps[..|ps| - 1]) + ps[|ps| - 1].gap + ps[|ps| - 1].contents
  {
  }

  lemma SameUpTo(ps: seq<Piece>, qs: seq<Piece>, n: nat)
    requires |ps| == |qs| == n + 1
    ensures (forall k :: 0 <= k < |ps| ==> ps[k].contents == qs[k].contents)
      <==> ps[n].contents == qs[n].contents && forall k :: 0 <= k < n ==> ps[..n][k].contents == qs[..n][k].contents
  {
    assert forall k :: 0 <= k < n ==> ps[..n][k] == ps[k] && qs[..n][k] == qs[k];
  }
}
