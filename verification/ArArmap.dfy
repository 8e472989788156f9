// The symbol index ("armap"): collecting it, predicting member positions, and writing the BSD, COFF
// and 64-bit forms.
module ArArmap {
  import opened Bytes
  import opened ArFormat

  /** `unsigned int` arithmetic. */
  function U32(x: nat): (r: nat)
    ensures r < TWO32 && (x < TWO32 ==> r == x)
  {
    x % TWO32
  }

  /** One symbol of the index (`struct orl`): its name, the chain element that defines it, and where
      its name starts in the string table. */
  datatype Orl = Orl(name: seq<byte>, elt: nat, namidx: nat)

  // ---- collecting the symbols ------------------------------------------

  /** The symbols `_bfd_compute_and_write_armap` picks out. */
  predicate InMap(s: Symbol) {
    (s.global || s.common) && !s.undefined
  }

  /** The length of the string table: `stridx` after the entries `es`. */
  function StrLen(es: seq<Orl>): nat {
    if es == [] then 0 else StrLen(es[..|es| - 1]) + |es[|es| - 1].name| + 1
  }

  function Strings(es: seq<Orl>): (r: seq<byte>)
    ensures |r| == StrLen(es)
  {
    if es == [] then [] else Strings(es[..|es| - 1]) + es[|es| - 1].name + [0]
  }

  function AddSyms(es: seq<Orl>, syms: seq<Symbol>, elt: nat): seq<Orl> {
    if syms == [] then es
    else
      var s, r := syms[|syms| - 1], AddSyms(es, syms[..|syms| - 1], elt);
      if InMap(s) then r + [Orl(s.name, elt, StrLen(r))] else r
  }

  function Entries(ms: seq<Member>): seq<Orl> {
    if ms == [] then []
    else
      var n := |ms| - 1;
      if ms[n].isObject && ms[n].hasSyms then AddSyms(Entries(ms[..n]), ms[n].syms, n) else Entries(ms[..n])
  }

  /** Entries come in chain order and name elements of the chain. */
  predicate Ordered(es: seq<Orl>, n: nat) {
    && (forall i :: 0 <= i < |es| ==> es[i].elt < n)
    && (forall i, j :: 0 <= i <= j < |es| ==> es[i].elt <= es[j].elt)
  }

  /** Names are C strings, and each entry knows where its name goes in the string table. */
  predicate Indexed(es: seq<Orl>) {
    forall i :: 0 <= i < |es| ==> NulFree(es[i].name) && es[i].namidx == StrLen(es[..i])
  }

  lemma IndexedAppend(es: seq<Orl>, e: Orl)
    requires Indexed(es) && NulFree(e.name) && e.namidx == StrLen(es)
    ensures Indexed(es + [e])
  {
    var r := es + [e];
    forall i | 0 <= i < |r|
      ensures NulFree(r[i].name) && r[i].namidx == StrLen(r[..i])
    {
      assert i < |es| ==> r[..i] == es[..i];
      assert i == |es| ==> r[..i] == es;
    }
  }

  lemma {:induction false} AddSymsOrdered(es: seq<Orl>, syms: seq<Symbol>, elt: nat)
    requires Ordered(es, elt + 1) && Indexed(es)
    requires forall i :: 0 <= i < |syms| ==> NulFree(syms[i].name)
    ensures Ordered(AddSyms(es, syms, elt), elt + 1) && Indexed(AddSyms(es, syms, elt))
  {
    if syms != [] {
      var s, t := syms[|syms| - 1], syms[..|syms| - 1];
      AddSymsOrdered(es, t, elt);
      var r := AddSyms(es, t, elt);
      if InMap(s) {
        IndexedAppend(r, Orl(s.name, elt, StrLen(r)));
      }
    }
  }

  lemma {:induction false} EntriesOrdered(ms: seq<Member>)
    requires ValidChain(ms)
    ensures Ordered(Entries(ms), |ms|) && Indexed(Entries(ms))
  {
    if ms != [] {
      var n := |ms| - 1;
      EntriesOrdered(ms[..n]);
      assert Ordered(Entries(ms[..n]), n + 1);
      if ms[n].isObject && ms[n].hasSyms {
        assert ms[n].Valid();
        AddSymsOrdered(Entries(ms[..n]), ms[n].syms, n);
      }
    }
  }

  // ---- which symbols these are -----------------------------------------

  /** The symbol defines this name for other objects: it is not undefined, and is global or common. */
  predicate Defines(s: Symbol, name: seq<byte>) {
    s.name == name && !s.undefined && (s.global || s.common)
  }

  /** Symbol `k` of element `e` is such a symbol of an object that has symbols. */
  predicate Exported(ms: seq<Member>, e: nat, k: nat) {
    e < |ms| && ms[e].isObject && ms[e].hasSyms && k < |ms[e].syms| && Defines(ms[e].syms[k], ms[e].syms[k].name)
  }

  /** The member is an object with symbols, one of which defines the name. */
  predicate MemberDefines(m: Member, name: seq<byte>) {
    m.isObject && m.hasSyms && exists k :: 0 <= k < |m.syms| && Defines(m.syms[k], name)
  }

  predicate Before(a: (nat, nat), b: (nat, nat)) {
    a.0 < b.0 || (a.0 == b.0 && a.1 < b.1)
  }

  /** The entries are exactly the exported symbols, each occurrence once, by element and then by symbol; `at` says
      which is which. */
  ghost predicate IndexedBy(ms: seq<Member>, es: seq<Orl>, at: seq<(nat, nat)>) {
    && |at| == |es|
    && (forall i :: 0 <= i < |es| ==>
          Exported(ms, at[i].0, at[i].1) && es[i].elt == at[i].0 && es[i].name == ms[at[i].0].syms[at[i].1].name)
    && (forall i, j :: 0 <= i < j < |at| ==> Before(at[i], at[j]))
    && (forall e: nat, k: nat :: Exported(ms, e, k) ==> (e, k) in at)
  }

  /** The same for one element. */
  ghost predicate PickedBy(syms: seq<Symbol>, added: seq<Orl>, elt: nat, at: seq<nat>) {
    && |at| == |added|
    && (forall i :: 0 <= i < |added| ==>
          at[i] < |syms| && Defines(syms[at[i]], added[i].name) && added[i].elt == elt)
    && (forall i, j :: 0 <= i < j < |at| ==> at[i] < at[j])
    && (forall k :: 0 <= k < |syms| && Defines(syms[k], syms[k].name) ==> k in at)
  }

  lemma {:induction false} PicksAll(es: seq<Orl>, syms: seq<Symbol>, elt: nat) returns (added: seq<Orl>, at: seq<nat>)
    ensures AddSyms(es, syms, elt) == es + added && PickedBy(syms, added, elt, at)
  {
    added, at := [], [];
    if syms != [] {
      var n := |syms| - 1;
      var s, r := syms[n], AddSyms(es, syms[..n], elt);
      added, at := PicksAll(es, syms[..n], elt);
      if Defines(s, s.name) {
        var more, at' := added + [Orl(s.name, elt, StrLen(r))], at + [n];
        forall k | 0 <= k < |syms| && Defines(syms[k], syms[k].name)
          ensures k in at'
        {
          if k == n {
            assert at'[|at|] == n;
          } else {
            assert syms[..n][k] == syms[k] && k in at;
          }
        }
        added, at := more, at';
      } else {
        forall k | 0 <= k < |syms| && Defines(syms[k], syms[k].name)
          ensures k in at
        {
          assert syms[..n][k] == syms[k];
        }
      }
    }
  }

  function InElement(e: nat, at: seq<nat>): (r: seq<(nat, nat)>)
    ensures |r| == |at| && forall i :: 0 <= i < |at| ==> r[i] == (e, at[i])
  {
    seq(|at|, i requires 0 <= i < |at| => (e, at[i]))
  }

  /** What the index lists. */
  lemma {:induction false} EntriesAreExported(ms: seq<Member>) returns (at: seq<(nat, nat)>)
    ensures IndexedBy(ms, Entries(ms), at)
  {
    at := [];
    if ms != [] {
      var n := |ms| - 1;
      var before := EntriesAreExported(ms[..n]);
      if ms[n].isObject && ms[n].hasSyms {
        var added, picked := PicksAll(Entries(ms[..n]), ms[n].syms, n);
        at := before + InElement(n, picked);
        OneMoreElement(ms, Entries(ms[..n]), before, added, picked);
      } else {
        at := before;
        forall e: nat, k: nat | Exported(ms, e, k)
          ensures (e, k) in at
        {
          assert Exported(ms[..n], e, k);
        }
      }
    }
  }

  /** The element of an entry defines the entry's name. */
  lemma EntryDefined(ms: seq<Member>, i: nat)
    requires i < |Entries(ms)|
    ensures Entries(ms)[i].elt < |ms| && MemberDefines(ms[Entries(ms)[i].elt], Entries(ms)[i].name)
  {
    hide Entries;
    var at := EntriesAreExported(ms);
    assert Exported(ms, at[i].0, at[i].1);
  }

  lemma OneMoreElement(ms: seq<Member>, es: seq<Orl>, at: seq<(nat, nat)>, added: seq<Orl>, picked: seq<nat>)
    requires ms != [] && ms[|ms| - 1].isObject && ms[|ms| - 1].hasSyms
    requires IndexedBy(ms[..|ms| - 1], es, at) && PickedBy(ms[|ms| - 1].syms, added, |ms| - 1, picked)
    ensures IndexedBy(ms, es + added, at + InElement(|ms| - 1, picked))
  {
    var n, all := |ms| - 1, at + InElement(|ms| - 1, picked);
    forall e: nat, k: nat | Exported(ms, e, k)
      ensures (e, k) in all
    {
      if e < n {
        assert Exported(ms[..n], e, k) && (e, k) in at;
      } else {
        var i :| 0 <= i < |picked| && picked[i] == k;
        assert all[|at| + i] == (e, k);
      }
    }
    forall i | 0 <= i < |es + added|
      ensures Exported(ms, all[i].0, all[i].1) && (es + added)[i].elt == all[i].0
        && (es + added)[i].name == ms[all[i].0].syms[all[i].1].name
    {
      if i < |es| {
        assert Exported(ms[..n], at[i].0, at[i].1);
      } else {
        assert Defines(ms[n].syms[picked[i - |es|]], added[i - |es|].name);
      }
    }
    forall i, j | 0 <= i < j < |all|
      ensures Before(all[i], all[j])
    {
      if j < |at| {
        assert Before(at[i], at[j]);
      } else if i < |at| {
        assert Exported(ms[..n], at[i].0, at[i].1);
      }
    }
  }

  method AddSymbols(es: seq<Orl>, stridx: nat, syms: seq<Symbol>, elt: nat)
    returns (map': seq<Orl>, stridx': nat)
    requires stridx == StrLen(es)
    ensures map' == AddSyms(es, syms, elt) && stridx' == StrLen(map')
  {
    map', stridx' := es, stridx;
    for j := 0 to |syms|
      invariant map' == AddSyms(es, syms[..j], elt) && stridx' == StrLen(map')
    {
      assert syms[..j + 1][..j] == syms[..j];
      if InMap(syms[j]) {
        var e := Orl(syms[j].name, elt, stridx');
        assert (map' + [e])[..|map'|] == map';
        map', stridx' := map' + [e], stridx' + |syms[j].name| + 1;
      }
    }
    assert syms[..|syms|] == syms;
  }

  /** The element loop of `_bfd_compute_and_write_armap`, and in it the symbol loop. */
  method ComputeMap(ms: seq<Member>) returns (map': seq<Orl>, stridx: nat)
    ensures map' == Entries(ms) && stridx == StrLen(map')
    ensures exists at :: IndexedBy(ms, map', at)
  {
    map', stridx := [], 0;
    for i := 0 to |ms|
      invariant map' == Entries(ms[..i]) && stridx == StrLen(map')
    {
      assert ms[..i + 1][..i] == ms[..i];
      if ms[i].isObject && ms[i].hasSyms {
        map', stridx := AddSymbols(map', stridx, ms[i].syms, i);
      }
    }
    assert ms[..|ms|] == ms;
    ghost var at := EntriesAreExported(ms);
  }

  // ---- predicted positions ---------------------------------------------

  function Even(p: nat): (r: nat)
    ensures r % 2 == 0 && p <= r <= p + 1
  {
    p + p % 2
  }

  /** How `_bfd_bsd_write_armap` steps over a member. */
  function BsdStep(p: nat, m: Member): nat {
    Even(p + |m.contents| + m.extra + HDR_SIZE)
  }

  /** How `_bfd_coff_write_armap` does. */
  function CoffStep(thin: bool, p: nat, m: Member): nat {
    if thin then p + HDR_SIZE else Even(p + HDR_SIZE + |m.contents|)
  }

  /** How `_bfd_archive_64_bit_write_armap` does. */
  function Sym64Step(thin: bool, p: nat, m: Member): nat {
    Even(p + HDR_SIZE + if thin then 0 else |m.contents|)
  }

  datatype Armap = BsdForm | CoffForm | Sym64Form

  function Step(form: Armap, thin: bool, p: nat, m: Member): nat {
    match form
    case BsdForm => BsdStep(p, m)
    case CoffForm => CoffStep(thin, p, m)
    case Sym64Form => Sym64Step(thin, p, m)
  }

  /** Where a writer of the given form expects member `k`'s header, if the first is at `first`. */
  function Predicted(form: Armap, thin: bool, first: nat, ms: seq<Member>, k: nat): (p: nat)
    requires k <= |ms|
    ensures p >= first
  {
    if k == 0 then first else Step(form, thin, Predicted(form, thin, first, ms, k - 1), ms[k - 1])
  }

  // ---- the bytes of the three forms ------------------------------------

  function Offsets(form: Armap, thin: bool, first: nat, ms: seq<Member>, es: seq<Orl>): (r: seq<nat>)
    requires Ordered(es, |ms|)
    ensures |r| == |es|
    ensures forall i :: 0 <= i < |es| ==> r[i] == Predicted(form, thin, first, ms, es[i].elt)
  {
    seq(|es|, i requires 0 <= i < |es| => Predicted(form, thin, first, ms, es[i].elt))
  }

  predicate AllFit(offs: seq<nat>) {
    forall i :: 0 <= i < |offs| ==> offs[i] < TWO32
  }

  function RanlibBytes(es: seq<Orl>, offs: seq<nat>, big: bool): (r: seq<byte>)
    requires |es| == |offs|
    ensures |r| == 8 * |es|
  {
    if es == [] then []
    else
      var n := |es| - 1;
      RanlibBytes(es[..n], offs[..n], big) + Put32(es[n].namidx, big) + Put32(offs[n], big)
  }

  /** Big-endian offsets, of eight bytes each or of four. */
  function OffsetBytes(offs: seq<nat>, wide: bool): (r: seq<byte>)
    ensures |r| == if wide then 8 * |offs| else 4 * |offs|
  {
    if offs == [] then []
    else
      var n := |offs| - 1;
      OffsetBytes(offs[..n], wide) + PutBe(offs[n], if wide then 8 else 4)
  }

  /** The padded size of the index member for `n` symbols and `stridx` bytes of names, in the writers'
      `unsigned int` arithmetic. */
  function BsdMapSize(n: nat, stridx: nat): nat {
    U32(U32(8 * n) + U32(stridx + stridx % 2) + 8)
  }

  function CoffPadding(n: nat, stridx: nat): nat {
    U32(stridx + U32(4 * n + 4)) % 2
  }

  function CoffMapSize(n: nat, stridx: nat): nat {
    U32(U32(stridx + U32(4 * n + 4)) + CoffPadding(n, stridx))
  }

  function Sym64Padding(n: nat, stridx: nat): nat {
    (8 - U32(stridx + U32(8 * n + 8)) % 8) % 8
  }

  function Sym64MapSize(n: nat, stridx: nat): nat {
    U32(U32(stridx + U32(8 * n + 8)) + Sym64Padding(n, stridx))
  }

  function MapSize(form: Armap, n: nat, stridx: nat): (r: nat)
    ensures r < TWO32
  {
    match form
    case BsdForm => BsdMapSize(n, stridx)
    case CoffForm => CoffMapSize(n, stridx)
    case Sym64Form => Sym64MapSize(n, stridx)
  }

  /** The position each writer gives the first member; `elength` is the room of the name table. */
  function First(form: Armap, n: nat, stridx: nat, elength: nat): nat {
    U32(MapSize(form, n, stridx) + elength) + HDR_SIZE + SARMAG
  }

  function MapName(form: Armap): (r: seq<byte>)
    ensures |r| == 16
  {
    match form
    case BsdForm => Pad(SYMDEF, 16)
    case CoffForm => Pad([SLASH], 16)
    case Sym64Form => Pad(SYM64, 16)
  }

  function MapHdr(form: Armap, size: nat, misc: seq<byte>): (h: ArHdr)
    requires |misc| == 32 && size < TWO32
    ensures h.Valid()
  {
    SizeFits(size);
    ArHdr(MapName(form), misc, SizePad(size).value, ARFMAG)
  }

  function MapBody(form: Armap, big: bool, es: seq<Orl>, offs: seq<nat>): seq<byte>
    requires |es| == |offs|
  {
    match form
    case BsdForm =>
      Put32(U32(8 * |es|), big) + RanlibBytes(es, offs, big) + Put32(U32(StrLen(es) + StrLen(es) % 2), big)
      + Strings(es) + Zeros(StrLen(es) % 2)
    case CoffForm =>
      PutBe(|es|, 4) + OffsetBytes(offs, false) + Strings(es) + Zeros(CoffPadding(|es|, StrLen(es)))
    case Sym64Form =>
      PutBe(|es|, 8) + OffsetBytes(offs, true) + Strings(es) + Zeros(Sym64Padding(|es|, StrLen(es)))
  }

  /** The form the index of `ms` is written in: a 32-bit form whose offsets would not fit gives way
      to the 64-bit form. */
  function FormOf(fmt: Format, ms: seq<Member>, es: seq<Orl>, elength: nat): Armap
    requires Ordered(es, |ms|)
  {
    var form := if fmt.mapKind.BsdMap? then BsdForm else CoffForm;
    if AllFit(Offsets(form, fmt.thin, First(form, |es|, StrLen(es), elength), ms, es)) then form else Sym64Form
  }

  function FormBytes(form: Armap, fmt: Format, ms: seq<Member>, es: seq<Orl>, elength: nat, misc: seq<byte>): seq<byte>
    requires Ordered(es, |ms|) && |misc| == 32
  {
    HdrBytes(MapHdr(form, MapSize(form, |es|, StrLen(es)), misc))
    + MapBody(form, fmt.big, es, Offsets(form, fmt.thin, First(form, |es|, StrLen(es), elength), ms, es))
  }

  function ArmapBytes(fmt: Format, ms: seq<Member>, es: seq<Orl>, elength: nat, misc: seq<byte>): seq<byte>
    requires Ordered(es, |ms|) && |misc| == 32
  {
    FormBytes(FormOf(fmt, ms, es, elength), fmt, ms, es, elength, misc)
  }

  // ---- the writers -----------------------------------------------------

  lemma RanlibNext(es: seq<Orl>, offs: seq<nat>, n: nat, big: bool)
    requires n < |es| == |offs|
    ensures RanlibBytes(es[..n + 1], offs[..n + 1], big)
         == RanlibBytes(es[..n], offs[..n], big) + (Put32(es[n].namidx, big) + Put32(offs[n], big))
  {
    assert offs[..n + 1][..n] == offs[..n];
    assert es[..n + 1][..n] == es[..n];
  }

  lemma OffsetBytesNext(offs: seq<nat>, n: nat, wide: bool)
    requires n < |offs|
    ensures OffsetBytes(offs[..n + 1], wide) == OffsetBytes(offs[..n], wide) + PutBe(offs[n], if wide then 8 else 4)
  {
    assert offs[..n + 1][..n] == offs[..n];
  }

  method WriteStrings(es: seq<Orl>) returns (out: seq<byte>)
    ensures out == Strings(es)
  {
    out := [];
    for count := 0 to |es|
      invariant out == Strings(es[..count])
    {
      assert es[..count + 1][..count] == es[..count];
      out := out + es[count].name + [0];
    }
    assert es[..|es|] == es;
  }

  /** The pointer walk of `_bfd_bsd_write_armap` from the element `current` to the next symbol's. */
  method BsdAdvance(ms: seq<Member>, ghost thin: bool, ghost first: nat, firstreal: nat, current: nat, target: nat)
    returns (firstreal': nat)
    requires current <= target < |ms| && firstreal == Predicted(BsdForm, thin, first, ms, current)
    ensures firstreal' == Predicted(BsdForm, thin, first, ms, target)
  {
    hide Even;
    firstreal' := firstreal;
    var c := current;
    while c != target
      invariant current <= c <= target && firstreal' == Predicted(BsdForm, thin, first, ms, c)
      decreases target - c
    {
      firstreal' := firstreal' + (|ms[c].contents| + ms[c].extra + HDR_SIZE);
      EvenOf(firstreal');
      firstreal' := firstreal' + firstreal' % 2;
      c := c + 1;
    }
  }

  lemma EvenOf(p: nat)
    ensures Even(p) == p + p % 2
  {
  }

  /** The first pass of `_bfd_bsd_write_armap`: do all offsets fit in 32 bits? */
  method BsdOffsetsFit(fmt: Format, ms: seq<Member>, es: seq<Orl>, first: nat) returns (fit: bool)
    requires Ordered(es, |ms|)
    ensures fit == AllFit(Offsets(BsdForm, fmt.thin, first, ms, es))
  {
    ghost var offs := Offsets(BsdForm, fmt.thin, first, ms, es);
    var firstreal, current: nat := first, 0;
    for count := 0 to |es|
      invariant forall i :: 0 <= i < count ==> offs[i] < TWO32
      invariant current <= |ms| && (count < |es| ==> current <= es[count].elt)
      invariant firstreal == Predicted(BsdForm, fmt.thin, first, ms, current)
    {
      if es[count].elt != current {
        firstreal := BsdAdvance(ms, fmt.thin, first, firstreal, current, es[count].elt);
        current := es[count].elt;
      }
      assert firstreal == offs[count];
      if firstreal >= TWO32 {
        return false;
      }
    }
    return true;
  }

  /** The second pass: each symbol's name index and member position. */
  method BsdWriteOffsets(fmt: Format, ms: seq<Member>, es: seq<Orl>, first: nat)
    returns (out: seq<byte>)
    requires Ordered(es, |ms|)
    ensures out == RanlibBytes(es, Offsets(BsdForm, fmt.thin, first, ms, es), fmt.big)
  {
    ghost var offs := Offsets(BsdForm, fmt.thin, first, ms, es);
    out := [];
    var firstreal, current: nat := first, 0;
    for count := 0 to |es|
      invariant out == RanlibBytes(es[..count], offs[..count], fmt.big)
      invariant current <= |ms| && (count < |es| ==> current <= es[count].elt)
      invariant firstreal == Predicted(BsdForm, fmt.thin, first, ms, current)
    {
      if es[count].elt != current {
        firstreal := BsdAdvance(ms, fmt.thin, first, firstreal, current, es[count].elt);
        current := es[count].elt;
      }
      assert firstreal == offs[count];
      RanlibNext(es, offs, count, fmt.big);
      out := out + (Put32(es[count].namidx, fmt.big) + Put32(firstreal, fmt.big));
    }
    assert es[..|es|] == es && offs[..|es|] == offs;
  }

  /** `_bfd_bsd_write_armap`. */
  method BsdWriteArmap(fmt: Format, ms: seq<Member>, es: seq<Orl>, stridx: nat, elength: nat,
                       misc: seq<byte>)
    returns (out: seq<byte>)
    requires Ordered(es, |ms|) && |misc| == 32 && stridx == StrLen(es) && fmt.mapKind.BsdMap?
    ensures out == ArmapBytes(fmt, ms, es, elength, misc)
  {
    hide MapSize, First, U32, Put32, StrLen, HdrBytes, MapHdr, Predicted, Zeros;
    var first := First(BsdForm, |es|, stridx, elength);
    var fit := BsdOffsetsFit(fmt, ms, es, first);
    if !fit {
      out := Sym64WriteArmap(fmt, ms, es, stridx, elength, misc);
      return;
    }
    var ranlib := BsdWriteOffsets(fmt, ms, es, first);
    var strings := WriteStrings(es);
    var pad := WriteZeros(stridx % 2);
    out := HdrBytes(MapHdr(BsdForm, MapSize(BsdForm, |es|, stridx), misc))
      + (Put32(U32(8 * |es|), fmt.big) + ranlib + Put32(U32(stridx + stridx % 2), fmt.big) + strings + pad);
  }

  /** The inner loop of the COFF and 64-bit writers: the symbols of one element.  With `limit`, the
      walk stops at the first offset that needs more than 32 bits. */
  method WriteEltOffsets(es: seq<Orl>, current: nat, ptr: nat, limit: bool, wide: bool, count: nat,
                         out: seq<byte>, ghost offs: seq<nat>)
    returns (fit: bool, count': nat, out': seq<byte>)
    requires count <= |es| == |offs|
    requires forall j :: 0 <= j < |es| && es[j].elt == current ==> offs[j] == ptr
    requires out == OffsetBytes(offs[..count], wide)
    ensures count <= count' <= |es|
    ensures forall j :: count <= j < count' ==> es[j].elt == current
    ensures fit ==> (count' < |es| ==> es[count'].elt != current)
    ensures fit ==> out' == OffsetBytes(offs[..count'], wide)
    ensures fit && limit && count < count' ==> ptr < TWO32
    ensures !fit ==> limit && ptr >= TWO32 && count' < |es| && es[count'].elt == current
  {
    count', out' := count, out;
    while count' < |es| && es[count'].elt == current
      invariant count <= count' <= |es|
      invariant forall j :: count <= j < count' ==> es[j].elt == current
      invariant limit && count < count' ==> ptr < TWO32
      invariant out' == OffsetBytes(offs[..count'], wide)
      decreases |es| - count'
    {
      if limit && ptr >= TWO32 {
        return false, count', out';
      }
      OffsetBytesNext(offs, count', wide);
      out' := out' + PutBe(ptr, if wide then 8 else 4);
      count' := count' + 1;
    }
    return true, count', out';
  }

  /** How the pointer moves past an element, statement by statement. */
  method StepPast(form: Armap, thin: bool, ptr: nat, ms: seq<Member>, current: nat, ghost first: nat)
    returns (ptr': nat)
    requires !form.BsdForm? && current < |ms| && ptr == Predicted(form, thin, first, ms, current)
    ensures ptr' == Predicted(form, thin, first, ms, current + 1)
  {
    var m := ms[current];
    ptr' := ptr + HDR_SIZE;
    if form.CoffForm? {
      if !thin {
        ptr' := ptr' + |m.contents|;
        ptr' := ptr' + ptr' % 2;
      }
    } else {
      if !thin {
        ptr' := ptr' + |m.contents|;
      }
      ptr' := ptr' + ptr' % 2;
    }
  }

  /** The member loop of the COFF and 64-bit writers. */
  method WriteOffsets(form: Armap, thin: bool, ms: seq<Member>, es: seq<Orl>, first: nat, limit: bool)
    returns (fit: bool, out: seq<byte>)
    requires Ordered(es, |ms|) && !form.BsdForm?
    ensures var offs := Offsets(form, thin, first, ms, es);
      && fit == (!limit || AllFit(offs))
      && (fit ==> out == OffsetBytes(offs, form.Sym64Form?))
  {
    hide OffsetBytes, Step;
    ghost var offs := Offsets(form, thin, first, ms, es);
    out, fit := [], true;
    var ptr, current, count: nat := first, 0, 0;
    while current < |ms| && count < |es|
      invariant current <= |ms| && count <= |es|
      invariant ptr == Predicted(form, thin, first, ms, current)
      invariant count < |es| ==> current <= es[count].elt
      invariant limit ==> forall i :: 0 <= i < count ==> offs[i] < TWO32
      invariant out == OffsetBytes(offs[..count], form.Sym64Form?)
      decreases |ms| - current
    {
      assert forall j :: count <= j < |es| ==> es[count].elt <= es[j].elt;
      fit, count, out := WriteEltOffsets(es, current, ptr, limit, form.Sym64Form?, count, out, offs);
      if !fit {
        assert offs[count] >= TWO32;
        return;
      }
      ptr := StepPast(form, thin, ptr, ms, current, first);
      current := current + 1;
    }
    assert offs[..|es|] == offs;
  }

  method WriteZeros(n: nat) returns (out: seq<byte>)
    ensures out == Zeros(n)
  {
    out := [];
    var padding: nat := n;
    while padding != 0
      invariant padding <= n && out == Zeros(n - padding)
      decreases padding
    {
      out := out + [0];
      padding := padding - 1;
    }
  }

  /** `_bfd_coff_write_armap`. */
  method CoffWriteArmap(fmt: Format, ms: seq<Member>, es: seq<Orl>, stridx: nat, elength: nat,
                        misc: seq<byte>)
    returns (out: seq<byte>)
    requires Ordered(es, |ms|) && |misc| == 32 && stridx == StrLen(es) && fmt.mapKind.CoffMap?
    ensures out == ArmapBytes(fmt, ms, es, elength, misc)
  {
    var first := First(CoffForm, |es|, stridx, elength);
    var fit, offsets := WriteOffsets(CoffForm, fmt.thin, ms, es, first, true);
    if !fit {
      out := Sym64WriteArmap(fmt, ms, es, stridx, elength, misc);
      return;
    }
    fit, offsets := WriteOffsets(CoffForm, fmt.thin, ms, es, first, true);
    var strings := WriteStrings(es);
    var pad := WriteZeros(CoffPadding(|es|, stridx));
    out := HdrBytes(MapHdr(CoffForm, MapSize(CoffForm, |es|, stridx), misc))
      + (PutBe(|es|, 4) + offsets + strings + pad);
  }

  /** `_bfd_archive_64_bit_write_armap`. */
  method Sym64WriteArmap(fmt: Format, ms: seq<Member>, es: seq<Orl>, stridx: nat, elength: nat,
                         misc: seq<byte>)
    returns (out: seq<byte>)
    requires Ordered(es, |ms|) && |misc| == 32 && stridx == StrLen(es)
    ensures out == FormBytes(Sym64Form, fmt, ms, es, elength, misc)
  {
    var first := First(Sym64Form, |es|, stridx, elength);
    var _, offsets := WriteOffsets(Sym64Form, fmt.thin, ms, es, first, false);
    var strings := WriteStrings(es);
    var pad := WriteZeros(Sym64Padding(|es|, stridx));
    out := HdrBytes(MapHdr(Sym64Form, MapSize(Sym64Form, |es|, stridx), misc))
      + (PutBe(|es|, 8) + offsets + strings + pad);
  }
}
