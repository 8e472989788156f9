// The symbol index is written before the members, from predicted offsets.  When do they come true?
module ArLayout {
  import opened Bytes
  import opened ArFormat
  import opened ArNames
  import opened ArArmap
  import opened ArWrite

  function ExtLen(fmt: Format, m: Member): nat
    requires m.Valid()
  {
    if fmt.style.Bsd44? && IsBsd44Name(m.hdr.name) then Padded4(|Name(m)|) else 0
  }

  /** The room a member takes in the archive. */
  function Span(fmt: Format, m: Member): nat
    requires m.Valid()
  {
    HDR_SIZE + ExtLen(fmt, m) + if fmt.thin then 0 else Even(|m.contents|)
  }

  lemma SpanIs(fmt: Format, m: Member)
    requires Writable(fmt, m)
    ensures |MemberBytes(fmt, m)| == Span(fmt, m) && |Ext(fmt, m)| == ExtLen(fmt, m)
  {
  }

  /** Where member `k`'s header really is, if the first is at `first`. */
  function Actual(fmt: Format, first: nat, ms: seq<Member>, k: nat): nat
    requires k <= |ms| && ValidChain(ms)
  {
    if k == 0 then first else Actual(fmt, first, ms, k - 1) + Span(fmt, ms[k - 1])
  }

  lemma {:induction false} ActualIs(fmt: Format, first: nat, ms: seq<Member>, k: nat)
    requires k <= |ms| && AllWritable(fmt, ms)
    ensures Actual(fmt, first, ms, k) == first + |MembersBytes(fmt, ms[..k])|
  {
    if k == 0 {
      assert ms[..0] == [];
    } else {
      ActualIs(fmt, first, ms, k - 1);
      SpanIs(fmt, ms[k - 1]);
      MembersNext(fmt, ms, k - 1);
    }
  }

  lemma {:induction false} MemberAt(fmt: Format, ms: seq<Member>, k: nat)
    requires k < |ms| && AllWritable(fmt, ms)
    ensures At(MembersBytes(fmt, ms), |MembersBytes(fmt, ms[..k])|, MemberBytes(fmt, ms[k]))
  {
    var n := |ms| - 1;
    var a, b := MembersBytes(fmt, ms[..n]), MemberBytes(fmt, ms[n]);
    AtParts(a, b);
    if k < n {
      MemberAt(fmt, ms[..n], k);
      assert ms[..n][..k] == ms[..k];
      AtInside(a + b, 0, a, |MembersBytes(fmt, ms[..k])|, MemberBytes(fmt, ms[k]));
    } else {
      assert ms[..k] == ms[..n];
    }
  }

  /** The writer of this form steps over the member by as much as the member takes. */
  predicate StepsRight(fmt: Format, form: Armap, m: Member)
    requires m.Valid()
  {
    match form
    case BsdForm => !fmt.thin || m.contents == []
    case CoffForm => ExtLen(fmt, m) == 0
    case Sym64Form => ExtLen(fmt, m) == 0
  }

  /** `extra_size` is the length of the BSD 4.4 name written after the header. */
  predicate ExtraRight(fmt: Format, m: Member)
    requires m.Valid()
  {
    m.extra == ExtLen(fmt, m)
  }

  lemma EvenShift(p: nat, c: nat)
    requires p % 2 == 0
    ensures Even(p + c) == p + Even(c)
  {
  }

  /** How far the writer of this form steps, from any even position. */
  function Stride(form: Armap, thin: bool, m: Member): nat {
    match form
    case BsdForm => Even(|m.contents| + m.extra + HDR_SIZE)
    case CoffForm => HDR_SIZE + if thin then 0 else Even(|m.contents|)
    case Sym64Form => HDR_SIZE + if thin then 0 else Even(|m.contents|)
  }

  lemma StepIsStride(form: Armap, thin: bool, p: nat, m: Member)
    requires p % 2 == 0
    ensures Step(form, thin, p, m) == p + Stride(form, thin, m) && Stride(form, thin, m) % 2 == 0
  {
    EvenShift(p, |m.contents| + m.extra + HDR_SIZE);
    EvenShift(p + HDR_SIZE, |m.contents|);
  }

  lemma StrideIs(fmt: Format, form: Armap, m: Member)
    requires m.Valid()
    requires form.BsdForm? ==> ExtraRight(fmt, m)
    ensures var s, a := Stride(form, fmt.thin, m), Span(fmt, m);
      && a % 2 == 0
      && (s == a <==> StepsRight(fmt, form, m))
      && (if form.BsdForm? then s >= a else s <= a)
  {
    hide ExtLen, Even;
    ExtEven(fmt, m);
    if form.BsdForm? {
      EvenShift(m.extra + HDR_SIZE, |m.contents|);
    }
  }

  lemma ExtEven(fmt: Format, m: Member)
    requires m.Valid()
    ensures ExtLen(fmt, m) % 2 == 0
  {
    hide IsBsd44Name, Name, Padded4;
    FourIsEven(Padded4(|Name(m)|));
  }

  lemma FourIsEven(n: nat)
    requires n % 4 == 0
    ensures n % 2 == 0
  {
    assert n == 4 * (n / 4);
  }

  /** A predicted position is right exactly when the writer steps right over every member before it:
      always in the BSD form of an ordinary archive; in the BSD form of a thin archive only past
      empty members, since that writer counts contents a thin archive does not store; in the other
      forms only past members with no BSD 4.4 name. */
  lemma {:induction false} PredictedIffSteps(fmt: Format, form: Armap, first: nat, ms: seq<Member>, k: nat)
    requires k <= |ms| && ValidChain(ms) && first % 2 == 0
    requires form.BsdForm? ==> forall j :: 0 <= j < |ms| ==> ExtraRight(fmt, ms[j])
    ensures var p, a := Predicted(form, fmt.thin, first, ms, k), Actual(fmt, first, ms, k);
      && p % 2 == 0
      && (if form.BsdForm? then p >= a else p <= a)
      && (p == a <==> forall j :: 0 <= j < k ==> StepsRight(fmt, form, ms[j]))
  {
    if k > 0 {
      PredictedIffSteps(fmt, form, first, ms, k - 1);
      StepIsStride(form, fmt.thin, Predicted(form, fmt.thin, first, ms, k - 1), ms[k - 1]);
      StrideIs(fmt, form, ms[k - 1]);
    }
  }

  /** Headers made for files of the file system have the right `extra_size` in every style. */
  lemma FreshExtra(fmt: Format, ms: seq<Member>, k: nat)
    requires ValidChain(ms) && AllPrepared(fmt, ms) && k < |ms| && !ms[k].haveHdr
    ensures var m := NamedChain(fmt, PreparedChain(fmt, ms))[k];
      ExtraRight(fmt, m) && (!fmt.style.Bsd44? ==> ExtLen(fmt, m) == 0)
  {
    var p := Prepared(fmt, ms[k]).value;
    assert PreparedChain(fmt, ms)[k] == p;
    if fmt.style.Bsd44? {
      var n := Name(p);
      BasenameIs(p.filename);
      if |n| > Limit(fmt) || SPACE in n {
        var d := Dec(Padded4(|n|));
        var text := [HASH, 49, SLASH] + d;
        assert text[3] == d[0];
        assert SpacePad(text, Limit(fmt))[..4] == text[..4];
        assert forall i :: 0 <= i < 4 ==> SpacePad(text, Limit(fmt))[i] == SpacePad(text, Limit(fmt))[..4][i];
        assert IsBsd44Name(Bsd44Member(fmt, p).hdr.name);
      } else {
        FreshNotBsd44(fmt, n);
      }
    }
  }

  lemma FreshNotBsd44(fmt: Format, n: seq<byte>)
    requires |n| <= Limit(fmt) && SLASH !in n && !fmt.style.Svr4?
    ensures !IsBsd44Name(FreshName(fmt, n))
  {
    var r := FreshName(fmt, n);
    if |n| > 2 {
      assert r[2] == n[2];
      assert n[2] in n;
    }
  }

  // ---- the archive's layout --------------------------------------------

  /** The sizes the writers keep in `unsigned int` do not wrap. */
  predicate NoWrap(n: nat, stridx: nat, tableLen: nat) {
    8 * n + stridx + tableLen + 100 < TWO32
  }

  lemma RoomIsExact(fmt: Format, table: seq<byte>)
    requires |table| + 100 < TWO32 && TableBytes(fmt, table).Some?
    ensures TableRoom(|table|) == |TableBytes(fmt, table).value|
    ensures TableRoom(|table|) % 2 == 0 && TableRoom(|table|) <= |table| + 61
  {
  }

  /** The unpadded size of the index member and its padding. */
  function RawSize(form: Armap, n: nat, stridx: nat): nat {
    match form
    case BsdForm => 8 * n + 8 + stridx
    case CoffForm => 4 * n + 4 + stridx
    case Sym64Form => 8 * n + 8 + stridx
  }

  function MapPad(form: Armap, n: nat, stridx: nat): nat {
    match form
    case BsdForm => stridx % 2
    case CoffForm => CoffPadding(n, stridx)
    case Sym64Form => Sym64Padding(n, stridx)
  }

  lemma EvenSum(x: nat, m: nat)
    requires m == 2 || m == 8
    ensures (x + (m - x % m) % m) % 2 == 0 && (m == 2 ==> (m - x % m) % m == x % 2)
  {
  }

  lemma MapSizeExact(form: Armap, n: nat, stridx: nat)
    requires 8 * n + stridx + 30 < TWO32
    ensures MapSize(form, n, stridx)
      == RawSize(form, n, stridx) + MapPad(form, n, stridx) < RawSize(form, n, stridx) + 8
    ensures MapSize(form, n, stridx) % 2 == 0
  {
    hide BsdMapSize, CoffMapSize, Sym64MapSize, CoffPadding, Sym64Padding;
    match form
    case BsdForm => BsdSizeExact(n, stridx);
    case CoffForm => CoffSizeExact(n, stridx);
    case Sym64Form => Sym64SizeExact(n, stridx);
  }

  lemma BsdSizeExact(n: nat, stridx: nat)
    requires 8 * n + stridx + 30 < TWO32
    ensures BsdMapSize(n, stridx) == 8 * n + 8 + stridx + stridx % 2
    ensures (8 * n + 8 + stridx + stridx % 2) % 2 == 0
  {
    hide U32;
    assert U32(8 * n) == 8 * n && U32(stridx + stridx % 2) == stridx + stridx % 2;
    EvenSum(stridx, 2);
  }

  lemma CoffSizeExact(n: nat, stridx: nat)
    requires 8 * n + stridx + 30 < TWO32
    ensures CoffMapSize(n, stridx) == 4 * n + 4 + stridx + CoffPadding(n, stridx)
    ensures CoffPadding(n, stridx) < 2 && (4 * n + 4 + stridx + CoffPadding(n, stridx)) % 2 == 0
  {
    hide U32;
    assert U32(4 * n + 4) == 4 * n + 4;
    var x := stridx + 4 * n + 4;
    assert U32(x) == x;
    EvenSum(x, 2);
  }

  lemma Sym64SizeExact(n: nat, stridx: nat)
    requires 8 * n + stridx + 30 < TWO32
    ensures Sym64MapSize(n, stridx) == 8 * n + 8 + stridx + Sym64Padding(n, stridx)
    ensures Sym64Padding(n, stridx) < 8 && (8 * n + 8 + stridx + Sym64Padding(n, stridx)) % 2 == 0
  {
    hide U32;
    assert U32(8 * n + 8) == 8 * n + 8;
    var x := stridx + 8 * n + 8;
    assert U32(x) == x;
    EvenSum(x, 8);
  }

  lemma BodyLength(form: Armap, big: bool, es: seq<Orl>, offs: seq<nat>)
    requires |es| == |offs|
    ensures |MapBody(form, big, es, offs)| == RawSize(form, |es|, StrLen(es)) + MapPad(form, |es|, StrLen(es))
  {
  }

  lemma ArmapLength(form: Armap, fmt: Format, ms: seq<Member>, es: seq<Orl>, room: nat, misc: seq<byte>)
    requires Ordered(es, |ms|) && |misc| == 32
    requires 8 * |es| + StrLen(es) + room + 30 < TWO32
    ensures |FormBytes(form, fmt, ms, es, room, misc)| == HDR_SIZE + MapSize(form, |es|, StrLen(es))
    ensures First(form, |es|, StrLen(es), room) == SARMAG + |FormBytes(form, fmt, ms, es, room, misc)| + room
    ensures MapSize(form, |es|, StrLen(es)) % 2 == 0
  {
    MapSizeExact(form, |es|, StrLen(es));
    BodyLength(form, fmt.big, es, Offsets(form, fmt.thin, First(form, |es|, StrLen(es), room), ms, es));
  }

  lemma PartsAt(a: seq<byte>, b: seq<byte>, c: seq<byte>, d: seq<byte>)
    ensures var s := a + b + c + d;
      At(s, 0, a) && At(s, |a|, b) && At(s, |a| + |b|, c) && At(s, |a| + |b| + |c|, d)
  {
    var s := a + b + c + d;
    assert s == a + (b + (c + d));
    AtSplit(s, 0, a, b + (c + d));
    AtSplit(s, |a|, b, c + d);
    AtSplit(s, |a| + |b|, c, d);
  }

  predicate Assembles(fmt: Format, kept: seq<Member>, table: seq<byte>, misc: seq<byte>) {
    AllWritable(fmt, kept) && TableBytes(fmt, table).Some? && |misc| == 32
  }

  /** Where the first member's header is. */
  function MembersStart(fmt: Format, indexed: bool, kept: seq<Member>, table: seq<byte>, misc: seq<byte>): nat
    requires Assembles(fmt, kept, table, misc)
  {
    SARMAG + |ArmapPart(fmt, indexed, kept, TableRoom(|table|), misc)| + |TableBytes(fmt, table).value|
  }

  /** Every member's header, name and contents are in the archive at the member's position. */
  lemma MemberInArchive(fmt: Format, indexed: bool, kept: seq<Member>, table: seq<byte>, misc: seq<byte>, k: nat)
    requires Assembles(fmt, kept, table, misc) && k < |kept|
    ensures At(Assemble(fmt, indexed, kept, table, misc),
               Actual(fmt, MembersStart(fmt, indexed, kept, table, misc), kept, k), MemberBytes(fmt, kept[k]))
  {
    hide MembersBytes, MemberBytes, ArmapPart, TableBytes, Magic, At;
    var out := Assemble(fmt, indexed, kept, table, misc);
    var start := MembersStart(fmt, indexed, kept, table, misc);
    PartsAt(Magic(fmt), ArmapPart(fmt, indexed, kept, TableRoom(|table|), misc), TableBytes(fmt, table).value,
      MembersBytes(fmt, kept));
    MemberAt(fmt, kept, k);
    ActualIs(fmt, start, kept, k);
    AtInside(out, start, MembersBytes(fmt, kept), |MembersBytes(fmt, kept[..k])|, MemberBytes(fmt, kept[k]));
  }

  // ---- the index of an archive -----------------------------------------

  /** The form the index is written in. */
  function IndexForm(fmt: Format, kept: seq<Member>, table: seq<byte>): Armap
    requires ValidChain(kept)
  {
    EntriesOrdered(kept);
    FormOf(fmt, kept, Entries(kept), TableRoom(|table|))
  }

  /** The offsets stored in the index, in symbol order. */
  function IndexOffsets(fmt: Format, kept: seq<Member>, table: seq<byte>): (offs: seq<nat>)
    requires ValidChain(kept)
    ensures |offs| == |Entries(kept)|
  {
    EntriesOrdered(kept);
    var es, form := Entries(kept), IndexForm(fmt, kept, table);
    Offsets(form, fmt.thin, First(form, |es|, StrLen(es), TableRoom(|table|)), kept, es)
  }

  predicate Fits(kept: seq<Member>, table: seq<byte>) {
    NoWrap(|Entries(kept)|, StrLen(Entries(kept)), |table|)
  }

  lemma IndexStart(fmt: Format, kept: seq<Member>, table: seq<byte>, misc: seq<byte>)
    requires Assembles(fmt, kept, table, misc) && Fits(kept, table)
    ensures var es, form := Entries(kept), IndexForm(fmt, kept, table);
      && ArmapPart(fmt, true, kept, TableRoom(|table|), misc)
         == HdrBytes(MapHdr(form, MapSize(form, |es|, StrLen(es)), misc))
            + MapBody(form, fmt.big, es, IndexOffsets(fmt, kept, table))
      && First(form, |es|, StrLen(es), TableRoom(|table|)) == MembersStart(fmt, true, kept, table, misc)
      && MembersStart(fmt, true, kept, table, misc) % 2 == 0
  {
    hide MapHdr, MapBody, Offsets, TableBytes, HdrBytes, FormOf, MapSize, First, TableRoom, Entries, StrLen,
      MembersBytes;
    EntriesOrdered(kept);
    RoomIsExact(fmt, table);
    ArmapLength(IndexForm(fmt, kept, table), fmt, kept, Entries(kept), TableRoom(|table|), misc);
  }

  /** The main result about the index: in the archive as written, the offset stored for a symbol is
      the position of its member's header if and only if the writer stepped right over every earlier
      member. */
  lemma IndexAgreesWithLayout(fmt: Format, kept: seq<Member>, table: seq<byte>, misc: seq<byte>, i: nat)
    requires Assembles(fmt, kept, table, misc) && Fits(kept, table) && i < |Entries(kept)|
    requires IndexForm(fmt, kept, table).BsdForm? ==> forall j :: 0 <= j < |kept| ==> ExtraRight(fmt, kept[j])
    ensures Ordered(Entries(kept), |kept|)
    ensures var k := Entries(kept)[i].elt;
      var position := Actual(fmt, MembersStart(fmt, true, kept, table, misc), kept, k);
      && At(Assemble(fmt, true, kept, table, misc), position, MemberBytes(fmt, kept[k]))
      && (IndexOffsets(fmt, kept, table)[i] == position
          <==> forall j :: 0 <= j < k ==> StepsRight(fmt, IndexForm(fmt, kept, table), kept[j]))
  {
    hide MembersBytes, MemberBytes, MembersStart, Assemble, Ext, ExtLen, StepsRight;
    EntriesOrdered(kept);
    var k := Entries(kept)[i].elt;
    MemberInArchive(fmt, true, kept, table, misc, k);
    IndexStart(fmt, kept, table, misc);
    PredictedIffSteps(fmt, IndexForm(fmt, kept, table), MembersStart(fmt, true, kept, table, misc), kept, k);
  }

  lemma FilesExtra(fmt: Format, makemap: bool, ms: seq<Member>)
    requires ValidChain(ms) && AllPrepared(fmt, ms)
    requires forall j :: 0 <= j < |ms| ==> !ms[j].haveHdr
    ensures var kept := FinalChain(fmt, makemap, ms);
      forall j :: 0 <= j < |kept| ==> ExtraRight(fmt, kept[j]) && (!fmt.style.Bsd44? ==> ExtLen(fmt, kept[j]) == 0)
  {
    hide ExtraRight, ExtLen, PreparedChain, NamedChain, HasObjects, AllPrepared;
    var kept, named := FinalChain(fmt, makemap, ms), NamedChain(fmt, PreparedChain(fmt, ms));
    forall j | 0 <= j < |kept|
      ensures ExtraRight(fmt, kept[j]) && (!fmt.style.Bsd44? ==> ExtLen(fmt, kept[j]) == 0)
    {
      assert kept[j] == named[|named| - |kept| + j];
      FreshExtra(fmt, ms, |named| - |kept| + j);
    }
  }

  /** In an ordinary archive of files taken from the file system, every stored offset is right, unless
      BSD 4.4 names meet an index that is not in BSD form. */
  lemma IndexRightForFiles(fmt: Format, ms: seq<Member>, misc: seq<byte>, i: nat)
    requires ValidChain(ms) && |misc| == 32 && AllPrepared(fmt, ms) && HasObjects(ms)
    requires forall j :: 0 <= j < |ms| ==> !ms[j].haveHdr
    requires ArchiveBytes(fmt, true, ms, misc).Some?
    requires var kept, table := FinalChain(fmt, true, ms), FinalTable(fmt, ms);
      && Fits(kept, table) && i < |Entries(kept)|
      && if IndexForm(fmt, kept, table).BsdForm? then !fmt.thin else !fmt.style.Bsd44?
    ensures var kept, table := FinalChain(fmt, true, ms), FinalTable(fmt, ms);
      && Ordered(Entries(kept), |kept|) && AllWritable(fmt, kept)
      && At(ArchiveBytes(fmt, true, ms, misc).value, IndexOffsets(fmt, kept, table)[i],
            MemberBytes(fmt, kept[Entries(kept)[i].elt]))
  {
    hide MembersBytes, MemberBytes, Assemble, Ext, ExtLen, ExtraRight, MembersStart, FinalTable, FinalChain, Entries,
      Actual, IndexOffsets, IndexForm, Fits, At;
    var kept, table := FinalChain(fmt, true, ms), FinalTable(fmt, ms);
    FilesExtra(fmt, true, ms);
    StepsRightIf(fmt, IndexForm(fmt, kept, table), kept);
    IndexAgreesWithLayout(fmt, kept, table, misc, i);
  }

  lemma StepsRightIf(fmt: Format, form: Armap, kept: seq<Member>)
    requires ValidChain(kept)
    requires if form.BsdForm? then !fmt.thin else forall j :: 0 <= j < |kept| ==> ExtLen(fmt, kept[j]) == 0
    ensures forall j :: 0 <= j < |kept| ==> StepsRight(fmt, form, kept[j])
  {
  }
}
