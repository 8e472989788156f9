// A written archive byte for byte, and what the scanners of its fields make of other bytes.
module ArOnDisk {
  import opened Bytes
  import opened ArFormat
  import opened ArNames
  import opened ArArmap
  import opened ArWrite
  import opened ArLayout
  import opened ArRead
  import opened ArIndex

  // ---- words -----------------------------------------------------------

  /** Four bytes as a number, most or least significant byte first. */
  function Big4(s: seq<byte>, p: nat): nat
    requires p + 4 <= |s|
  {
    var a: nat, b: nat, c: nat, d: nat := s[p], s[p + 1], s[p + 2], s[p + 3];
    0x100_0000 * a + 0x1_0000 * b + 0x100 * c + d
  }

  function Little4(s: seq<byte>, p: nat): nat
    requires p + 4 <= |s|
  {
    var a: nat, b: nat, c: nat, d: nat := s[p], s[p + 1], s[p + 2], s[p + 3];
    a + 0x100 * b + 0x1_0000 * c + 0x100_0000 * d
  }

  function Word(s: seq<byte>, p: nat, big: bool): nat
    requires p + 4 <= |s|
  {
    if big then Big4(s, p) else Little4(s, p)
  }

  function Big8(s: seq<byte>, p: nat): nat
    requires p + 8 <= |s|
  {
    0x1_0000_0000 * Big4(s, p) + Big4(s, p + 4)
  }

  lemma BeIs(s: seq<byte>)
    requires |s| == 4
    ensures GetBe(s) == Big4(s, 0)
  {
    assert s[..3][..2] == s[..2] && s[..2][..1] == s[..1] && s[..1][..0] == [];
    assert GetBe(s[..1]) == s[0] && GetBe(s[..2]) == 256 * GetBe(s[..1]) + s[1];
    assert GetBe(s[..3]) == 256 * GetBe(s[..2]) + s[2];
  }

  lemma LeIs(s: seq<byte>)
    requires |s| == 4
    ensures GetLe(s) == Little4(s, 0)
  {
    assert s[1..][1..] == s[2..] && s[2..][1..] == s[3..] && s[3..][1..] == [];
    assert GetLe(s[3..]) == s[3] && GetLe(s[2..]) == s[2] + 256 * GetLe(s[3..]);
    assert GetLe(s[1..]) == s[1] + 256 * GetLe(s[2..]);
  }

  lemma WordAt(s: seq<byte>, p: nat, v: nat, big: bool)
    requires At(s, p, Put32(v, big)) && v < TWO32
    ensures Word(s, p, big) == v
  {
    hide PutBe, PutLe, GetBe, GetLe;
    GetPut32(v, big);
    BeIs(s[p..p + 4]);
    LeIs(s[p..p + 4]);
  }

  lemma Big4At(s: seq<byte>, p: nat, v: nat)
    requires At(s, p, PutBe(v, 4)) && v < TWO32
    ensures Big4(s, p) == v
  {
    hide PutBe;
    WordAt(s, p, v, true);
  }

  lemma BeNext(s: seq<byte>, n: nat)
    requires n < |s|
    ensures GetBe(s[..n + 1]) == 256 * GetBe(s[..n]) + s[n]
  {
    assert s[..n + 1][..n] == s[..n];
  }

  /** Eight bytes are twice four. */
  lemma Halves(s: seq<byte>)
    requires |s| == 8
    ensures GetBe(s) == TWO32 * GetBe(s[..4]) + Big4(s, 4)
  {
    hide GetBe;
    BeNext(s, 4);
    BeNext(s, 5);
    BeNext(s, 6);
    BeNext(s, 7);
    assert s[..8] == s;
  }

  lemma Big8At(s: seq<byte>, p: nat, v: nat)
    requires At(s, p, PutBe(v, 8)) && v < TWO64
    ensures Big8(s, p) == v
  {
    hide PutBe, GetBe;
    Pow256Values();
    GetPutBe(v, 8);
    Halves(s[p..p + 8]);
    BeIs(s[p..p + 8][..4]);
  }

  // ---- headers ---------------------------------------------------------

  predicate Digits(s: seq<byte>) {
    forall i :: 0 <= i < |s| ==> 48 <= s[i] <= 57
  }

  /** From `lo` to `hi`: `n` decimal digits that make the number, and then spaces. */
  predicate Decimal(file: seq<byte>, lo: nat, hi: nat, n: nat, v: nat) {
    && 1 <= n && lo + n <= hi <= |file|
    && Digits(file[lo..lo + n]) && DigitsValue(file[lo..lo + n]) == v
    && forall i :: lo + n <= i < hi ==> file[i] == 0x20
  }

  /** The 60 bytes at `p` are a header with this name field and this size, ended by a backquote and a newline. */
  predicate HeaderAt(file: seq<byte>, p: nat, name: seq<byte>, size: nat) {
    && p + 60 <= |file| && |name| == 16 && file[p..p + 16] == name
    && Decimal(file, p + 48, p + 58, |Dec(size)|, size) && file[p + 58] == 0x60 && file[p + 59] == 0x0a
  }

  lemma HeaderIs(file: seq<byte>, p: nat, h: ArHdr, size: nat)
    requires h.Valid() && At(file, p, HdrBytes(h)) && SizePad(size) == Some(h.size) && h.fmag == ARFMAG
    ensures HeaderAt(file, p, h.name, size)
  {
    hide Dec, DigitsValue;
    AtSplit(file, p, h.name + h.misc + h.size, h.fmag);
    AtSplit(file, p, h.name + h.misc, h.size);
    AtSplit(file, p, h.name, h.misc);
    AtIndex(file, p + 58, h.fmag, 0);
    AtIndex(file, p + 58, h.fmag, 1);
    DigitsOfDec(size);
    var d := Dec(size);
    AtSplit(file, p + 48, d, Spaces(10 - |d|));
    AtSpaces(file, p + 48 + |d|, 10 - |d|);
  }

  lemma AtSpaces(file: seq<byte>, p: nat, n: nat)
    requires At(file, p, Spaces(n))
    ensures forall i :: p <= i < p + n ==> file[i] == 0x20
  {
    forall i | p <= i < p + n
      ensures file[i] == 0x20
    {
      AtIndex(file, p, Spaces(n), i - p);
    }
  }

  // ---- the start, and the members --------------------------------------

  /** An archive starts with "!<arch>" and a newline, a thin one with "!<thin>". */
  lemma MagicOnDisk(fmt: Format, indexed: bool, kept: seq<Member>, table: seq<byte>, misc: seq<byte>)
    requires Assembles(fmt, kept, table, misc)
    ensures At(Assemble(fmt, indexed, kept, table, misc), 0,
      if fmt.thin then [0x21, 0x3c, 0x74, 0x68, 0x69, 0x6e, 0x3e, 0x0a]
      else [0x21, 0x3c, 0x61, 0x72, 0x63, 0x68, 0x3e, 0x0a])
  {
    hide ArmapPart, TableBytes, MembersBytes;
    PartsAt(Magic(fmt), ArmapPart(fmt, indexed, kept, TableRoom(|table|), misc), TableBytes(fmt, table).value,
      MembersBytes(fmt, kept));
  }

  /** The length of a name behind its header, rounded up to whole words; 0 if it is in the header. */
  function Behind(fmt: Format, m: Member): nat
    requires m.hdr.Valid()
  {
    var n, f := |Name(m)|, m.hdr.name;
    if fmt.style.Bsd44? && f[..3] == [0x23, 0x31, 0x2f] && 48 <= f[3] <= 57 then (n + 3) / 4 * 4 else 0
  }

  /** A member in the archive: its header, whose size counts a name behind it; that name with NULs; unless the
      archive is thin the contents, with a newline behind them if their size is odd; and then the next member. */
  lemma MemberOnDisk(fmt: Format, indexed: bool, kept: seq<Member>, table: seq<byte>, misc: seq<byte>, k: nat)
    requires Assembles(fmt, kept, table, misc) && k < |kept|
    requires kept[k].hdr.fmag == ARFMAG && SizePad(|kept[k].contents|) == Some(kept[k].hdr.size)
    ensures var file, start, m := Assemble(fmt, indexed, kept, table, misc),
      MembersStart(fmt, indexed, kept, table, misc), kept[k];
      var p, b, size := Actual(fmt, start, kept, k), Behind(fmt, m), |m.contents|;
      && HeaderAt(file, p, m.hdr.name, size + b)
      && (b > 0 ==> At(file, p + 60, Name(m) + Zeros(b - |Name(m)|)))
      && (!fmt.thin ==> At(file, p + 60 + b, m.contents + if size % 2 == 1 then [0x0a] else []))
      && Actual(fmt, start, kept, k + 1) == p + 60 + b + if fmt.thin then 0 else (size + 1) / 2 * 2
  {
    hide Assemble, MembersStart, Actual, MemberBytes, SizePad, Name, AllWritable, Writable, Zeros, HeaderAt, Behind,
      TableBytes, At;
    var file, start, m := Assemble(fmt, indexed, kept, table, misc), MembersStart(fmt, indexed, kept, table, misc),
      kept[k];
    MemberInArchive(fmt, indexed, kept, table, misc, k);
    ChainWritable(fmt, kept, k);
    MemberSays(fmt, file, Actual(fmt, start, kept, k), m);
    NextActual(fmt, start, kept, k);
  }

  lemma ChainWritable(fmt: Format, kept: seq<Member>, k: nat)
    requires AllWritable(fmt, kept) && k < |kept|
    ensures Writable(fmt, kept[k]) && ValidChain(kept)
  {
    assert forall j :: 0 <= j < |kept| ==> Writable(fmt, kept[j]);
  }

  lemma BehindIs(fmt: Format, m: Member)
    requires m.Valid()
    ensures Behind(fmt, m) == ExtLen(fmt, m)
    ensures Behind(fmt, m) == 0 || Behind(fmt, m) >= |Name(m)|
  {
    hide Name;
  }

  lemma NextActual(fmt: Format, first: nat, ms: seq<Member>, k: nat)
    requires k < |ms| && ValidChain(ms)
    ensures Actual(fmt, first, ms, k + 1)
      == Actual(fmt, first, ms, k) + 60 + Behind(fmt, ms[k]) + if fmt.thin then 0 else (|ms[k].contents| + 1) / 2 * 2
  {
    hide ExtLen, Behind;
    BehindIs(fmt, ms[k]);
  }

  lemma MemberSays(fmt: Format, file: seq<byte>, p: nat, m: Member)
    requires Writable(fmt, m) && At(file, p, MemberBytes(fmt, m))
    requires m.hdr.fmag == ARFMAG && SizePad(|m.contents|) == Some(m.hdr.size)
    ensures var b, size := Behind(fmt, m), |m.contents|;
      && HeaderAt(file, p, m.hdr.name, size + b)
      && (b > 0 ==> b >= |Name(m)| && At(file, p + 60, Name(m) + Zeros(b - |Name(m)|)))
      && (!fmt.thin ==> At(file, p + 60 + b, m.contents + if size % 2 == 1 then [0x0a] else []))
  {
    hide HdrBytes, SizePad, Name, Zeros, HeaderAt, Padded4, At;
    AtSplit(file, p, HdrBytes(WrittenHdr(fmt, m)) + Ext(fmt, m), Stored(fmt, m));
    AtSplit(file, p, HdrBytes(WrittenHdr(fmt, m)), Ext(fmt, m));
    BehindIs(fmt, m);
    HeaderIs(file, p, WrittenHdr(fmt, m), |m.contents| + Behind(fmt, m));
  }

  // ---- the index -------------------------------------------------------

  /** The name field of the index's header, by its form: "__.SYMDEF", "/" or "/SYM64/". */
  function IndexName(form: Armap): seq<byte> {
    match form
    case BsdForm => [0x5f, 0x5f, 0x2e, 0x53, 0x59, 0x4d, 0x44, 0x45, 0x46] + Spaces(7)
    case CoffForm => [0x2f] + Spaces(15)
    case Sym64Form => [0x2f, 0x53, 0x59, 0x4d, 0x36, 0x34, 0x2f] + Spaces(9)
  }

  /** Where the strings are in the file. */
  function StringsAt(form: Armap, n: nat): nat {
    if form.CoffForm? then 72 + 4 * n else 76 + 8 * n
  }

  /** The size of the index: words and strings, rounded up to a whole number of the form's units. */
  function IndexSize(form: Armap, n: nat, strings: nat): nat {
    match form
    case BsdForm => (8 * n + 8 + strings + 1) / 2 * 2
    case CoffForm => (4 * n + 4 + strings + 1) / 2 * 2
    case Sym64Form => (8 * n + 8 + strings + 7) / 8 * 8
  }

  /** The words of an index for these entries and offsets: the number of entries and the offsets, big-endian; or, in
      BSD form, the size of the pairs, the pairs and the size of the strings, in the target's byte order. */
  predicate WordsAt(file: seq<byte>, form: Armap, big: bool, es: seq<Orl>, offs: seq<nat>)
    requires |es| == |offs|
  {
    var n := |es|;
    && StringsAt(form, n) <= |file|
    && match form
       case CoffForm => Big4(file, 68) == n && forall i :: 0 <= i < n ==> Big4(file, 72 + 4 * i) == offs[i]
       case Sym64Form => Big8(file, 68) == n && forall i :: 0 <= i < n ==> Big8(file, 76 + 8 * i) == offs[i]
       case BsdForm =>
         && Word(file, 68, big) == 8 * n && Word(file, 72 + 8 * n, big) == (StrLen(es) + 1) / 2 * 2
         && (forall i :: 0 <= i < n ==> Word(file, 72 + 8 * i, big) == es[i].namidx)
         && forall i :: 0 <= i < n ==> Word(file, 76 + 8 * i, big) == offs[i]
  }

  lemma {:induction false} OffsetsAt(file: seq<byte>, p: nat, offs: seq<nat>, wide: bool)
    requires At(file, p, OffsetBytes(offs, wide)) && Representable(offs, wide)
    ensures forall i :: 0 <= i < |offs| ==> if wide then Big8(file, p + 8 * i) == offs[i]
      else Big4(file, p + 4 * i) == offs[i]
  {
    hide PutBe, OffsetBytes, Big4, Big8;
    forall i | 0 <= i < |offs|
      ensures if wide then Big8(file, p + 8 * i) == offs[i] else Big4(file, p + 4 * i) == offs[i]
    {
      OffsetBytesAt(offs, wide, i);
      if wide {
        AtInside(file, p, OffsetBytes(offs, wide), 8 * i, PutBe(offs[i], 8));
        Big8At(file, p + 8 * i, offs[i]);
      } else {
        AtInside(file, p, OffsetBytes(offs, wide), 4 * i, PutBe(offs[i], 4));
        Big4At(file, p + 4 * i, offs[i]);
      }
    }
  }

  lemma ScanParts(form: Armap, big: bool, es: seq<Orl>, offs: seq<nat>)
    requires !form.BsdForm? && |es| == |offs|
    ensures var raw, wide := MapBody(form, big, es, offs), form.Sym64Form?;
      var w := if wide then 8 else 4;
      At(raw, 0, PutBe(|es|, w)) && At(raw, w, OffsetBytes(offs, wide)) && At(raw, w + w * |es|, Strings(es))
  {
    hide PutBe, OffsetBytes, Strings, CoffPadding, Sym64Padding, Zeros, At, StrLen;
    var wide := form.Sym64Form?;
    var pad := Zeros(if wide then Sym64Padding(|es|, StrLen(es)) else CoffPadding(|es|, StrLen(es)));
    PartsAt(PutBe(|es|, if wide then 8 else 4), OffsetBytes(offs, wide), Strings(es), pad);
  }

  lemma ScanWords(file: seq<byte>, form: Armap, big: bool, es: seq<Orl>, offs: seq<nat>)
    requires !form.BsdForm? && |es| == |offs| && |es| < TWO32 && Representable(offs, form.Sym64Form?)
    requires At(file, 68, MapBody(form, big, es, offs))
    ensures WordsAt(file, form, big, es, offs) && At(file, StringsAt(form, |es|), Strings(es))
  {
    hide PutBe, OffsetBytes, Strings, Big4, Big8, MapBody, At, StrLen, Representable;
    var raw, w, wide := MapBody(form, big, es, offs), if form.Sym64Form? then 8 else 4, form.Sym64Form?;
    ScanParts(form, big, es, offs);
    AtInside(file, 68, raw, 0, PutBe(|es|, w));
    AtInside(file, 68, raw, w, OffsetBytes(offs, wide));
    AtInside(file, 68, raw, w + w * |es|, Strings(es));
    AtFits(file, 68 + w, OffsetBytes(offs, wide));
    OffsetsAt(file, 68 + w, offs, wide);
    if wide {
      Big8At(file, 68, |es|);
    } else {
      Big4At(file, 68, |es|);
    }
  }

  lemma AtFits(file: seq<byte>, p: nat, part: seq<byte>)
    requires At(file, p, part)
    ensures p + |part| <= |file|
  {
  }

  lemma BsdWords(file: seq<byte>, big: bool, es: seq<Orl>, offs: seq<nat>)
    requires |es| == |offs| && Indexed(es) && AllFit(offs) && 8 * |es| + StrLen(es) + 30 < TWO32
    requires At(file, 68, MapBody(BsdForm, big, es, offs))
    ensures WordsAt(file, BsdForm, big, es, offs) && At(file, StringsAt(BsdForm, |es|), Strings(es))
  {
    hide Put32, RanlibBytes, Strings, StrLen, MapBody, Word, At, Indexed, AllFit;
    BsdSizes(file, big, es, offs);
    BsdLayout(es, offs, big);
    AtInside(file, 68, MapBody(BsdForm, big, es, offs), 8 + 8 * |es|, Strings(es));
    forall i | 0 <= i < |es|
      ensures Word(file, 72 + 8 * i, big) == es[i].namidx && Word(file, 76 + 8 * i, big) == offs[i]
    {
      BsdPair(file, big, es, offs, i);
    }
  }

  lemma BsdSizes(file: seq<byte>, big: bool, es: seq<Orl>, offs: seq<nat>)
    requires |es| == |offs| && 8 * |es| + StrLen(es) + 30 < TWO32
    requires At(file, 68, MapBody(BsdForm, big, es, offs))
    ensures 76 + 8 * |es| <= |file| && Word(file, 68, big) == 8 * |es|
    ensures Word(file, 72 + 8 * |es|, big) == (StrLen(es) + 1) / 2 * 2
  {
    hide Put32, RanlibBytes, Strings, StrLen, MapBody, Word, At;
    var raw, n, s := MapBody(BsdForm, big, es, offs), |es|, StrLen(es);
    BsdHead(es, offs, big);
    AtInside(file, 68, raw, 0, Put32(8 * n, big));
    AtInside(file, 68, raw, 4 + 8 * n, Put32(s + s % 2, big));
    AtFits(file, 72 + 8 * n, Put32(s + s % 2, big));
    WordAt(file, 68, 8 * n, big);
    WordAt(file, 72 + 8 * n, s + s % 2, big);
    RoundUp2(s);
  }

  lemma BsdPair(file: seq<byte>, big: bool, es: seq<Orl>, offs: seq<nat>, i: nat)
    requires i < |es| == |offs| && Indexed(es) && AllFit(offs) && 8 * |es| + StrLen(es) + 30 < TWO32
    requires At(file, 68, MapBody(BsdForm, big, es, offs))
    ensures 80 + 8 * i <= |file|
    ensures Word(file, 72 + 8 * i, big) == es[i].namidx && Word(file, 76 + 8 * i, big) == offs[i]
  {
    hide Put32, RanlibBytes, Strings, StrLen, MapBody, Word, At;
    var raw := MapBody(BsdForm, big, es, offs);
    BsdLayout(es, offs, big);
    RanlibAt(es, offs, big, i);
    AtInside(raw, 4, RanlibBytes(es, offs, big), 8 * i, Put32(es[i].namidx, big));
    AtInside(raw, 4, RanlibBytes(es, offs, big), 8 * i + 4, Put32(offs[i], big));
    AtInside(file, 68, raw, 4 + 8 * i, Put32(es[i].namidx, big));
    AtInside(file, 68, raw, 8 + 8 * i, Put32(offs[i], big));
    AtFits(file, 76 + 8 * i, Put32(offs[i], big));
    NameBelow(es, i);
    WordAt(file, 72 + 8 * i, es[i].namidx, big);
    WordAt(file, 76 + 8 * i, offs[i], big);
  }

  lemma NameBelow(es: seq<Orl>, i: nat)
    requires i < |es| && Indexed(es)
    ensures es[i].namidx < StrLen(es)
  {
    hide StrLen, Strings;
    StringAt(es, i);
  }

  lemma BsdHead(es: seq<Orl>, offs: seq<nat>, big: bool)
    requires |es| == |offs| && 8 * |es| + StrLen(es) + 30 < TWO32
    ensures var raw, s := MapBody(BsdForm, big, es, offs), StrLen(es);
      At(raw, 0, Put32(8 * |es|, big)) && At(raw, 4 + 8 * |es|, Put32(s + s % 2, big))
  {
    hide Put32, RanlibBytes, Strings, StrLen, Zeros, U32, At;
    var s := StrLen(es);
    var head, ranlib, len, rest := Put32(U32(8 * |es|), big), RanlibBytes(es, offs, big), Put32(U32(s + s % 2), big),
      Strings(es) + Zeros(s % 2);
    assert MapBody(BsdForm, big, es, offs) == head + ranlib + len + rest;
    PartsAt(head, ranlib, len, rest);
  }

  /** The index of an archive: right behind the magic, with a header of its own; the words of its form; then the
      names, each with its NUL, in order; and what pads the member, no more than the form wants. */
  lemma IndexOnDisk(fmt: Format, kept: seq<Member>, table: seq<byte>, misc: seq<byte>)
    requires Assembles(fmt, kept, table, misc) && Fits(kept, table)
    requires Representable(IndexOffsets(fmt, kept, table), true)
    ensures var file, form := Assemble(fmt, true, kept, table, misc), IndexForm(fmt, kept, table);
      var es, offs := Entries(kept), IndexOffsets(fmt, kept, table);
      var size := IndexSize(form, |es|, StrLen(es));
      && HeaderAt(file, 8, IndexName(form), size) && WordsAt(file, form, fmt.big, es, offs)
      && (forall i :: 0 <= i < |es| ==> At(file, StringsAt(form, |es|) + es[i].namidx, es[i].name + [0]))
      && MembersStart(fmt, true, kept, table, misc) == 68 + size + |TableBytes(fmt, table).value|
  {
    hide Assemble, MembersBytes, MapBody, TableBytes, TableRoom, Entries, IndexOffsets, IndexForm, StrLen, HeaderAt,
      WordsAt, HdrBytes, MapSize, At, Strings, Representable, IndexSize, MembersStart;
    var file, form := Assemble(fmt, true, kept, table, misc), IndexForm(fmt, kept, table);
    var es, offs := Entries(kept), IndexOffsets(fmt, kept, table);
    var size := MapSize(form, |es|, StrLen(es));
    OffsetsFit(fmt, kept, table);
    IndexPlaced(fmt, kept, table, misc);
    SizeFits(size);
    HeaderIs(file, 8, MapHdr(form, size, misc), size);
    NameIs(form);
    SizeIs(form, |es|, StrLen(es));
    IndexStart(fmt, kept, table, misc);
    StartIs(fmt, kept, table, misc);
    if form.BsdForm? {
      BsdWords(file, fmt.big, es, offs);
    } else {
      Narrow(form, offs);
      ScanWords(file, form, fmt.big, es, offs);
    }
    forall i | 0 <= i < |es|
      ensures At(file, StringsAt(form, |es|) + es[i].namidx, es[i].name + [0])
    {
      StringAt(es, i);
      AtInside(file, StringsAt(form, |es|), Strings(es), es[i].namidx, es[i].name + [0]);
    }
  }

  lemma Narrow(form: Armap, offs: seq<nat>)
    requires Representable(offs, true) && (!form.Sym64Form? ==> AllFit(offs))
    ensures Representable(offs, form.Sym64Form?)
  {
  }

  lemma NameIs(form: Armap)
    ensures MapName(form) == IndexName(form)
  {
  }

  lemma StartIs(fmt: Format, kept: seq<Member>, table: seq<byte>, misc: seq<byte>)
    requires Assembles(fmt, kept, table, misc)
    ensures MembersStart(fmt, true, kept, table, misc)
      == 8 + |ArmapPart(fmt, true, kept, TableRoom(|table|), misc)| + |TableBytes(fmt, table).value|
  {
  }

  lemma SizeIs(form: Armap, n: nat, s: nat)
    requires 8 * n + s + 30 < TWO32
    ensures MapSize(form, n, s) == IndexSize(form, n, s)
  {
    hide MapSize, MapPad;
    MapSizeExact(form, n, s);
    match form
    case BsdForm => BsdPad(n, s);
    case CoffForm => CoffPad(n, s);
    case Sym64Form => Sym64Pad(n, s);
  }

  lemma BsdPad(n: nat, s: nat)
    ensures 8 * n + 8 + s + MapPad(BsdForm, n, s) == (8 * n + 8 + s + 1) / 2 * 2
  {
    assert (8 * n + 8 + s + 1) / 2 == 4 * n + 4 + (s + 1) / 2;
  }

  lemma CoffPad(n: nat, s: nat)
    requires 8 * n + s + 30 < TWO32
    ensures 4 * n + 4 + s + MapPad(CoffForm, n, s) == (4 * n + 4 + s + 1) / 2 * 2
  {
    hide U32;
    assert U32(4 * n + 4) == 4 * n + 4 && U32(s + (4 * n + 4)) == s + (4 * n + 4);
    RoundUp2(4 * n + 4 + s);
  }

  lemma Sym64Pad(n: nat, s: nat)
    requires 8 * n + s + 30 < TWO32
    ensures 8 * n + 8 + s + MapPad(Sym64Form, n, s) == (8 * n + 8 + s + 7) / 8 * 8
  {
    hide U32;
    assert U32(8 * n + 8) == 8 * n + 8 && U32(s + (8 * n + 8)) == s + (8 * n + 8);
    RoundUp8(8 * n + 8 + s);
  }

  lemma RoundUp2(x: nat)
    ensures x + x % 2 == (x + 1) / 2 * 2
  {
  }

  lemma RoundUp8(x: nat)
    ensures x + (8 - x % 8) % 8 == (x + 7) / 8 * 8
  {
  }

  // ---- the name table --------------------------------------------------

  /** The name table of an archive: behind the index, with a header named "//" or "ARFILENAMES/", and rounded up to
      an even size with a newline. */
  lemma TableOnDisk(fmt: Format, indexed: bool, kept: seq<Member>, table: seq<byte>, misc: seq<byte>)
    requires Assembles(fmt, kept, table, misc) && table != []
    ensures var file, start := Assemble(fmt, indexed, kept, table, misc), MembersStart(fmt, indexed, kept, table, misc);
      var size := (|table| + 1) / 2 * 2;
      var p := start - size - 60;
      && p == 8 + |ArmapPart(fmt, indexed, kept, TableRoom(|table|), misc)|
      && HeaderAt(file, p, if fmt.style.Svr4? then [0x2f, 0x2f] + Spaces(14)
           else [0x41, 0x52, 0x46, 0x49, 0x4c, 0x45, 0x4e, 0x41, 0x4d, 0x45, 0x53, 0x2f] + Spaces(4), size)
      && At(file, p + 60, table + if |table| % 2 == 1 then [0x0a] else [])
  {
    hide MembersBytes, ArmapPart, HeaderAt, HdrBytes, SizePad, TableRoom, At;
    var file, armap := Assemble(fmt, indexed, kept, table, misc),
      ArmapPart(fmt, indexed, kept, TableRoom(|table|), misc);
    var h := TableHdr(fmt, |table|).value;
    PartsAt(Magic(fmt), armap, TableBytes(fmt, table).value, MembersBytes(fmt, kept));
    var rest := table + if |table| % 2 == 1 then [NL] else [];
    assert TableBytes(fmt, table).value == HdrBytes(h) + rest;
    AtSplit(file, 8 + |armap|, HdrBytes(h), rest);
    HeaderIs(file, 8 + |armap|, h, |table| + |table| % 2);
    RoundUp2(|table|);
    TableNameIs();
  }

  lemma TableNameIs()
    ensures Pad([SLASH, SLASH], 16) == [0x2f, 0x2f] + Spaces(14)
    ensures Pad(ARFILENAMES + [SLASH], 16)
      == [0x41, 0x52, 0x46, 0x49, 0x4c, 0x45, 0x4e, 0x41, 0x4d, 0x45, 0x53, 0x2f] + Spaces(4)
  {
    assert ARFILENAMES + [SLASH] == [0x41, 0x52, 0x46, 0x49, 0x4c, 0x45, 0x4e, 0x41, 0x4d, 0x45, 0x53, 0x2f];
  }

  // ---- what is left out ------------------------------------------------

  /** Exactly the members called "__.SYMDEF" that lead the chain give way to the index. */
  lemma {:induction false} SymdefsDropped(ms: seq<Member>)
    ensures var r := DropSymdefs(ms); var d := |ms| - |r|;
      && d >= 0 && r == ms[d..]
      && (forall j :: 0 <= j < d ==> ms[j].filename == [0x5f, 0x5f, 0x2e, 0x53, 0x59, 0x4d, 0x44, 0x45, 0x46])
      && (r != [] ==> r[0].filename != [0x5f, 0x5f, 0x2e, 0x53, 0x59, 0x4d, 0x44, 0x45, 0x46])
  {
    if ms != [] && ms[0].filename == SYMDEF {
      SymdefsDropped(ms[1..]);
      var d := |ms[1..]| - |DropSymdefs(ms[1..])|;
      assert ms[1..][d..] == ms[d + 1..];
      assert forall j :: 0 < j < d + 1 ==> ms[j] == ms[1..][j - 1];
    }
  }

  // ---- reading what others wrote ---------------------------------------

  predicate Blanks(s: seq<byte>) {
    forall i :: 0 <= i < |s| ==> s[i] in {0x20, 0x09, 0x0a, 0x0b, 0x0c, 0x0d}
  }

  /** A field: white space, perhaps a sign, digits, and then anything that does not begin with a digit. */
  predicate Field(s: seq<byte>, blanks: seq<byte>, sign: seq<byte>, digits: seq<byte>, rest: seq<byte>) {
    && s == blanks + sign + digits + rest && Blanks(blanks) && sign in {[], [0x2b], [0x2d]} && Digits(digits)
    && (rest != [] ==> !(48 <= rest[0] <= 57))
    && (sign == [] && digits == [] && rest != [] ==> !Blanks([rest[0]]) && rest[0] !in {0x2b, 0x2d})
  }

  lemma {:induction false} Skips(s: seq<byte>, blanks: seq<byte>)
    requires blanks <= s && Blanks(blanks) && (|s| > |blanks| ==> !Blanks([s[|blanks|]]))
    ensures SkipSpace(s) == s[|blanks|..]
  {
    if blanks == [] {
      assert s != [] ==> [s[0]][0] == s[0];
    } else {
      assert s[0] == blanks[0];
      Skips(s[1..], blanks[1..]);
    }
  }

  lemma FieldParts(s: seq<byte>, blanks: seq<byte>, sign: seq<byte>, digits: seq<byte>, rest: seq<byte>)
    requires Field(s, blanks, sign, digits, rest)
    ensures SkipSpace(s) == sign + digits + rest && DigitRun(digits + rest) == |digits|
    ensures (digits + rest)[..|digits|] == digits
    ensures sign == [] && digits + rest != [] ==> (digits + rest)[0] !in {43, 45}
  {
    var t := sign + digits + rest;
    assert s == blanks + t;
    assert t != [] ==> t[0] == s[|blanks|] && [t[0]][0] == t[0];
    if t != [] {
      assert !Blanks([t[0]]);
    }
    Skips(s, blanks);
    DigitRunOf(digits + rest, digits);
  }

  /** How a size is read: white space is skipped, there must be digits, and the number wraps at 64 bits; a minus sign
      takes it from zero. */
  lemma SizeScans(s: seq<byte>, blanks: seq<byte>, sign: seq<byte>, digits: seq<byte>, rest: seq<byte>)
    requires Field(s, blanks, sign, digits, rest)
    ensures ScanU64(s) == if digits == [] then None
      else Some(W64(if sign == [0x2d] then 0 - DigitsValue(digits) else DigitsValue(digits)))
  {
    hide SkipSpace, DigitRun, DigitsValue, W64, Field;
    FieldParts(s, blanks, sign, digits, rest);
    SignOf(s, blanks, sign, digits, rest);
    Negated(DigitsValue(digits));
  }

  lemma SignOf(s: seq<byte>, blanks: seq<byte>, sign: seq<byte>, digits: seq<byte>, rest: seq<byte>)
    requires Field(s, blanks, sign, digits, rest)
    ensures var t := sign + digits + rest;
      && (sign == [] || sign == [43] || sign == [45])
      && (t != [] && t[0] == 45 <==> sign == [0x2d])
      && (if t != [] && (t[0] == 43 || t[0] == 45) then t[1..] else t) == digits + rest
  {
    assert sign != [] ==> (sign + digits + rest)[1..] == digits + rest;
    assert sign == [] ==> sign + digits + rest == digits + rest;
  }

  lemma Negated(v: nat)
    ensures W64(v) == v % TWO64
    ensures W64(0 - v) == (TWO64 - v % TWO64) % TWO64
  {
  }

  /** How an offset or a length in a name field is read: without digits it is 0, and what is negative or does not fit
      a `long` leads nowhere. */
  lemma OffsetScans(s: seq<byte>, blanks: seq<byte>, sign: seq<byte>, digits: seq<byte>, rest: seq<byte>)
    requires Field(s, blanks, sign, digits, rest)
    ensures var v := DigitsValue(digits);
      StrTol(s) == if v < 0x8000_0000_0000_0000 && (sign != [0x2d] || v == 0) then Some(v) else None
  {
    hide SkipSpace, DigitRun, DigitsValue, Field;
    FieldParts(s, blanks, sign, digits, rest);
    SignOf(s, blanks, sign, digits, rest);
  }

  /** A name is found in the table exactly when the number behind the first character lies in it, and then goes up to
      the next NUL. */
  lemma ResolvedWhen(names: seq<byte>, hdr: seq<byte>)
    requires |hdr| == 60
    ensures var i, r := StrTol(hdr[1..]), Resolve(names, hdr);
      && (r.Some? <==> i.Some? && i.value < |names|)
      && (r.Some? ==> var e := i.value + |r.value|;
            e <= |names| && r.value == names[i.value..e] && 0 !in r.value && (e < |names| ==> names[e] == 0))
  {
    hide StrTol;
  }

  /** What is read of a member stops at the end of the file. */
  lemma ContentsAre(file: seq<byte>, e: Elt)
    requires e.start <= |file|
    ensures var c := Contents(file, e);
      |c| <= e.size && At(file, e.start, c) && (|c| < e.size ==> e.start + |c| == |file|)
  {
  }

  /** Members after a second index of a PE archive start where the walk would go next from that. */
  lemma SecondIndexSkipped(max: NameLimit, file: seq<byte>, first: nat)
    ensures var r := ReadArHdr(max, file, first, None);
      if r.Read? && r.elt.hdr.name[..2] == [0x2f, 0x20] then
        first % 2 == 0 && r.elt.size + 61 < TWO32 && |file| < TWO32 ==>
          NextPos(r.elt) == Some(first + SecondHeader(max, file, first))
      else SecondHeader(max, file, first) == 0
  {
    hide ReadArHdr, NextPos;
    var r := ReadArHdr(max, file, first, None);
    if r.Read? {
      ReadStarts(max, file, first);
      assert r.elt.hdr.name[..2] == [r.elt.hdr.name[0], r.elt.hdr.name[1]];
      if first % 2 == 0 && r.elt.size + 61 < TWO32 && |file| < TWO32 && r.elt.start == first + 60 {
        NextIs(r.elt, first);
      }
    }
  }

  lemma ReadStarts(max: NameLimit, file: seq<byte>, pos: nat)
    requires ReadArHdr(max, file, pos, None).Read?
    ensures var e := ReadArHdr(max, file, pos, None).elt;
      e.hdr.Valid() && (e.hdr.name[0] == SLASH ==> e.start == pos + 60)
  {
    hide ScanU64, StrTol, CStr, FieldName;
  }

  lemma NextIs(e: Elt, first: nat)
    requires first % 2 == 0 && e.size + 61 < TWO32 && e.start == first + 60 < TWO32
    ensures NextPos(e) == Some(first + (e.size + 61) / 2 * 2)
    ensures (e.size + HDR_SIZE + 1 - (e.size + HDR_SIZE + 1) % 2) % TWO32 == (e.size + 61) / 2 * 2
  {
  }
}
