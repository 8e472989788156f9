// Reading the symbol index inverts writing it, in each of its three forms.
module ArIndex {
  import opened Bytes
  import opened ArFormat
  import opened ArArmap
  import opened ArWrite
  import opened ArLayout
  import opened ArRead

  /** The symbols and offsets that were put into the index. */
  function Symdefs(es: seq<Orl>, offs: seq<nat>): (r: seq<Carsym>)
    requires |es| == |offs|
    ensures |r| == |es|
    ensures forall i :: 0 <= i < |es| ==> r[i] == Carsym(es[i].name, offs[i])
  {
    seq(|es|, i requires 0 <= i < |es| => Carsym(es[i].name, offs[i]))
  }

  // ---- where things are in the index -----------------------------------

  lemma {:induction false} RanlibAt(es: seq<Orl>, offs: seq<nat>, big: bool, i: nat)
    requires i < |es| == |offs|
    ensures At(RanlibBytes(es, offs, big), 8 * i, Put32(es[i].namidx, big))
    ensures At(RanlibBytes(es, offs, big), 8 * i + 4, Put32(offs[i], big))
  {
    hide Put32, At;
    var n := |es| - 1;
    var a, b, c := RanlibBytes(es[..n], offs[..n], big), Put32(es[n].namidx, big), Put32(offs[n], big);
    assert RanlibBytes(es, offs, big) == a + b + c;
    AtParts(a + b, c);
    AtParts(a, b);
    AtInside(a + b + c, 0, a + b, |a|, b);
    AtInside(a + b + c, 0, a + b, 0, a);
    if i < n {
      RanlibAt(es[..n], offs[..n], big, i);
      AtInside(a + b + c, 0, a, 8 * i, Put32(es[i].namidx, big));
      AtInside(a + b + c, 0, a, 8 * i + 4, Put32(offs[i], big));
    }
  }

  lemma {:induction false} OffsetBytesAt(offs: seq<nat>, wide: bool, i: nat)
    requires i < |offs|
    ensures At(OffsetBytes(offs, wide), if wide then 8 * i else 4 * i, PutBe(offs[i], if wide then 8 else 4))
  {
    hide PutBe;
    var n := |offs| - 1;
    var a, b := OffsetBytes(offs[..n], wide), PutBe(offs[n], if wide then 8 else 4);
    AtParts(a, b);
    if i < n {
      OffsetBytesAt(offs[..n], wide, i);
      AtInside(a + b, 0, a, if wide then 8 * i else 4 * i, PutBe(offs[i], if wide then 8 else 4));
    }
  }

  lemma {:induction false} StringAt(es: seq<Orl>, i: nat)
    requires i < |es|
    ensures At(Strings(es), StrLen(es[..i]), es[i].name + [0])
  {
    var n := |es| - 1;
    var a, b := Strings(es[..n]), es[n].name + [0];
    assert Strings(es) == a + b;
    AtParts(a, b);
    if i < n {
      StringAt(es[..n], i);
      assert es[..n][..i] == es[..i];
      AtInside(a + b, 0, a, StrLen(es[..i]), es[i].name + [0]);
    } else {
      assert es[..i] == es[..n];
    }
  }

  lemma NameReads(s: seq<byte>, p: nat, name: seq<byte>)
    requires NulFree(name) && At(s, p, name + [0])
    ensures CStr(s, p) == name && p + |name| < |s|
  {
    AtSplit(s, p, name, [0]);
    AtIndex(s, p + |name|, [0], 0);
    CStrReads(s, p, name);
  }

  // ---- the BSD form ----------------------------------------------------

  lemma BsdLayout(es: seq<Orl>, offs: seq<nat>, big: bool)
    requires |es| == |offs|
    ensures var raw := MapBody(BsdForm, big, es, offs);
      && |raw| == 8 + 8 * |es| + StrLen(es) + StrLen(es) % 2
      && At(raw, 4, RanlibBytes(es, offs, big))
      && At(raw, 8 + 8 * |es|, Strings(es))
  {
    hide Put32, RanlibBytes, Strings, StrLen, U32, Zeros;
    var s := StrLen(es);
    var head, ranlib, len, rest := Put32(U32(8 * |es|), big), RanlibBytes(es, offs, big), Put32(U32(s + s % 2), big),
      Strings(es) + Zeros(s % 2);
    assert MapBody(BsdForm, big, es, offs) == head + ranlib + len + rest;
    PartsAt(head, ranlib, len, rest);
    AtSplit(MapBody(BsdForm, big, es, offs), 8 + 8 * |es|, Strings(es), Zeros(s % 2));
  }

  /** The words and the name of symbol `i`. */
  lemma BsdEntryAt(es: seq<Orl>, offs: seq<nat>, big: bool, i: nat)
    requires Indexed(es) && i < |es| == |offs|
    ensures var raw := MapBody(BsdForm, big, es, offs);
      && |raw| >= 8 + 8 * |es| + StrLen(es)
      && raw[4 + 8 * i..8 + 8 * i] == Put32(es[i].namidx, big) && raw[8 + 8 * i..12 + 8 * i] == Put32(offs[i], big)
      && At(raw, 8 + 8 * |es| + es[i].namidx, es[i].name + [0])
  {
    hide Put32, RanlibBytes, StrLen, Strings, MapBody;
    var raw := MapBody(BsdForm, big, es, offs);
    BsdLayout(es, offs, big);
    RanlibAt(es, offs, big, i);
    AtInside(raw, 4, RanlibBytes(es, offs, big), 8 * i, Put32(es[i].namidx, big));
    AtInside(raw, 4, RanlibBytes(es, offs, big), 8 * i + 4, Put32(offs[i], big));
    StringAt(es, i);
    AtInside(raw, 8 + 8 * |es|, Strings(es), es[i].namidx, es[i].name + [0]);
  }

  lemma BsdSymReads(es: seq<Orl>, offs: seq<nat>, big: bool, i: nat)
    requires Indexed(es) && AllFit(offs) && i < |es| == |offs|
    requires 8 * |es| + StrLen(es) + 30 < TWO32
    ensures var raw := MapBody(BsdForm, big, es, offs);
      && |raw| >= 8 + 8 * |es|
      && BsdSym(raw, 8 * |es|, i, big) == Some(Carsym(es[i].name, offs[i]))
  {
    hide Put32, Get32, StrLen, CStr, MapBody;
    var raw := MapBody(BsdForm, big, es, offs);
    BsdEntryAt(es, offs, big, i);
    StringAt(es, i);
    NameReads(raw, 8 + 8 * |es| + es[i].namidx, es[i].name);
    GetPut32(es[i].namidx, big);
    GetPut32(offs[i], big);
  }

  lemma {:induction false} BsdSymsRead(es: seq<Orl>, offs: seq<nat>, big: bool, n: nat)
    requires Indexed(es) && AllFit(offs) && n <= |es| == |offs|
    requires 8 * |es| + StrLen(es) + 30 < TWO32
    requires |MapBody(BsdForm, big, es, offs)| >= 8 + 8 * |es|
    ensures BsdSyms(MapBody(BsdForm, big, es, offs), 8 * |es|, n, big) == Some(Symdefs(es, offs)[..n])
  {
    hide MapBody, BsdSym;
    if n > 0 {
      BsdSymsRead(es, offs, big, n - 1);
      BsdSymReads(es, offs, big, n - 1);
      assert Symdefs(es, offs)[..n] == Symdefs(es, offs)[..n - 1] + [Symdefs(es, offs)[n - 1]];
    }
  }

  /** BSD form: names are found by index into the string table. */
  lemma BsdBodyReads(es: seq<Orl>, offs: seq<nat>, big: bool)
    requires Indexed(es) && AllFit(offs) && |es| == |offs|
    requires 8 * |es| + StrLen(es) + 30 < TWO32
    ensures |MapBody(BsdForm, big, es, offs)| >= 8
    ensures BsdBody(MapBody(BsdForm, big, es, offs), big) == Some(Symdefs(es, offs))
  {
    hide Put32, Get32, RanlibBytes, StrLen, Strings, BsdSyms;
    var raw := MapBody(BsdForm, big, es, offs);
    assert raw[..4] == Put32(U32(8 * |es|), big);
    GetPut32(8 * |es|, big);
    BsdSymsRead(es, offs, big, |es|);
    assert Symdefs(es, offs)[..|es|] == Symdefs(es, offs);
  }

  // ---- the sequential forms --------------------------------------------

  lemma StringReads(es: seq<Orl>, pad: seq<byte>, i: nat)
    requires Indexed(es) && i < |es|
    ensures StrLen(es[..i]) + |es[i].name| < |Strings(es) + pad|
    ensures CStr(Strings(es) + pad, StrLen(es[..i])) == es[i].name
  {
    hide CStr, Strings, StrLen;
    StringAt(es, i);
    AtParts(Strings(es), pad);
    AtInside(Strings(es) + pad, 0, Strings(es), StrLen(es[..i]), es[i].name + [0]);
    NameReads(Strings(es) + pad, StrLen(es[..i]), es[i].name);
  }

  lemma {:induction false} ScanPosIs(es: seq<Orl>, pad: seq<byte>, i: nat)
    requires Indexed(es) && i <= |es|
    ensures ScanPos(Strings(es) + pad, i) == StrLen(es[..i])
  {
    hide CStr, Strings, Indexed;
    if i > 0 {
      ScanPosIs(es, pad, i - 1);
      StringReads(es, pad, i - 1);
      assert es[..i][..i - 1] == es[..i - 1];
    }
  }

  predicate Representable(offs: seq<nat>, wide: bool) {
    forall i :: 0 <= i < |offs| ==> offs[i] < if wide then TWO64 else TWO32
  }

  lemma OffsetReads(offs: seq<nat>, wide: bool, i: nat)
    requires Representable(offs, wide) && i < |offs|
    ensures OffsetAt(OffsetBytes(offs, wide), i, wide) == offs[i]
  {
    hide PutBe, GetBe;
    Pow256Values();
    OffsetBytesAt(offs, wide, i);
    GetPutBe(offs[i], if wide then 8 else 4);
  }

  lemma {:induction false} ScanSymsRead(es: seq<Orl>, offs: seq<nat>, wide: bool, pad: seq<byte>, n: nat)
    requires Indexed(es) && Representable(offs, wide) && n <= |es| == |offs|
    ensures ScanSyms(OffsetBytes(offs, wide), Strings(es) + pad, n, wide) == Symdefs(es, offs)[..n]
  {
    hide OffsetAt, CStr, Strings, OffsetBytes, Indexed, StrLen, ScanPos, Representable;
    if n > 0 {
      ScanSymsRead(es, offs, wide, pad, n - 1);
      ScanPosIs(es, pad, n - 1);
      StringReads(es, pad, n - 1);
      OffsetReads(offs, wide, n - 1);
      assert Symdefs(es, offs)[..n] == Symdefs(es, offs)[..n - 1] + [Symdefs(es, offs)[n - 1]];
    }
  }

  /** COFF and 64-bit forms: the i-th offset goes with the i-th string. */
  lemma ScanBodyReads(form: Armap, big: bool, es: seq<Orl>, offs: seq<nat>)
    requires !form.BsdForm? && Indexed(es) && Representable(offs, form.Sym64Form?) && |es| == |offs|
    requires |es| < TWO32
    ensures var raw, w, n := MapBody(form, big, es, offs), if form.Sym64Form? then 8 else 4, |es|;
      && |raw| >= w + w * n
      && GetBe(raw[..w]) == n
      && ScanSyms(raw[w..w + w * n], raw[w + w * n..], n, form.Sym64Form?) == Symdefs(es, offs)
  {
    hide PutBe, GetBe, OffsetBytes, Strings, ScanSyms, CoffPadding, Sym64Padding;
    var raw, w, n := MapBody(form, big, es, offs), if form.Sym64Form? then 8 else 4, |es|;
    var pad := if form.Sym64Form? then Zeros(Sym64Padding(n, StrLen(es))) else Zeros(CoffPadding(n, StrLen(es)));
    Pow256Values();
    GetPutBe(n, w);
    var head, body, rest := PutBe(n, w), OffsetBytes(offs, form.Sym64Form?), Strings(es) + pad;
    assert raw == head + body + rest;
    assert raw[..w] == head && raw[w..w + w * n] == body && raw[w + w * n..] == rest;
    ScanSymsRead(es, offs, form.Sym64Form?, pad, n);
    assert Symdefs(es, offs)[..n] == Symdefs(es, offs);
  }

  // ---- in the archive --------------------------------------------------

  lemma MapNameIs(form: Armap)
    ensures !IsBsd44Name(MapName(form))
    ensures form.BsdForm? ==> MapName(form) == Pad(SYMDEF, 16)
    ensures !form.BsdForm? ==> MapName(form) != Pad(SYMDEF, 16) && MapName(form) != Pad(SYMDEF + [SLASH], 16)
    ensures form.CoffForm? ==> MapName(form) == Pad([SLASH], 16)
    ensures form.Sym64Form? ==> MapName(form) == Pad(SYM64, 16) && MapName(form) != Pad([SLASH], 16)
  {
    assert MapName(BsdForm)[0] == 95;
    assert MapName(CoffForm)[0] == SLASH && MapName(CoffForm)[1] == SPACE;
    assert MapName(Sym64Form)[0] == SLASH && MapName(Sym64Form)[1] == 83;
    assert Pad(SYMDEF, 16)[0] == 95;
    assert Pad(SYMDEF + [SLASH], 16)[0] == 95;
    assert Pad([SLASH], 16)[1] == SPACE;
  }

  lemma IndexPlaced(fmt: Format, kept: seq<Member>, table: seq<byte>, misc: seq<byte>)
    requires Assembles(fmt, kept, table, misc) && Fits(kept, table)
    ensures var file, form := Assemble(fmt, true, kept, table, misc), IndexForm(fmt, kept, table);
      var es := Entries(kept);
      var size, body := MapSize(form, |es|, StrLen(es)), MapBody(form, fmt.big, es, IndexOffsets(fmt, kept, table));
      && At(file, SARMAG, HdrBytes(MapHdr(form, size, misc)))
      && At(file, SARMAG + HDR_SIZE, body) && |body| == size && size % 2 == 0
      && |ArmapPart(fmt, true, kept, TableRoom(|table|), misc)| == HDR_SIZE + size
  {
    hide MapBody, MapHdr, MembersBytes, TableBytes, Entries, IndexOffsets, IndexForm, StrLen, MembersStart, TableRoom,
      Magic, HdrBytes, At, MapSize;
    var file, form := Assemble(fmt, true, kept, table, misc), IndexForm(fmt, kept, table);
    var es := Entries(kept);
    var size, body := MapSize(form, |es|, StrLen(es)), MapBody(form, fmt.big, es, IndexOffsets(fmt, kept, table));
    IndexStart(fmt, kept, table, misc);
    MapSizeExact(form, |es|, StrLen(es));
    BodyLength(form, fmt.big, es, IndexOffsets(fmt, kept, table));
    PartsAt(Magic(fmt), ArmapPart(fmt, true, kept, TableRoom(|table|), misc), TableBytes(fmt, table).value,
      MembersBytes(fmt, kept));
    AtSplit(file, SARMAG, HdrBytes(MapHdr(form, size, misc)), body);
  }

  lemma IndexHeaderReads(max: NameLimit, file: seq<byte>, form: Armap, size: nat, misc: seq<byte>)
    requires |misc| == 32 && size < TWO32 && At(file, SARMAG, HdrBytes(MapHdr(form, size, misc)))
    ensures ReadArHdr(max, file, SARMAG, None)
      == Read(Elt(MapHdr(form, size, misc), FieldName(max, MapName(form)), size, 0, SARMAG + HDR_SIZE))
    ensures Peek(file, SARMAG) == MapName(form)
  {
    hide ReadArHdr, FieldName, HdrBytes, MapName, IsBsd44Name, Peek;
    SizeFits(size);
    SizeFieldReads(size);
    MapNameIs(form);
    ReadPlainHdr(max, file, SARMAG, MapHdr(form, size, misc), None, size);
    PeekName(file, SARMAG, MapHdr(form, size, misc));
  }

  lemma OffsetsFit(fmt: Format, kept: seq<Member>, table: seq<byte>)
    requires ValidChain(kept) && Fits(kept, table)
    ensures |Entries(kept)| < TWO32 && 8 * |Entries(kept)| + StrLen(Entries(kept)) + 30 < TWO32
    ensures Indexed(Entries(kept))
    ensures !IndexForm(fmt, kept, table).Sym64Form? ==> AllFit(IndexOffsets(fmt, kept, table))
  {
    hide Entries, StrLen, First, Offsets, TableRoom;
    EntriesOrdered(kept);
  }

  /** An index whose header and body are at the start of a file. */
  lemma SlurpedAs(max: NameLimit, file: seq<byte>, form: Armap, big: bool, es: seq<Orl>, offs: seq<nat>,
                  misc: seq<byte>)
    requires |misc| == 32 && |es| == |offs| && Indexed(es)
    requires var size, body := MapSize(form, |es|, StrLen(es)), MapBody(form, big, es, offs);
      && size < TWO32 && |body| == size && size % 2 == 0
      && At(file, SARMAG, HdrBytes(MapHdr(form, size, misc))) && At(file, SARMAG + HDR_SIZE, body)
    requires |es| < TWO32 && 8 * |es| + StrLen(es) + 30 < TWO32 && Representable(offs, true)
    requires !form.Sym64Form? ==> AllFit(offs)
    ensures var end := SARMAG + HDR_SIZE + MapSize(form, |es|, StrLen(es));
      SlurpArmap(max, file, SARMAG, big)
      == Map(Symdefs(es, offs), end + if form.CoffForm? then SecondHeader(max, file, end) else 0)
  {
    hide MapBody, MapHdr, ScanSyms, BsdBody, MapSize, ReadArHdr, SecondHeader, StrLen, GetBe, Peek, Symdefs, Pad,
      MapName, FieldName, HdrBytes, Indexed;
    var size, body := MapSize(form, |es|, StrLen(es)), MapBody(form, big, es, offs);
    IndexHeaderReads(max, file, form, size, misc);
    MapNameIs(form);
    if form.BsdForm? {
      BsdBodyReads(es, offs, big);
    } else {
      ScanBodyReads(form, big, es, offs);
      var w := if form.Sym64Form? then 8 else 4;
      assert file[68..68 + w] == file[68..68 + size][..w];
    }
  }

  /** Reading the index of an archive gives back the symbols and offsets that were written, whatever
      the form.  (`SecondHeader` is what a COFF reader adds for a second index member.) */
  lemma SlurpInverts(max: NameLimit, fmt: Format, kept: seq<Member>, table: seq<byte>, misc: seq<byte>)
    requires Assembles(fmt, kept, table, misc) && Fits(kept, table)
    requires Representable(IndexOffsets(fmt, kept, table), true)
    ensures var file, form := Assemble(fmt, true, kept, table, misc), IndexForm(fmt, kept, table);
      var end := SARMAG + |ArmapPart(fmt, true, kept, TableRoom(|table|), misc)|;
      SlurpArmap(max, file, SARMAG, fmt.big)
      == Map(Symdefs(Entries(kept), IndexOffsets(fmt, kept, table)),
             end + if form.CoffForm? then SecondHeader(max, file, end) else 0)
  {
    hide MapBody, MapHdr, Entries, IndexOffsets, IndexForm, MapSize, Assemble, ArmapPart, SecondHeader, StrLen, Symdefs,
      TableRoom, SlurpArmap, HdrBytes, At;
    var form, es, offs := IndexForm(fmt, kept, table), Entries(kept), IndexOffsets(fmt, kept, table);
    IndexPlaced(fmt, kept, table, misc);
    OffsetsFit(fmt, kept, table);
    SlurpedAs(max, Assemble(fmt, true, kept, table, misc), form, fmt.big, es, offs, misc);
  }
}
