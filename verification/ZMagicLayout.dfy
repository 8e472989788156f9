// What the layout of a demand-paged a.out file gives.
module ZMagicLayout {
  import opened Bytes
  import opened Align
  import opened ZMagic
  import P = Patches

  /** No address or size comes near the end of the address space. */
  const LIMIT: nat := 0x1000_0000_0000_0000

  predicate NoWrap(t: Target, text: Input, data: Input, bss: Input) {
    && t.pagePower < 60 && t.segmentPower < 60 && bss.power < 60
    && P.Pow2(t.pagePower) <= LIMIT && P.Pow2(t.segmentPower) <= LIMIT && P.Pow2(bss.power) <= LIMIT
    && t.diskBlock < LIMIT && t.headerSize < LIMIT && t.defaultTextVma < LIMIT
    && text.vma < LIMIT && text.size < LIMIT && data.vma < LIMIT && data.size < LIMIT && bss.vma < LIMIT
    && bss.size < LIMIT
  }

  lemma PadBelow(a: nat, k: nat)
    ensures And(a, P.Pow2(k) - 1) < P.Pow2(k)
  {
    hide And;
    AndLow(a, k);
  }

  /** The text is padded by less than two pages, up to a page boundary of the file or, placed by hand, of
      memory. */
  lemma TextPadded(t: Target, text: Input, data: Input, bss: Input)
    requires NoWrap(t, text, data, bss)
    ensures 0 < Page(t) < TWO64
    ensures var end, padded := TextEnd(t, text), PaddedText(t, text);
      && text.size + FirstPad(t, text) <= padded < text.size + FirstPad(t, text) + Page(t)
      && FirstPad(t, text) < Page(t)
      && LeastMultiple(end, Page(t), end + (padded - text.size - FirstPad(t, text)))
  {
    hide And, BfdAlign, W64, P.Pow2;
    Pow2Below64(t.pagePower);
    var end := TextEnd(t, text);
    W64Small(end);
    BfdAlignIsLeast(end, t.pagePower);
    PadBelow(W64(if t.withHeader then TextPos(t) - text.vma else 0 - text.vma), t.pagePower);
    var r := BfdAlign(end, Page(t));
    W64Small(text.size + (FirstPad(t, text) + r - end));
  }

  lemma TextVmaSmall(t: Target, text: Input, data: Input, bss: Input)
    requires NoWrap(t, text, data, bss)
    ensures TextVma(t, text) < 2 * LIMIT
  {
  }

  /** The data, unless placed by hand, is at the first segment boundary after the padded text: aligned, and
      clear of the text. */
  lemma DataAfterText(t: Target, text: Input, data: Input, bss: Input)
    requires NoWrap(t, text, data, bss) && !data.placed
    ensures 0 < Page(t) < TWO64 && 0 < P.Pow2(t.segmentPower) < TWO64
    ensures var l := Adjusted(t, text, data, bss);
      && LeastMultiple(l.textVma + PaddedText(t, text), P.Pow2(t.segmentPower), l.dataVma)
      && l.dataVma % P.Pow2(t.segmentPower) == 0 && l.textVma + text.size <= l.dataVma
  {
    hide And, BfdAlign, AlignPower, W64, P.Pow2, PaddedText, TextVma, TextEnd;
    Pow2Below64(t.segmentPower);
    TextPadded(t, text, data, bss);
    TextVmaSmall(t, text, data, bss);
    W64Small(TextVma(t, text) + PaddedText(t, text));
    BfdAlignIsLeast(TextVma(t, text) + PaddedText(t, text), t.segmentPower);
  }

  /** Where contiguous mapping puts the data: as far behind the text in the file as in memory. */
  lemma StretchedIs(t: Target, text: Input, data: Input, bss: Input)
    requires NoWrap(t, text, data, bss)
    ensures 0 < Page(t) < TWO64 && 0 < P.Pow2(t.segmentPower) < TWO64
    ensures Stretched(t, text, data)
      == if t.contiguous then W64(DataVma(t, text, data) - TextVma(t, text)) else PaddedText(t, text)
    ensures DataVma(t, text, data) < 6 * LIMIT && PaddedText(t, text) < 3 * LIMIT
  {
    hide And, BfdAlign, AlignPower, P.Pow2, PaddedText, TextVma, TextEnd, FirstPad, W64;
    Pow2Below64(t.segmentPower);
    TextPadded(t, text, data, bss);
    TextVmaSmall(t, text, data, bss);
    W64Small(TextVma(t, text) + PaddedText(t, text));
    W64Small(PaddedText(t, text));
    if !data.placed {
      BfdAlignIsLeast(TextVma(t, text) + PaddedText(t, text), t.segmentPower);
    }
    WrapAround(DataVma(t, text, data) - TextVma(t, text), PaddedText(t, text));
  }

  lemma WrapAround(d: int, padded: nat)
    requires padded < TWO64 && -TWO64 < d < TWO64
    ensures W64(padded + W64(d - padded)) == W64(d) && (W64(d - padded) == 0 ==> padded == W64(d))
  {
  }

  /** In the file the data starts behind the text, except under contiguous mapping with data placed by hand
      below the end of the text: the padding meant to be added only for data after the text is unsigned, and
      so is added always. */
  lemma DataBehindTextIff(t: Target, text: Input, data: Input, bss: Input)
    requires NoWrap(t, text, data, bss)
    ensures 0 < Page(t) < TWO64 && 0 < P.Pow2(t.segmentPower) < TWO64
    ensures var l := Adjusted(t, text, data, bss);
      && l.dataVma == DataVma(t, text, data) && l.textVma == TextVma(t, text) && l.textPos == TextPos(t)
      && l.dataPos - l.textPos == if t.contiguous then l.dataVma - l.textVma else PaddedText(t, text)
    ensures var l := Adjusted(t, text, data, bss);
      l.textPos + text.size <= l.dataPos <==> !(t.contiguous && data.placed && data.vma < l.textVma + text.size)
  {
    hide And, BfdAlign, AlignPower, P.Pow2, PaddedText, TextVma, TextEnd, FirstPad, Stretched, W64, Signed64, DataVma;
    StretchedIs(t, text, data, bss);
    TextPadded(t, text, data, bss);
    TextVmaSmall(t, text, data, bss);
    var dataVma, textVma, pos := DataVma(t, text, data), TextVma(t, text), TextPos(t);
    if t.contiguous {
      SignedDifference(pos, dataVma, textVma);
      if data.placed {
        PlacedData(t, text, data);
      } else {
        DataAfterText(t, text, data, bss);
      }
    } else {
      SignedDifference(pos, PaddedText(t, text), 0);
    }
  }

  /** Two ranges have a place in common. */
  predicate Overlap(a: int, n: nat, b: int, k: nat) {
    0 < n && 0 < k && a < b + k && b < a + n
  }

  predicate Within(x: int, a: int, n: nat) { a <= x < a + n }

  lemma OverlapIs(a: int, n: nat, b: int, k: nat)
    ensures Overlap(a, n, b, k) <==> exists x :: Within(x, a, n) && Within(x, b, k)
  {
    var x := if a < b then b else a;
    assert Overlap(a, n, b, k) ==> Within(x, a, n) && Within(x, b, k);
  }

  /** Text and data overlap in the file exactly under contiguous mapping, when they overlap in memory, and that
      they do only if the data was placed by hand. */
  lemma FileOverlapIff(t: Target, text: Input, data: Input, bss: Input)
    requires NoWrap(t, text, data, bss)
    ensures 0 < Page(t) < TWO64 && 0 < P.Pow2(t.segmentPower) < TWO64
    ensures var l := Adjusted(t, text, data, bss);
      && (Overlap(l.textPos, text.size, l.dataPos, data.size)
          <==> t.contiguous && Overlap(l.textVma, text.size, l.dataVma, data.size))
      && (Overlap(l.textVma, text.size, l.dataVma, data.size) ==> data.placed)
  {
    hide Adjusted, PaddedText, TextVma, TextPos, DataVma;
    DataBehindTextIff(t, text, data, bss);
    TextPadded(t, text, data, bss);
    if !data.placed {
      DataAfterText(t, text, data, bss);
    }
  }

  /** The data gets a negative file position exactly under contiguous mapping, when it was placed further below
      the text in memory than the text is into the file. */
  lemma NegativeIff(t: Target, text: Input, data: Input, bss: Input)
    requires NoWrap(t, text, data, bss)
    ensures 0 < Page(t) < TWO64 && 0 < P.Pow2(t.segmentPower) < TWO64
    ensures var l := Adjusted(t, text, data, bss);
      l.dataPos < 0 <==> t.contiguous && data.placed && data.vma + l.textPos < l.textVma
  {
    hide Adjusted, PaddedText, TextVma, TextPos, DataVma;
    DataBehindTextIff(t, text, data, bss);
    if data.placed {
      PlacedData(t, text, data);
    } else {
      DataAfterText(t, text, data, bss);
    }
  }

  /** Without contiguous mapping, which is how every target of this library lays files out, text and data
      never overlap in the file. */
  lemma SeparateInFile(t: Target, text: Input, data: Input, bss: Input)
    requires NoWrap(t, text, data, bss) && !t.contiguous
    ensures 0 < Page(t) < TWO64 && 0 < P.Pow2(t.segmentPower) < TWO64
    ensures var l := Adjusted(t, text, data, bss); l.textPos + text.size <= l.dataPos
  {
    hide Adjusted, NoWrap;
    DataBehindTextIff(t, text, data, bss);
  }

  /** A target with contiguous mapping, and sections that overlap under it: 5000 bytes of text at 4096, and
      data placed at 4100. */
  const CONTIGUOUS := Target(4, 4, 4096, 32, 4096, false, false, false, true)
  const LONG_TEXT := Input(0, 5000, false, 0)
  const LOW_DATA := Input(4100, 100, true, 0)
  const NO_BSS := Input(0, 0, false, 0)

  lemma OverlapExists()
    ensures NoWrap(CONTIGUOUS, LONG_TEXT, LOW_DATA, NO_BSS)
    ensures 0 < Page(CONTIGUOUS) < TWO64 && 0 < P.Pow2(CONTIGUOUS.segmentPower) < TWO64
    ensures var l := Adjusted(CONTIGUOUS, LONG_TEXT, LOW_DATA, NO_BSS);
      Overlap(l.textPos, LONG_TEXT.size, l.dataPos, LOW_DATA.size)
  {
    hide Stretched, PaddedData, AlignPower;
    assert P.Pow2(2) == 4 && P.Pow2(4) == 16;
    FileOverlapIff(CONTIGUOUS, LONG_TEXT, LOW_DATA, NO_BSS);
  }

  lemma PlacedData(t: Target, text: Input, data: Input)
    requires data.placed && 0 < Page(t) < TWO64 && 0 < P.Pow2(t.segmentPower) < TWO64
    ensures DataVma(t, text, data) == data.vma
  {
  }

  lemma SignedDifference(pos: nat, a: nat, b: nat)
    requires pos < LIMIT && a < 6 * LIMIT && b < 2 * LIMIT
    ensures Signed64(W64(pos + W64(a - b))) == pos + a - b
    ensures b == 0 ==> Signed64(W64(pos + a)) == pos + a
  {
  }

  /** The data takes whole pages, and together with what the header says of the bss covers both; when the bss
      comes right behind, the two sizes in the header are exactly what is needed, or the pages of the data if
      that is more. */
  lemma DataAndBss(t: Target, text: Input, data: Input, bss: Input)
    requires NoWrap(t, text, data, bss)
    ensures 0 < Page(t) < TWO64 && 0 < P.Pow2(t.segmentPower) < TWO64
    ensures var l := Adjusted(t, text, data, bss);
      && l.aData % Page(t) == 0 && data.size <= l.aData
      && data.size + bss.size <= l.aData + l.aBss
      && (AlignPower(l.bssVma, bss.power) == W64(l.dataVma + l.aData) ==>
            l.aData + l.aBss == if l.aData > data.size + bss.size then l.aData else data.size + bss.size)
  {
    hide And, BfdAlign, AlignPower, P.Pow2, PaddedText, TextVma, TextEnd, FirstPad, Stretched, Signed64, DataVma, W64;
    Pow2Below64(t.segmentPower);
    Pow2Below64(t.pagePower);
    AlignPowerIsLeast(data.size, bss.power);
    W64Small(AlignPower(data.size, bss.power));
    BfdAlignIsLeast(AlignPower(data.size, bss.power), t.pagePower);
    W64Small(PaddedData(t, data, bss) - data.size);
  }

  /** Where the text is: in the file behind the header, or behind a block of its own; in memory where it was placed,
      or at 0 in a file that can still be relocated, or so that the start of the file, or of the text if the
      header is not loaded with it, is at the default address. */
  lemma TextPlaced(t: Target, text: Input, data: Input, bss: Input)
    requires NoWrap(t, text, data, bss)
    ensures 0 < Page(t) < TWO64 && 0 < P.Pow2(t.segmentPower) < TWO64
    ensures var l := Adjusted(t, text, data, bss);
      && (t.withHeader ==> l.textPos == t.headerSize) && (!t.withHeader ==> l.textPos == t.diskBlock)
      && (text.placed ==> l.textVma == text.vma)
      && (!text.placed && t.hasReloc ==> l.textVma == 0)
      && (!text.placed && !t.hasReloc ==> l.textVma - (if t.withHeader then l.textPos else 0) == t.defaultTextVma)
  {
    hide BfdAlign, AlignPower, P.Pow2, PaddedText, PaddedData, Stretched, Signed64, DataVma;
    Pow2Below64(t.segmentPower);
    Pow2Below64(t.pagePower);
    W64Small(t.defaultTextVma + t.headerSize);
  }

  /** What the header says: the text it counts ends where the data starts in the file, and starts with the header
      if that is counted, else with the text; and the bss, unless placed, is right behind the data's pages, and
      only then counted short. */
  lemma HeaderSays(t: Target, text: Input, data: Input, bss: Input)
    requires NoWrap(t, text, data, bss)
    ensures 0 < Page(t) < TWO64 && 0 < P.Pow2(t.segmentPower) < TWO64
    ensures var l := Adjusted(t, text, data, bss);
      && l.aText == W64(l.dataPos - if t.withHeader && !t.headerNotCounted then 0 else l.textPos)
      && l.bssVma == (if bss.placed then bss.vma else l.dataVma + l.aData)
      && (AlignPower(l.bssVma, bss.power) != W64(l.dataVma + l.aData) ==> l.aBss == bss.size)
  {
    hide And, BfdAlign, AlignPower, P.Pow2, PaddedText, TextVma, TextEnd, FirstPad, Stretched, W64, Signed64, DataVma,
      PaddedData;
    StretchedIs(t, text, data, bss);
    DataPagesSmall(t, text, data, bss);
    W64Small(DataVma(t, text, data) + PaddedData(t, data, bss));
    CountedText(TextPos(t), Stretched(t, text, data), t.headerSize);
  }

  lemma CountedText(pos: nat, stretched: nat, header: nat)
    requires stretched < TWO64
    ensures W64(Signed64(W64(pos + stretched)) - pos) == stretched
    ensures W64(Signed64(W64(pos + stretched))) == W64(stretched + pos)
  {
  }

  lemma DataPagesSmall(t: Target, text: Input, data: Input, bss: Input)
    requires NoWrap(t, text, data, bss)
    ensures 0 < Page(t) < TWO64
    ensures PaddedData(t, data, bss) < 3 * LIMIT
    ensures LeastMultiple(AlignPower(data.size, bss.power), Page(t), PaddedData(t, data, bss))
  {
    hide And, BfdAlign, AlignPower, P.Pow2, W64;
    Pow2Below64(t.pagePower);
    AlignPowerIsLeast(data.size, bss.power);
    W64Small(AlignPower(data.size, bss.power));
    BfdAlignIsLeast(AlignPower(data.size, bss.power), t.pagePower);
  }

  /** A text placed by hand is padded so that what follows it in memory starts a page. */
  lemma PlacedTextEndsPage(t: Target, text: Input, data: Input, bss: Input)
    requires NoWrap(t, text, data, bss) && text.placed
    ensures 0 < Page(t) < TWO64
    ensures (text.vma + PaddedText(t, text)) % Page(t) == 0
  {
    hide And, BfdAlign, P.Pow2, PaddedText;
    Pow2Below64(t.pagePower);
    TextPadded(t, text, data, bss);
    var m, pad := Page(t), FirstPad(t, text);
    var x := if t.withHeader then TextPos(t) - text.vma else 0 - text.vma;
    AndLow(W64(x), t.pagePower);
    W64Mod(x, m);
    assert pad == x % m;
    SumsToMultiple(x, TextEnd(t, text), PaddedText(t, text) - text.size - pad, m);
    assert text.vma + PaddedText(t, text) == TextEnd(t, text) + (PaddedText(t, text) - text.size - pad) - x + x % m;
  }

  lemma W64Mod(x: int, m: nat)
    requires 0 < m && TWO64 % m == 0
    ensures W64(x) % m == x % m
  {
    var q := TWO64 / m;
    assert TWO64 == m * q;
    assert x == TWO64 * (x / TWO64) + W64(x);
    assert x - W64(x) == m * (q * (x / TWO64)) by {
      assert m * q * (x / TWO64) == m * (q * (x / TWO64));
    }
    P.ModOf(x - W64(x), q * (x / TWO64), 0, m);
    P.ModSame(x, W64(x), m);
  }

  lemma SumsToMultiple(x: int, end: int, pad: int, m: nat)
    requires m > 0 && (end + pad) % m == 0
    ensures (end + pad - x + x % m) % m == 0
  {
    var a, b := (end + pad) / m, x / m;
    assert x == m * b + x % m && end + pad == m * a;
    assert end + pad - x + x % m == m * (a - b) by {
      assert m * (a - b) == m * a - m * b;
    }
    P.ModOf(end + pad - x + x % m, a - b, 0, m);
  }
}
