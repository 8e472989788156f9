// Laying out a demand-paged a.out file.
module ZMagic {
  import opened Bytes
  import opened Align
  import P = Patches

  /** What the target and the file fix: page and segment sizes as powers of two, the disk block size, the size
      of the header, the default text address; whether the text includes the header, relocs are kept, the
      header is not counted in the text, and memory is mapped in one piece. */
  datatype Target = Target(pagePower: nat, segmentPower: nat, diskBlock: nat, headerSize: nat, defaultTextVma: nat,
                           withHeader: bool, hasReloc: bool, headerNotCounted: bool, contiguous: bool)

  class Section {
    var vma: nat
    var filepos: int
    const size: nat
    const userSetVma: bool
    const alignmentPower: nat

    constructor (vma: nat, size: nat, userSetVma: bool, alignmentPower: nat)
    {
      this.vma, this.size, this.userSetVma, this.alignmentPower := vma, size, userSetVma, alignmentPower;
      filepos := 0;
    }
  }

  /** A section as it comes in. */
  datatype Input = Input(vma: nat, size: nat, placed: bool, power: nat)

  /** The layout: addresses, file positions and the sizes in the header. */
  datatype Layout = Layout(textVma: nat, textPos: int, dataVma: nat, dataPos: int, bssVma: nat,
                           aText: nat, aData: nat, aBss: nat)

  function Signed64(x: nat): int {
    if x >= TWO64 / 2 then x - TWO64 else x
  }

  function Page(t: Target): nat { P.Pow2(t.pagePower) }

  function TextPos(t: Target): nat { if t.withHeader then t.headerSize else t.diskBlock }

  function TextVma(t: Target, text: Input): nat {
    if text.placed then text.vma
    else if t.hasReloc then 0
    else if t.withHeader then W64(t.defaultTextVma + t.headerSize)
    else t.defaultTextVma
  }

  /** The padding of a text section placed by hand. */
  function FirstPad(t: Target, text: Input): nat {
    if !text.placed then 0
    else And(W64(if t.withHeader then TextPos(t) - text.vma else 0 - text.vma), Page(t) - 1)
  }

  function TextEnd(t: Target, text: Input): nat {
    if t.withHeader then TextPos(t) + text.size else text.size
  }

  /** The text size with both paddings. */
  function PaddedText(t: Target, text: Input): nat
    requires 0 < Page(t) < TWO64
  {
    var end := W64(TextEnd(t, text));
    W64(text.size + (FirstPad(t, text) + BfdAlign(end, Page(t)) - end))
  }

  function DataVma(t: Target, text: Input, data: Input): nat
    requires 0 < Page(t) < TWO64 && 0 < P.Pow2(t.segmentPower) < TWO64
  {
    if data.placed then data.vma else BfdAlign(W64(TextVma(t, text) + PaddedText(t, text)), P.Pow2(t.segmentPower))
  }

  /** What contiguous mapping adds: an unsigned difference, so that it is never below zero. */
  function Stretched(t: Target, text: Input, data: Input): nat
    requires 0 < Page(t) < TWO64 && 0 < P.Pow2(t.segmentPower) < TWO64
  {
    var padded := PaddedText(t, text);
    var pad := W64(DataVma(t, text, data) - (TextVma(t, text) + padded));
    if t.contiguous && pad > 0 then W64(padded + pad) else padded
  }

  function PaddedData(t: Target, data: Input, bss: Input): nat
    requires 0 < Page(t) < TWO64
  {
    BfdAlign(W64(AlignPower(data.size, bss.power)), Page(t))
  }

  /** `adjust_z_magic`. */
  function Adjusted(t: Target, text: Input, data: Input, bss: Input): Layout
    requires 0 < Page(t) < TWO64 && 0 < P.Pow2(t.segmentPower) < TWO64
  {
    var dataVma, stretched, aData := DataVma(t, text, data), Stretched(t, text, data), PaddedData(t, data, bss);
    var dataPad := W64(aData - data.size);
    var bssVma := if bss.placed then bss.vma else W64(dataVma + aData);
    Layout(TextVma(t, text), TextPos(t), dataVma, Signed64(W64(TextPos(t) + stretched)), bssVma,
           if t.withHeader && !t.headerNotCounted then W64(stretched + t.headerSize) else stretched,
           aData,
           if AlignPower(bssVma, bss.power) != W64(dataVma + aData) then bss.size
           else if dataPad > bss.size then 0 else bss.size - dataPad)
  }

  class Exec {
    var aText: nat
    var aData: nat
    var aBss: nat

    constructor (aText: nat)
      ensures this.aText == aText
    {
      this.aText, aData, aBss := aText, 0, 0;
    }
  }

  function InputOf(s: Section): Input
    reads s
  {
    Input(s.vma, s.size, s.userSetVma, s.alignmentPower)
  }

  // ---- the code --------------------------------------------------------

  method PlaceText(t: Target, text: Section, execp: Exec)
    requires 0 < Page(t) < TWO64 && execp.aText == text.size
    modifies text, execp`aText
    ensures text.vma == TextVma(t, old(InputOf(text))) && text.filepos == TextPos(t)
    ensures execp.aText == PaddedText(t, old(InputOf(text)))
  {
    hide And, BfdAlign, W64, P.Pow2;
    var page := P.Pow2(t.pagePower);
    var textPad: nat := 0;
    text.filepos := if t.withHeader then t.headerSize else t.diskBlock;
    if !text.userSetVma {
      text.vma := if t.hasReloc then 0
                  else if t.withHeader then W64(t.defaultTextVma + t.headerSize)
                  else t.defaultTextVma;
    } else if t.withHeader {
      textPad := And(W64(text.filepos - text.vma), page - 1);
    } else {
      textPad := And(W64(0 - text.vma), page - 1);
    }
    var textEnd := W64(if t.withHeader then text.filepos + execp.aText else execp.aText);
    execp.aText := W64(execp.aText + (textPad + BfdAlign(textEnd, page) - textEnd));
  }

  method PlaceData(t: Target, text: Section, data: Section, execp: Exec, ghost i: Input)
    requires 0 < Page(t) < TWO64 && 0 < P.Pow2(t.segmentPower) < TWO64 && text != data
    requires text.vma == TextVma(t, i) && text.filepos == TextPos(t) && execp.aText == PaddedText(t, i)
    modifies data, execp`aText
    ensures data.vma == DataVma(t, i, old(InputOf(data))) && execp.aText == Stretched(t, i, old(InputOf(data)))
    ensures data.filepos == Signed64(W64(TextPos(t) + execp.aText))
  {
    hide BfdAlign, W64, P.Pow2, PaddedText, TextVma, TextPos;
    if !data.userSetVma {
      data.vma := BfdAlign(W64(text.vma + execp.aText), P.Pow2(t.segmentPower));
    }
    if t.contiguous {
      var textPad := W64(data.vma - (text.vma + execp.aText));
      if textPad > 0 {
        execp.aText := W64(execp.aText + textPad);
      }
    }
    data.filepos := Signed64(W64(text.filepos + execp.aText));
  }

  /** `adjust_z_magic`. */
  method AdjustZMagic(t: Target, text: Section, data: Section, bss: Section, execp: Exec)
    requires 0 < Page(t) < TWO64 && 0 < P.Pow2(t.segmentPower) < TWO64
    requires execp.aText == text.size && text != data && text != bss && data != bss
    modifies text, data, bss`vma, execp
    ensures Layout(text.vma, text.filepos, data.vma, data.filepos, bss.vma, execp.aText, execp.aData, execp.aBss)
      == Adjusted(t, old(InputOf(text)), old(InputOf(data)), old(InputOf(bss)))
  {
    hide BfdAlign, AlignPower, W64, P.Pow2, PaddedText, Stretched, DataVma, TextVma, TextPos, Signed64;
    PlaceText(t, text, execp);
    PlaceData(t, text, data, execp, old(InputOf(text)));
    if t.withHeader && !t.headerNotCounted {
      execp.aText := W64(execp.aText + t.headerSize);
    }
    execp.aData := W64(AlignPower(data.size, bss.alignmentPower));
    execp.aData := BfdAlign(execp.aData, Page(t));
    var dataPad := W64(execp.aData - data.size);
    if !bss.userSetVma {
      bss.vma := W64(data.vma + execp.aData);
    }
    if AlignPower(bss.vma, bss.alignmentPower) == W64(data.vma + execp.aData) {
      execp.aBss := if dataPad > bss.size then 0 else bss.size - dataPad;
    } else {
      execp.aBss := bss.size;
    }
  }
}
