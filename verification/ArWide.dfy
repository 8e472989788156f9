// An archive with BSD 4.4 names that is too long for its index, and whose 64-bit index is wrong.
module ArWide {
  import opened Bytes
  import opened ArFormat
  import opened ArArmap
  import opened ArWrite
  import opened ArLayout

  /** A name of 17 bytes. */
  const NAME: seq<byte> := [100, 97, 116, 97] + [97, 97, 97, 97, 97, 97, 97, 97, 97, 97, 97, 97, 97]

  /** Two members: data of the given contents under that name, and an object that defines the symbol `f`. */
  function Chain(data: ArHdr, contents: seq<byte>, code: ArHdr): (ms: seq<Member>)
    requires data.Valid() && code.Valid()
    ensures ValidChain(ms)
  {
    [Member(NAME, NAME, NAME, true, data, 20, Spaces(32), contents, false, false, []),
     Member([98], [98], [98], true, code, 0, Spaces(32), [], true, true, [Symbol([102], true, false, false)])]
  }

  lemma OneEntry(data: ArHdr, contents: seq<byte>, code: ArHdr)
    requires data.Valid() && code.Valid()
    ensures Entries(Chain(data, contents, code)) == [Orl([102], 1, 0)] && StrLen([Orl([102], 1, 0)]) == 2
  {
    var ms := Chain(data, contents, code);
    assert ms[..1][..0] == [] && Entries(ms[..1]) == [];
    assert ms[1].syms[..0] == [] && AddSyms([], [], 1) == [];
    assert StrLen([Orl([102], 1, 0)][..0]) == 0;
  }

  lemma NameIs(m: Member)
    requires m.filename == NAME
    ensures Name(m) == NAME && Padded4(|Name(m)|) == 20
  {
    BasenameIs(NAME);
  }

  lemma ChainAssembles(data: ArHdr, contents: seq<byte>, code: ArHdr, misc: seq<byte>)
    requires data.Valid() && code.Valid() && |misc| == 32 && |contents| == TWO32
    requires IsBsd44Name(data.name) && !IsBsd44Name(code.name)
    ensures Assembles(MACHO, Chain(data, contents, code), [], misc)
    ensures ExtLen(MACHO, Chain(data, contents, code)[0]) == 20
  {
    hide SizePad, IsBsd44Name, Basename, Padded4;
    var ms := Chain(data, contents, code);
    NameIs(ms[0]);
    SizeFits(|contents| + 20);
  }

  /** The members lie past the first 2^32 bytes, so that the BSD index gives way to the 64-bit one. */
  lemma FormIsWide(data: ArHdr, contents: seq<byte>, code: ArHdr)
    requires data.Valid() && code.Valid() && |contents| == TWO32
    ensures IndexForm(MACHO, Chain(data, contents, code), []) == Sym64Form
  {
    hide TableRoom, MapSize, Entries, StrLen, First;
    var ms, es := Chain(data, contents, code), [Orl([102], 1, 0)];
    OneEntry(data, contents, code);
    var first := First(BsdForm, 1, 2, TableRoom(0));
    assert Predicted(BsdForm, false, first, ms, 0) == first;
    assert Predicted(BsdForm, false, first, ms, 1) >= TWO32;
    assert Offsets(BsdForm, false, first, ms, es)[0] >= TWO32;
  }

  /** Whatever the headers and the 2^32 bytes of data are, the offset in the index is not where the object's
      header is: the 64-bit writer does not step over the name behind the first header. */
  lemma WideIndexIsWrong(data: ArHdr, contents: seq<byte>, code: ArHdr, misc: seq<byte>)
    requires data.Valid() && code.Valid() && |misc| == 32 && |contents| == TWO32
    requires IsBsd44Name(data.name) && !IsBsd44Name(code.name)
    ensures var ms := Chain(data, contents, code);
      && Assembles(MACHO, ms, [], misc) && Fits(ms, []) && |Entries(ms)| == 1
      && IndexForm(MACHO, ms, []) == Sym64Form
      && var position := Actual(MACHO, MembersStart(MACHO, true, ms, [], misc), ms, 1);
         && At(Assemble(MACHO, true, ms, [], misc), position, MemberBytes(MACHO, ms[1]))
         && IndexOffsets(MACHO, ms, [])[0] != position
  {
    hide Assemble, MembersStart, MemberBytes, At, IndexOffsets, Actual, TableBytes, IndexForm, Entries, StrLen, ExtLen,
      WrittenSize;
    var ms := Chain(data, contents, code);
    OneEntry(data, contents, code);
    ChainAssembles(data, contents, code, misc);
    FormIsWide(data, contents, code);
    IndexAgreesWithLayout(MACHO, ms, [], misc, 0);
    assert !StepsRight(MACHO, Sym64Form, ms[0]);
  }
}
