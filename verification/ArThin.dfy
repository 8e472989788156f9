// A thin archive whose BSD index is wrong.
module ArThin {
  import opened Bytes
  import opened ArFormat
  import opened ArArmap
  import opened ArWrite
  import opened ArLayout

  /** Thin archives of a.out targets. */
  const THIN_BSD := Format(Bsd, BsdMap, true, SPACE, false)

  /** Two members: data of six bytes, and an object that defines the symbol `f`. */
  function Chain(data: ArHdr, code: ArHdr): (ms: seq<Member>)
    requires data.Valid() && code.Valid()
    ensures ValidChain(ms)
  {
    [Member([97], [97], [97], true, data, 0, Spaces(32), [1, 2, 3, 4, 5, 6], false, false, []),
     Member([98], [98], [98], true, code, 0, Spaces(32), [], true, true, [Symbol([102], true, false, false)])]
  }

  lemma OneEntry(data: ArHdr, code: ArHdr)
    requires data.Valid() && code.Valid()
    ensures Entries(Chain(data, code)) == [Orl([102], 1, 0)] && StrLen([Orl([102], 1, 0)]) == 2
  {
    var ms := Chain(data, code);
    assert ms[..1][..0] == [] && Entries(ms[..1]) == [];
    assert ms[1].syms[..0] == [] && AddSyms([], [], 1) == [];
    assert StrLen([Orl([102], 1, 0)][..0]) == 0;
  }

  /** Whatever the headers and the name table are, the offset in the index is not where the object's header
      is: the writer steps over six bytes a thin archive does not store. */
  lemma ThinIndexIsWrong(data: ArHdr, code: ArHdr, table: seq<byte>, misc: seq<byte>)
    requires data.Valid() && code.Valid() && |misc| == 32
    requires TableBytes(THIN_BSD, table).Some? && |table| + 1000 < TWO32
    ensures var ms := Chain(data, code);
      && Assembles(THIN_BSD, ms, table, misc) && Fits(ms, table) && |Entries(ms)| == 1
      && var position := Actual(THIN_BSD, MembersStart(THIN_BSD, true, ms, table, misc), ms, 1);
         && At(Assemble(THIN_BSD, true, ms, table, misc), position, MemberBytes(THIN_BSD, ms[1]))
         && IndexOffsets(THIN_BSD, ms, table)[0] != position
  {
    hide Assemble, MembersStart, MemberBytes, At, IndexOffsets, Actual, TableBytes, IndexForm, Entries, StrLen;
    var ms := Chain(data, code);
    OneEntry(data, code);
    assert Assembles(THIN_BSD, ms, table, misc);
    FormIsBsd(data, code, table);
    IndexAgreesWithLayout(THIN_BSD, ms, table, misc, 0);
    assert !StepsRight(THIN_BSD, BsdForm, ms[0]);
  }

  lemma FormIsBsd(data: ArHdr, code: ArHdr, table: seq<byte>)
    requires data.Valid() && code.Valid() && |table| + 1000 < TWO32
    requires TableBytes(THIN_BSD, table).Some?
    ensures IndexForm(THIN_BSD, Chain(data, code), table) == BsdForm
  {
    hide TableBytes, TableRoom, MapSize, Entries, StrLen, First;
    var ms, es := Chain(data, code), [Orl([102], 1, 0)];
    OneEntry(data, code);
    RoomIsExact(THIN_BSD, table);
    FirstBelow(TableRoom(|table|));
    var first := First(BsdForm, 1, 2, TableRoom(|table|));
    assert Predicted(BsdForm, true, first, ms, 0) == first;
    assert Predicted(BsdForm, true, first, ms, 1) < TWO32;
  }

  lemma FirstBelow(room: nat)
    requires room + 900 < TWO32
    ensures First(BsdForm, 1, 2, room) <= room + 100
  {
    MapSizeExact(BsdForm, 1, 2);
  }
}
