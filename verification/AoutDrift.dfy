// A reloc that drifts: linking its partial output is not linking it directly.
module AoutDrift {
  import opened Bytes
  import opened Patches
  import opened AoutReloc
  import opened AoutSection
  import opened AoutPartial
  import opened AoutSymtab
  import opened AoutRenumber
  import opened AoutJoin

  /** The section headers of the three links: the data section is at 16 in its input, at 0 in the partial
      output and at 4096 in the end, the text at 0, at 0 and at 256. */
  const FIRST := LinkOf(Section(0, 0, 0, Text), Section(16, 0, 0, Data))
  const SECOND := LinkOf(Section(0, 256, 0, Text), Section(0, 4096, 0, Data))
  const DIRECT := LinkOf(Section(0, 256, 0, Text), Section(16, 4096, 0, Data))

  /** A link of one symbol, at the start of the text. */
  function LinkOf(text: Section, data: Section): Link {
    Link(text, data, Section(0, 0, 0, Bss), Data, [Defined(0, text)], [Record(Text, 0)], [0])
  }

  /** The first word of the data is relative to its own place, and names that symbol. */
  const WORD := StdReloc(0, 0, true, true, 4)

  /** The reloc comes out of the partial link against the text section. */
  const MOVED := StdReloc(0, 4, false, true, 4)

  const DRIFTING := StdInput([], [0, 0, 0, 0], [WORD], FIRST, DIRECT)

  lemma DriftingSections(k: Kind)
    requires k != Abs
    ensures SectionChains(FIRST, SECOND, DIRECT, k)
  {
    match k
    case Text =>
    case Data =>
    case Bss =>
  }

  /** A symbol at the start of a text that stays at 0 in the partial output. */
  lemma StartOfText(first: Link, second: Link, direct: Link, text: Section)
    requires first.syms == [Defined(0, Section(0, 0, 0, Text))] && first.newIndex == [0]
    requires direct.syms == [Defined(0, text)] && second.text == text && text.vma == 0
    ensures SymChains(first, second, direct, 0)
  {
  }

  lemma DriftingSymbol()
    ensures SymChains(FIRST, SECOND, DIRECT, 0)
  {
    hide SymChains;
    StartOfText(FIRST, SECOND, DIRECT, Section(0, 256, 0, Text));
  }

  lemma DriftingRecord()
    ensures RecordChains(FIRST, SECOND, DIRECT, 0)
  {
    assert FIRST.records == SECOND.records == DIRECT.records == [Record(Text, 0)];
    assert SecOf(FIRST, Text) == Section(0, 0, 0, Text);
  }

  lemma DriftingChains()
    ensures Chains(FIRST, SECOND, DIRECT)
  {
    hide SectionChains, SymChains, RecordChains;
    forall k: Kind | k != Abs
      ensures SectionChains(FIRST, SECOND, DIRECT, k)
    {
      DriftingSections(k);
    }
    DriftingSymbol();
    DriftingRecord();
  }

  lemma DriftingOk()
    ensures StdInputsOk([DRIFTING], SECOND)
    ensures StdPartialRelocs([DRIFTING], SECOND) == [MOVED]
  {
    hide Chains;
    DriftingChains();
    assert StdInputOk(DRIFTING, SECOND);
    assert StdMoved(FIRST, WORD) == MOVED;
    assert AllStdMoved(FIRST, [WORD]) == [MOVED];
    assert [DRIFTING][..0] == [] && StdPartialRelocs([], SECOND) == [];
  }

  lemma OnePiece(ps: seq<Piece>)
    requires |ps| == 1 && ps[0].gap == []
    ensures OffsetOf(ps, 0) == 0 && |Joined(ps)| == |ps[0].contents|
  {
    assert ps[..0] == [];
  }

  lemma DriftingPlaced(big: bool)
    requires StdInputsOk([DRIFTING], SECOND)
    ensures StdPlaced([DRIFTING], SECOND, big) && |Joined(StdPartialPieces([DRIFTING], SECOND, big))| == 4
  {
    hide StdInputOk, StdPartialPiece, OffsetOf, Joined, StdPartialPieces;
    var ps := StdPartialPieces([DRIFTING], SECOND, big);
    assert StdInputOk([DRIFTING][0], SECOND);
    assert ps[0] == StdPartialPiece(DRIFTING, SECOND, big);
    PieceShape(big);
    OnePiece(ps);
  }

  lemma PieceShape(big: bool)
    requires StdInputOk(DRIFTING, SECOND)
    ensures StdPartialPiece(DRIFTING, SECOND, big).gap == [] && |StdPartialPiece(DRIFTING, SECOND, big).contents| == 4
  {
  }

  lemma WordDrifts()
    requires AllStdOk(FIRST, [WORD], 4)
    ensures !AllNoDrift(FIRST, [WORD], 4)
  {
    assert StdOk(FIRST, [WORD][0], 4);
    assert Drift(FIRST, StdTarget(WORD), true, false) == 16;
    assert !NoDrift(FIRST, [WORD][0]);
  }

  /** Everything the law about partial links asks for holds, and the contents differ. */
  lemma PartialLinkDiffers(big: bool)
    ensures StdInputsOk([DRIFTING], SECOND) && StdPlaced([DRIFTING], SECOND, big)
    ensures AllStdOk(SECOND, StdPartialRelocs([DRIFTING], SECOND), |Joined(StdPartialPieces([DRIFTING], SECOND, big))|)
    ensures var section := Joined(StdPartialPieces([DRIFTING], SECOND, big));
      ApplyAll(StdPatches(SECOND, false, StdPartialRelocs([DRIFTING], SECOND), |section|), section, big)
        != Joined(StdDirectPieces([DRIFTING], SECOND, big))
  {
    hide StdInputOk, StdPlaced, StdPartialRelocs, StdPartialPieces, StdDirectPieces, Joined, ApplyAll, AllNoDrift;
    DriftingOk();
    DriftingPlaced(big);
    assert StdOk(SECOND, MOVED, 4);
    FirstOk();
    WordDrifts();
    PartialLinkStd([DRIFTING], SECOND, big);
    assert !AllNoDrift([DRIFTING][0].first, [DRIFTING][0].relocs, |[DRIFTING][0].contents|);
  }

  lemma FirstOk()
    ensures AllStdOk(FIRST, [WORD], 4)
  {
    assert StdOk(FIRST, WORD, 4);
  }

  // ---- the symbol tables of such links ---------------------------------

  const F: Name := [102]

  /** A partial link of one input, with the sections of `FIRST`, whose one symbol waits to be defined. */
  const INPUT := WriteInput(
    Config(StripNone, DiscardNone, {}, {}, true, FIRST.text, FIRST.data, FIRST.bss, [97]), [Nlist(N_EXT, 0, 0, F, 0)],
    [Some(F)])
  const WAITING := Run(StripNone, {}, Table(map[F := Entry(Undefd, -1, false)], [], map[]), [INPUT])

  /** Both final links define it at the start of the text. */
  const DEFS := map[F := Def(0, Section(0, 256, 0, Text), false)]

  lemma WaitingStarts()
    ensures AoutJoin.Sound(WAITING) && IsInput(WAITING, 0)
    ensures Begin(WAITING, 0).out == [FileSymbol(INPUT.cfg)]
  {
    assert WAITING.steps[..0] == [];
  }

  lemma WaitingEnds()
    ensures var r := Ended(WAITING, 0);
      && r.smap == [1] && r.out == [FileSymbol(INPUT.cfg), INPUT.syms[0]] && Last(WAITING).out == r.out
      && KindOfType(N_EXT) == None
  {
    hide Classify;
    WaitingStarts();
    var st := Begin(WAITING, 0);
    WaitingClassified(INPUT.cfg, INPUT.syms[0]);
    assert Reached(WAITING, 0, 0) == st;
    NextReached(WAITING, 0, 0);
    ResolvesToItself(st.hash, F);
    AfterNext(WAITING, 0);
    assert WAITING.steps[..1] == WAITING.steps;
  }

  lemma WaitingClassified(cfg: Config, s: Nlist)
    requires s.typ == N_EXT
    ensures Classify(cfg, s, Some(Undefd)) == Written(N_EXT, 0, false, false)
  {
    hide SectionValue;
    assert TypeBits(N_EXT) == 0;
  }

  /** The hypotheses of the join hold together, and the symbol gets index 1, behind the file's own. */
  lemma TablesExist()
    ensures AoutJoin.Sound(WAITING) && IsInput(WAITING, 0) && NoWrap(WAITING, 0)
    ensures var at2, atD := Sections(SECOND.text, SECOND.data, SECOND.bss),
      Sections(DIRECT.text, DIRECT.data, DIRECT.bss);
      var f, s, d := AoutJoin.First(WAITING, 0, Data), Second(WAITING, at2, Data, DEFS),
        Direct(WAITING, 0, atD, Data, DEFS);
      && SameDefinitions(WAITING, s, DEFS, DEFS) && (forall k: Kind :: k != Abs ==> SectionChains(f, s, d, k))
      && f.syms == [Undefined] && f.newIndex == [1] && Chains(f, s, d)
  {
    hide Reached, Begin, Last, SectionChains, Chains;
    WaitingStarts();
    WaitingEnds();
    var at2, atD := Sections(SECOND.text, SECOND.data, SECOND.bss), Sections(DIRECT.text, DIRECT.data, DIRECT.bss);
    forall k: Kind | k != Abs
      ensures SectionChains(AoutJoin.First(WAITING, 0, Data), Second(WAITING, at2, Data, DEFS),
                            Direct(WAITING, 0, atD, Data, DEFS), k)
    {
      SameSections(AoutJoin.First(WAITING, 0, Data), Second(WAITING, at2, Data, DEFS),
                   Direct(WAITING, 0, atD, Data, DEFS), k);
    }
    ChainsHold(WAITING, 0, at2, atD, Data, DEFS, DEFS);
  }

  lemma SameSections(first: Link, second: Link, direct: Link, k: Kind)
    requires first.text == FIRST.text && first.data == FIRST.data && first.bss == FIRST.bss
    requires second.text == SECOND.text && second.data == SECOND.data && second.bss == SECOND.bss
    requires direct.text == DIRECT.text && direct.data == DIRECT.data && direct.bss == DIRECT.bss && k != Abs
    ensures SectionChains(first, second, direct, k)
  {
    hide SectionChains;
    DriftingSections(k);
    assert SecOf(first, k) == SecOf(FIRST, k) && SecOf(second, k) == SecOf(SECOND, k);
    assert SecOf(direct, k) == SecOf(DIRECT, k);
    SectionsAlone(first, second, direct, k);
  }

  lemma SectionsAlone(first: Link, second: Link, direct: Link, k: Kind)
    requires SecOf(first, k) == SecOf(FIRST, k) && SecOf(second, k) == SecOf(SECOND, k)
    requires SecOf(direct, k) == SecOf(DIRECT, k) && SectionChains(FIRST, SECOND, DIRECT, k)
    ensures SectionChains(first, second, direct, k)
  {
    hide SecOf;
  }
}
