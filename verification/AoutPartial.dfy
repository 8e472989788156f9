// `ld -r` of several inputs, then a final link, against linking the inputs directly.
module AoutPartial {
  import opened Bytes
  import opened Patches
  import opened AoutReloc
  import opened AoutSection
  import opened AoutExt

  /** One input section: the alignment bytes before it, its contents, its relocs, and the two links
      that see it. */
  datatype StdInput = StdInput(gap: seq<byte>, contents: seq<byte>, relocs: seq<StdReloc>, first: Link, direct: Link)

  ghost predicate StdInputOk(i: StdInput, second: Link) {
    && Chains(i.first, second, i.direct)
    && AllStdOk(i.first, i.relocs, |i.contents|) && AllStdOk(i.direct, i.relocs, |i.contents|)
    && StdSeparate(i.relocs) && 0 <= Input(i.first).outOffset
  }

  ghost predicate StdInputsOk(ins: seq<StdInput>, second: Link) {
    forall k :: 0 <= k < |ins| ==> StdInputOk(ins[k], second)
  }

  /** The second link knows what the inputs' moved relocs name. */
  ghost predicate StdReaches(i: StdInput, second: Link)
    requires StdInputOk(i, second)
  {
    forall k :: 0 <= k < |i.relocs| ==> TargetOk(second, StdTarget(StdMoved(i.first, i.relocs[k])))
  }

  lemma StdAllReach(ins: seq<StdInput>, second: Link)
    requires StdInputsOk(ins, second)
    ensures forall k :: 0 <= k < |ins| ==> StdReaches(ins[k], second)
  {
    hide Chains, StdTarget, StdMoved, TargetOk;
    forall k | 0 <= k < |ins|
      ensures StdReaches(ins[k], second)
    {
      assert StdInputOk(ins[k], second);
      StdTargets(ins[k].first, second, ins[k].direct, ins[k].relocs, |ins[k].contents|);
    }
  }

  /** The pieces of the partial output section. */
  ghost function StdPartialPieces(ins: seq<StdInput>, second: Link, big: bool): (r: seq<Piece>)
    requires StdInputsOk(ins, second)
    ensures |r| == |ins|
    ensures forall k :: 0 <= k < |ins| ==> r[k] == StdPartialPiece(ins[k], second, big)
  {
    seq(|ins|, k requires 0 <= k < |ins| => StdPartialPiece(ins[k], second, big))
  }

  ghost function StdPartialPiece(i: StdInput, second: Link, big: bool): (r: Piece)
    requires StdInputOk(i, second)
    ensures |r.contents| == |i.contents|
  {
    Piece(i.gap, ApplyAll(StdPatches(i.first, true, i.relocs, |i.contents|), i.contents, big))
  }

  /** What a direct link makes of the inputs. */
  ghost function StdDirectPieces(ins: seq<StdInput>, second: Link, big: bool): (r: seq<Piece>)
    requires StdInputsOk(ins, second)
    ensures |r| == |ins|
    ensures forall k :: 0 <= k < |ins| ==> r[k] == StdDirectPiece(ins[k], second, big)
  {
    seq(|ins|, k requires 0 <= k < |ins| => StdDirectPiece(ins[k], second, big))
  }

  ghost function StdDirectPiece(i: StdInput, second: Link, big: bool): (r: Piece)
    requires StdInputOk(i, second)
    ensures |r.contents| == |i.contents|
  {
    Piece(i.gap, ApplyAll(StdPatches(i.direct, false, i.relocs, |i.contents|), i.contents, big))
  }

  /** The relocs of the partial output section: those of the inputs, moved, one input after another. */
  ghost function StdPartialRelocs(ins: seq<StdInput>, second: Link): seq<StdReloc>
    requires StdInputsOk(ins, second)
  {
    if ins == [] then []
    else
      var n := |ins| - 1;
      StdPartialRelocs(ins[..n], second) + AllStdMoved(ins[n].first, ins[n].relocs)
  }

  ghost function StdLocals(ins: seq<StdInput>, second: Link): (es: seq<seq<Patch>>)
    requires StdInputsOk(ins, second) && (forall k :: 0 <= k < |ins| ==> StdReaches(ins[k], second))
    ensures |es| == |ins|
    ensures forall k :: 0 <= k < |ins| ==>
      StdReaches(ins[k], second) && es[k] == StdLocal(ins[k].first, second, ins[k].relocs, |ins[k].contents|)
  {
    seq(|ins|, k requires 0 <= k < |ins| && StdReaches(ins[k], second) =>
      StdLocal(ins[k].first, second, ins[k].relocs, |ins[k].contents|))
  }

  /** Each input's output offset is where its contents are placed. */
  ghost predicate StdPlaced(ins: seq<StdInput>, second: Link, big: bool)
    requires StdInputsOk(ins, second)
  {
    forall k :: 0 <= k < |ins| ==> Input(ins[k].first).outOffset == OffsetOf(StdPartialPieces(ins, second, big), k)
  }

  lemma StdMovedPatch(i: StdInput, second: Link, o: nat, k: nat)
    requires StdInputOk(i, second) && StdReaches(i, second) && k < |i.relocs| && o == Input(i.first).outOffset
    ensures StdFinalPatch(second, StdMoved(i.first, i.relocs[k]))
      == Moved(StdLocal(i.first, second, i.relocs, |i.contents|)[k], o)
  {
    hide Chains, FinalShift, W64, StdSeparate;
    assert StdOk(i.first, i.relocs[k], |i.contents|);
    SwordSmall(i.relocs[k].addr + o);
  }

  lemma StdPrefix(ins: seq<StdInput>, second: Link, big: bool)
    requires StdInputsOk(ins, second) && StdPlaced(ins, second, big) && ins != []
    requires forall k :: 0 <= k < |ins| ==> StdReaches(ins[k], second)
    ensures var n, ps := |ins| - 1, StdPartialPieces(ins, second, big);
      && StdPartialPieces(ins[..n], second, big) == ps[..n] && StdPlaced(ins[..n], second, big)
      && StdLocals(ins[..n], second) == StdLocals(ins, second)[..n]
      && Input(ins[n].first).outOffset == OffsetOf(ps, n)
  {
    hide StdInputOk, StdReaches, Input, Joined, StdPartialPiece, StdLocal;
    var n, ps := |ins| - 1, StdPartialPieces(ins, second, big);
    assert StdPartialPieces(ins[..n], second, big) == ps[..n];
    forall k | 0 <= k < n
      ensures Input(ins[..n][k].first).outOffset == OffsetOf(ps[..n], k)
    {
      assert ps[..n][..k] == ps[..k];
    }
  }

  lemma StdLast(i: StdInput, second: Link, o: nat)
    requires StdInputOk(i, second) && StdReaches(i, second) && o == Input(i.first).outOffset
    ensures var rs, es := AllStdMoved(i.first, i.relocs),
      AllMoved(StdLocal(i.first, second, i.relocs, |i.contents|), o);
      && |rs| == |es|
      && forall k :: 0 <= k < |rs| ==> TargetOk(second, StdTarget(rs[k])) && es[k] == StdFinalPatch(second, rs[k])
  {
    hide Chains, StdTarget, StdMoved, StdFinalPatch, TargetOk, Moved;
    forall k | 0 <= k < |i.relocs|
      ensures StdFinalPatch(second, StdMoved(i.first, i.relocs[k]))
        == Moved(StdLocal(i.first, second, i.relocs, |i.contents|)[k], o)
    {
      StdMovedPatch(i, second, o, k);
    }
  }

  /** The edits of the second link over the whole section are the pieces' edits, moved to their places. */
  lemma {:induction false} StdEdits(ins: seq<StdInput>, second: Link, big: bool)
    requires StdInputsOk(ins, second) && StdPlaced(ins, second, big)
    requires forall k :: 0 <= k < |ins| ==> StdReaches(ins[k], second)
    ensures var rs, es := StdPartialRelocs(ins, second),
      AllEdits(StdPartialPieces(ins, second, big), StdLocals(ins, second));
      && |rs| == |es|
      && forall k :: 0 <= k < |rs| ==> TargetOk(second, StdTarget(rs[k])) && es[k] == StdFinalPatch(second, rs[k])
  {
    hide StdInputOk, StdReaches, StdTarget, StdFinalPatch, StdLocal, StdPartialPiece, TargetOk, AllStdMoved, AllMoved,
      OffsetOf, StdPlaced, Input;
    if ins != [] {
      var n := |ins| - 1;
      StdPrefix(ins, second, big);
      StdEdits(ins[..n], second, big);
      StdLast(ins[n], second, OffsetOf(StdPartialPieces(ins, second, big), n));
    }
  }

  /** Partial linking preserves meaning (standard relocs): linking the partial output makes of the
      section exactly what a direct link makes of the inputs, if and only if no reloc drifts. */
  lemma PartialLinkStd(ins: seq<StdInput>, second: Link, big: bool)
    requires StdInputsOk(ins, second) && StdPlaced(ins, second, big)
    requires AllStdOk(second, StdPartialRelocs(ins, second), |Joined(StdPartialPieces(ins, second, big))|)
    ensures var section := Joined(StdPartialPieces(ins, second, big));
      ApplyAll(StdPatches(second, false, StdPartialRelocs(ins, second), |section|), section, big)
        == Joined(StdDirectPieces(ins, second, big))
      <==> forall k :: 0 <= k < |ins| ==> AllNoDrift(ins[k].first, ins[k].relocs, |ins[k].contents|)
  {
    hide Chains, StdTarget, StdMoved, StdFinalPatch, StdLocal, ApplyAll, AllNoDrift, AllEdits, StdPartialRelocs,
      Joined, StdPlaced, TargetOk,
      AllStdOk, StdSeparate, StdPatches;
    StdAllReach(ins, second);
    var ps, es, ds := StdPartialPieces(ins, second, big), StdLocals(ins, second), StdDirectPieces(ins, second, big);
    StdEdits(ins, second, big);
    assert StdPatches(second, false, StdPartialRelocs(ins, second), |Joined(ps)|) == AllEdits(ps, es);
    PiecewiseEdits(ps, es, big);
    JoinedSame(Edited(ps, es, big), ds);
    forall k | 0 <= k < |ins|
      ensures Edited(ps, es, big)[k].contents == ds[k].contents
        <==> AllNoDrift(ins[k].first, ins[k].relocs, |ins[k].contents|)
    {
      assert StdInputOk(ins[k], second);
      StdSectionTwice(ins[k].first, second, ins[k].direct, ins[k].relocs, ins[k].contents, big);
    }
  }

  // ---- extended relocs -------------------------------------------------

  datatype ExtInput = ExtInput(gap: seq<byte>, contents: seq<byte>, relocs: seq<ExtReloc>, first: Link, direct: Link)

  ghost predicate ExtInputOk(i: ExtInput, second: Link) {
    && Chains(i.first, second, i.direct)
    && AllExtOk(i.first, i.relocs, |i.contents|) && AllExtOk(i.direct, i.relocs, |i.contents|)
    && 0 <= Input(i.first).outOffset
  }

  ghost predicate ExtInputsOk(ins: seq<ExtInput>, second: Link) {
    forall k :: 0 <= k < |ins| ==> ExtInputOk(ins[k], second)
  }

  /** The second link knows what the inputs' moved relocs name. */
  ghost predicate ExtReaches(i: ExtInput, second: Link)
    requires ExtInputOk(i, second)
  {
    forall k :: 0 <= k < |i.relocs| ==> TargetOk(second, ExtTarget(ExtMoved(i.first, i.relocs[k])))
  }

  lemma ExtAllReach(ins: seq<ExtInput>, second: Link)
    requires ExtInputsOk(ins, second)
    ensures forall k :: 0 <= k < |ins| ==> ExtReaches(ins[k], second)
  {
    hide Chains, ExtTarget, ExtMoved, TargetOk;
    forall k | 0 <= k < |ins|
      ensures ExtReaches(ins[k], second)
    {
      assert ExtInputOk(ins[k], second);
      ExtTargets(ins[k].first, second, ins[k].direct, ins[k].relocs, |ins[k].contents|);
    }
  }

  /** The partial link leaves contents alone. */
  function ExtPieces(ins: seq<ExtInput>): (r: seq<Piece>)
    ensures |r| == |ins| && forall k :: 0 <= k < |ins| ==> r[k] == Piece(ins[k].gap, ins[k].contents)
  {
    seq(|ins|, k requires 0 <= k < |ins| => Piece(ins[k].gap, ins[k].contents))
  }

  ghost function ExtDirectPieces(ins: seq<ExtInput>, second: Link, big: bool): (r: seq<Piece>)
    requires ExtInputsOk(ins, second)
    ensures |r| == |ins|
    ensures forall k :: 0 <= k < |ins| ==> r[k] == ExtDirectPiece(ins[k], second, big)
  {
    seq(|ins|, k requires 0 <= k < |ins| => ExtDirectPiece(ins[k], second, big))
  }

  ghost function ExtDirectPiece(i: ExtInput, second: Link, big: bool): (r: Piece)
    requires ExtInputOk(i, second)
    ensures |r.contents| == |i.contents|
  {
    Piece(i.gap, ApplyAll(ExtPatches(i.direct, i.relocs, |i.contents|), i.contents, big))
  }

  function AllExtMoved(l: Link, rs: seq<ExtReloc>): (r: seq<ExtReloc>)
    requires forall i :: 0 <= i < |rs| ==> TargetOk(l, ExtTarget(rs[i])) && 0 <= Sword(rs[i].addr + Input(l).outOffset)
    ensures |r| == |rs| && forall i :: 0 <= i < |rs| ==> r[i] == ExtMoved(l, rs[i])
  {
    seq(|rs|, i requires 0 <= i < |rs| => ExtMoved(l, rs[i]))
  }

  ghost function ExtPartialRelocs(ins: seq<ExtInput>, second: Link): seq<ExtReloc>
    requires ExtInputsOk(ins, second)
  {
    if ins == [] then []
    else
      var n := |ins| - 1;
      ExtPartialRelocs(ins[..n], second) + AllExtMoved(ins[n].first, ins[n].relocs)
  }

  ghost function ExtLocals(ins: seq<ExtInput>, second: Link): (es: seq<seq<Patch>>)
    requires ExtInputsOk(ins, second) && (forall k :: 0 <= k < |ins| ==> ExtReaches(ins[k], second))
    ensures |es| == |ins|
    ensures forall k :: 0 <= k < |ins| ==>
      ExtReaches(ins[k], second) && es[k] == ExtLocal(ins[k].first, second, ins[k].relocs, |ins[k].contents|)
  {
    seq(|ins|, k requires 0 <= k < |ins| && ExtReaches(ins[k], second) =>
      ExtLocal(ins[k].first, second, ins[k].relocs, |ins[k].contents|))
  }

  predicate ExtPlaced(ins: seq<ExtInput>) {
    forall k :: 0 <= k < |ins| ==> Input(ins[k].first).outOffset == OffsetOf(ExtPieces(ins), k)
  }

  lemma ExtMovedPatch(i: ExtInput, second: Link, o: nat, k: nat)
    requires ExtInputOk(i, second) && ExtReaches(i, second) && k < |i.relocs| && o == Input(i.first).outOffset
    ensures ExtPatch(second, ExtMoved(i.first, i.relocs[k]))
      == Moved(ExtLocal(i.first, second, i.relocs, |i.contents|)[k], o)
  {
    hide Chains, FinalShift, W64, PartialShift;
    assert ExtOk(i.first, i.relocs[k], |i.contents|);
    SwordSmall(i.relocs[k].addr + o);
  }

  lemma ExtPrefix(ins: seq<ExtInput>, second: Link)
    requires ExtInputsOk(ins, second) && ExtPlaced(ins) && ins != []
    requires forall k :: 0 <= k < |ins| ==> ExtReaches(ins[k], second)
    ensures var n, ps := |ins| - 1, ExtPieces(ins);
      && ExtPieces(ins[..n]) == ps[..n] && ExtPlaced(ins[..n])
      && ExtLocals(ins[..n], second) == ExtLocals(ins, second)[..n]
      && Input(ins[n].first).outOffset == OffsetOf(ps, n)
  {
    hide ExtInputOk, ExtReaches, Input, Joined, ExtLocal;
    var n, ps := |ins| - 1, ExtPieces(ins);
    assert ExtPieces(ins[..n]) == ps[..n];
    forall k | 0 <= k < n
      ensures Input(ins[..n][k].first).outOffset == OffsetOf(ps[..n], k)
    {
      assert ps[..n][..k] == ps[..k];
    }
  }

  lemma ExtLast(i: ExtInput, second: Link, o: nat)
    requires ExtInputOk(i, second) && ExtReaches(i, second) && o == Input(i.first).outOffset
    ensures var rs, es := AllExtMoved(i.first, i.relocs),
      AllMoved(ExtLocal(i.first, second, i.relocs, |i.contents|), o);
      && |rs| == |es|
      && forall k :: 0 <= k < |rs| ==> TargetOk(second, ExtTarget(rs[k])) && es[k] == ExtPatch(second, rs[k])
  {
    hide Chains, ExtTarget, ExtMoved, ExtPatch, TargetOk, Moved;
    forall k | 0 <= k < |i.relocs|
      ensures ExtPatch(second, ExtMoved(i.first, i.relocs[k]))
        == Moved(ExtLocal(i.first, second, i.relocs, |i.contents|)[k], o)
    {
      ExtMovedPatch(i, second, o, k);
    }
  }

  lemma {:induction false} ExtEdits(ins: seq<ExtInput>, second: Link)
    requires ExtInputsOk(ins, second) && ExtPlaced(ins)
    requires forall k :: 0 <= k < |ins| ==> ExtReaches(ins[k], second)
    ensures var rs, es := ExtPartialRelocs(ins, second), AllEdits(ExtPieces(ins), ExtLocals(ins, second));
      && |rs| == |es|
      && forall k :: 0 <= k < |rs| ==> TargetOk(second, ExtTarget(rs[k])) && es[k] == ExtPatch(second, rs[k])
  {
    hide ExtInputOk, ExtReaches, ExtTarget, ExtPatch, ExtLocal, TargetOk, AllExtMoved, AllMoved, OffsetOf, ExtPlaced,
      Input;
    if ins != [] {
      var n := |ins| - 1;
      ExtPrefix(ins, second);
      ExtEdits(ins[..n], second);
      ExtLast(ins[n], second, OffsetOf(ExtPieces(ins), n));
    }
  }

  ghost predicate ExtAllKept(ins: seq<ExtInput>, second: Link)
    requires ExtInputsOk(ins, second)
  {
    forall k :: 0 <= k < |ins| ==>
      AllExtKept(ins[k].first, ins[k].direct, ins[k].relocs, |ins[k].contents|)
  }

  /** Partial linking preserves meaning (extended relocs): linking the partial output makes of the
      section exactly what a direct link makes of the inputs if no drift reaches the bits of a field,
      and, when the fields of each input are separate, only if. */
  lemma PartialLinkExt(ins: seq<ExtInput>, second: Link, big: bool)
    requires ExtInputsOk(ins, second) && ExtPlaced(ins)
    requires AllExtOk(second, ExtPartialRelocs(ins, second), |Joined(ExtPieces(ins))|)
    ensures var section := Joined(ExtPieces(ins));
      var same := ApplyAll(ExtPatches(second, ExtPartialRelocs(ins, second), |section|), section, big)
        == Joined(ExtDirectPieces(ins, second, big));
      && (ExtAllKept(ins, second) ==> same)
      && ((forall k :: 0 <= k < |ins| ==> ExtSeparate(ins[k].relocs)) ==> (same <==> ExtAllKept(ins, second)))
  {
    hide Chains, ExtTarget, ExtMoved, ExtPatch, ExtLocal, ApplyAll, AllExtKept, AllEdits, ExtPartialRelocs, Joined,
      ExtPlaced, TargetOk, AllExtOk, ExtPatches, ExtSeparate;
    ExtAllReach(ins, second);
    var ps, es, ds := ExtPieces(ins), ExtLocals(ins, second), ExtDirectPieces(ins, second, big);
    ExtEdits(ins, second);
    assert ExtPatches(second, ExtPartialRelocs(ins, second), |Joined(ps)|) == AllEdits(ps, es);
    PiecewiseEdits(ps, es, big);
    JoinedSame(Edited(ps, es, big), ds);
    forall k | 0 <= k < |ins|
      ensures AllExtKept(ins[k].first, ins[k].direct, ins[k].relocs, |ins[k].contents|)
        ==> Edited(ps, es, big)[k].contents == ds[k].contents
      ensures ExtSeparate(ins[k].relocs) && Edited(ps, es, big)[k].contents == ds[k].contents
        ==> AllExtKept(ins[k].first, ins[k].direct, ins[k].relocs, |ins[k].contents|)
    {
      assert ExtInputOk(ins[k], second);
      ExtSectionTwice(ins[k].first, second, ins[k].direct, ins[k].relocs, ins[k].contents, big);
    }
  }
}
