// What the layout, index and round-trip results mean for an archive made from files.
module ArFiles {
  import opened Bytes
  import opened ArFormat
  import opened ArNames
  import opened ArArmap
  import opened ArWrite
  import opened ArLayout
  import opened ArRead
  import opened ArIndex
  import opened ArRoundTrip

  /** A chain of files with proper names, none of which has a header yet. */
  predicate Files(ms: seq<Member>) {
    ValidChain(ms) && forall i :: 0 <= i < |ms| ==> !ms[i].haveHdr && ProperlyNamed(ms[i])
  }

  lemma FilesSound(fmt: Format, ms: seq<Member>)
    requires Svr4Style(fmt) && Files(ms) && AllPrepared(fmt, ms)
    ensures SoundChain(PreparedChain(fmt, ms))
  {
    hide FreshName, SizePad, ScanU64, Basename, NulFree;
    forall i | 0 <= i < |ms|
      ensures Sound(PreparedChain(fmt, ms)[i]) && ProperlyNamed(PreparedChain(fmt, ms)[i])
    {
      FreshSound(fmt, ms[i]);
    }
  }

  /** How many leading members an index replaces. */
  function Dropped(fmt: Format, makemap: bool, ms: seq<Member>): nat
    requires ValidChain(ms) && AllPrepared(fmt, ms)
  {
    |ms| - |FinalChain(fmt, makemap, ms)|
  }

  lemma RestIsFinal(fmt: Format, makemap: bool, ms: seq<Member>)
    requires Svr4Style(fmt) && ValidChain(ms) && AllPrepared(fmt, ms) && SoundChain(PreparedChain(fmt, ms))
    ensures Rest(fmt, PreparedChain(fmt, ms), Dropped(fmt, makemap, ms)) == FinalChain(fmt, makemap, ms)
    ensures FinalTable(fmt, ms) == TableOf(fmt, PreparedChain(fmt, ms)).bytes
  {
    hide Named, SoundChain, PreparedChain, HasObjects, TableOf;
  }

  /** Only a file called like the BSD name table, or like the BSD index, has the name field those have. */
  lemma FreshField(fmt: Format, ms: seq<Member>, i: nat)
    requires Svr4Style(fmt) && Files(ms) && AllPrepared(fmt, ms) && SoundChain(PreparedChain(fmt, ms))
    requires i < |ms| && |Name(ms[i])| <= MAXNAME
    ensures Field(fmt, PreparedChain(fmt, ms), i) == Name(ms[i]) + [SLASH] + Spaces(MAXNAME - |Name(ms[i])|)
  {
    hide Basename, ScanU64, SizePad, TableOf;
    var n := Name(ms[i]);
    assert PreparedChain(fmt, ms)[i].hdr.name == FreshName(fmt, n);
    assert FreshName(fmt, n)[|n| + 1..] == Spaces(MAXNAME - |n|);
  }

  lemma FieldNames(n: seq<byte>, k: seq<byte>)
    requires SLASH !in n && SLASH !in k && |n| <= MAXNAME && |k| < MAXNAME
    ensures n + [SLASH] + Spaces(MAXNAME - |n|) == Pad(k + [SLASH], 16) <==> n == k
  {
    var a, b := n + [SLASH] + Spaces(MAXNAME - |n|), k + [SLASH] + Spaces(MAXNAME - |k|);
    assert Pad(k + [SLASH], 16) == b;
    if a == b {
      assert a[|n|] == SLASH && b[|k|] == SLASH;
      assert a[..|n|] == n && b[..|k|] == k;
    }
  }

  /** A file that a reader would take for something else. */
  predicate Misleading(fmt: Format, indexed: bool, ms: seq<Member>, d: nat)
    requires d <= |ms|
  {
    && (forall i :: 0 <= i < |ms| ==> |Name(ms[i])| <= MAXNAME)
    && d < |ms|
    && (Name(ms[d]) == ARFILENAMES || (!indexed && Name(ms[d]) == SYMDEF))
  }

  lemma TableIffLong(fmt: Format, ps: seq<Member>)
    requires Svr4Style(fmt)
    ensures TableOf(fmt, ps).bytes == [] <==> forall i :: 0 <= i < |ps| ==> |Name(ps[i])| <= MAXNAME
  {
    hide Basename, Entry;
    if TableOf(fmt, ps).bytes == [] {
      NoLongNames(fmt, ps);
      assert forall i :: 0 <= i < |ps| ==> !InTable(fmt, ps[i]);
    } else {
      SomeLongName(fmt, ps);
    }
  }

  lemma {:induction false} SomeLongName(fmt: Format, ps: seq<Member>)
    requires Svr4Style(fmt) && TableOf(fmt, ps).bytes != []
    ensures exists i :: 0 <= i < |ps| && |Name(ps[i])| > MAXNAME
  {
    hide Basename, Entry;
    var n := |ps| - 1;
    if |Name(ps[n])| <= MAXNAME {
      SomeLongName(fmt, ps[..n]);
      var i :| 0 <= i < n && |Name(ps[..n][i])| > MAXNAME;
      assert |Name(ps[i])| > MAXNAME;
    }
  }

  lemma MisleadingIsMistaken(fmt: Format, indexed: bool, ms: seq<Member>, d: nat)
    requires Svr4Style(fmt) && Files(ms) && AllPrepared(fmt, ms) && SoundChain(PreparedChain(fmt, ms)) && d <= |ms|
    ensures Mistaken(fmt, indexed, PreparedChain(fmt, ms), d) <==> Misleading(fmt, indexed, ms, d)
  {
    hide Basename, TableOf, Field, Spaces, Pad, SoundChain;
    var ps := PreparedChain(fmt, ms);
    assert forall i :: 0 <= i < |ms| ==> Name(ps[i]) == Name(ms[i]);
    TableIffLong(fmt, ps);
    if d < |ms| && |Name(ms[d])| <= MAXNAME {
      FreshField(fmt, ms, d);
      BasenameIs(ms[d].filename);
      FieldNames(Name(ms[d]), ARFILENAMES);
      FieldNames(Name(ms[d]), SYMDEF);
    }
  }

  /** The round trip for files: reading the archive gives back the files' base names and contents, in
      order, if and only if every name survives and the first file is not called like a special
      member of BSD archives. */
  lemma FilesRoundTrip(fmt: Format, makemap: bool, ms: seq<Member>, misc: seq<byte>)
    requires Files(ms) && |misc| == 32 && AllPrepared(fmt, ms)
    requires Archived(fmt, makemap && HasObjects(ms), PreparedChain(fmt, ms), Dropped(fmt, makemap, ms), misc)
    ensures ArchiveBytes(fmt, makemap, ms, misc).Some?
    ensures var d := Dropped(fmt, makemap, ms);
      ReadMembers(MAXNAME, ArchiveBytes(fmt, makemap, ms, misc).value, fmt.big) == Some(Pairs(ms, d))
      <==> AllSurvive(ms, d) && !Misleading(fmt, makemap && HasObjects(ms), ms, d)
  {
    hide SoundChain, Rest, FinalChain, FinalTable, ReadMembers, Assemble, Survives, Basename, Misleading, Mistaken,
      HasObjects,
      Svr4Style, TableOf;
    var ps, d := PreparedChain(fmt, ms), Dropped(fmt, makemap, ms);
    FilesSound(fmt, ms);
    RestIsFinal(fmt, makemap, ms);
    RoundTrip(fmt, makemap && HasObjects(ms), ps, d, misc);
    MisleadingIsMistaken(fmt, makemap && HasObjects(ms), ms, d);
    assert forall i :: 0 <= i < |ms| ==> Name(ps[i]) == Name(ms[i]) && ps[i].contents == ms[i].contents;
    assert Pairs(ps, d) == Pairs(ms, d);
  }

  /** Going through the index: the offset read for a symbol leads to the member that defines it. */
  lemma SymbolFindsMember(fmt: Format, ps: seq<Member>, d: nat, misc: seq<byte>, i: nat)
    requires Archived(fmt, true, ps, d, misc) && i < |Entries(Rest(fmt, ps, d))|
    requires forall j :: 0 <= j < |ps| ==> ps[j].extra == 0
    ensures Ordered(Entries(Rest(fmt, ps, d)), |ps| - d)
    ensures var kept, table := Rest(fmt, ps, d), TableOf(fmt, ps).bytes;
      var file, k := ArchiveOf(fmt, true, ps, d, misc), Entries(kept)[i].elt;
      var m := SlurpArmap(MAXNAME, file, SARMAG, fmt.big);
      && m.Map? && i < |m.symdefs| && m.symdefs[i].name == Entries(kept)[i].name
      && var r := ReadArHdr(MAXNAME, file, m.symdefs[i].offset, NamesOf(table));
         r.Read? && Contents(file, r.elt) == ps[d + k].contents
           && (r.elt.name == Name(ps[d + k]) <==> Survives(Name(ps[d + k])))
    ensures var e := Entries(Rest(fmt, ps, d))[i]; MemberDefines(ps[d + e.elt], e.name)
  {
    hide SoundChain, Rest, Assemble, ArmapPart, TableOf, NamesOf, ReadArHdr, SlurpArmap, Survives, Basename, Laid,
      Fits, Contents,
      IndexOffsets, Entries, Representable, Position, Actual, IndexForm, Final, Svr4Style, MembersStart;
    var kept, table := Rest(fmt, ps, d), TableOf(fmt, ps).bytes;
    EntriesOrdered(kept);
    var k := Entries(kept)[i].elt;
    SlurpInverts(MAXNAME, fmt, kept, table, misc);
    NoExtras(fmt, ps, d, IndexForm(fmt, kept, table));
    IndexAgreesWithLayout(fmt, kept, table, misc, i);
    PositionIsActual(StartOf(fmt, true, ps, d, misc), fmt, ps, d, k);
    ArchiveLaid(fmt, true, ps, d, misc);
    LaidReads(ArchiveOf(fmt, true, ps, d, misc), StartOf(fmt, true, ps, d, misc), fmt, ps, d, k, NamesOf(table));
    EntryDefined(kept, i);
    SameSymbols(fmt, ps, d, k);
  }

  /** Final headers do not change what a member is. */
  lemma SameSymbols(fmt: Format, ps: seq<Member>, d: nat, k: nat)
    requires SoundChain(ps) && d + k < |ps|
    ensures var m, p := Rest(fmt, ps, d)[k], ps[d + k];
      m.isObject == p.isObject && m.hasSyms == p.hasSyms && m.syms == p.syms
  {
    hide SoundChain, TableOf, NameField;
  }

  /** Every symbol that a member defines for others is in the index, and its offset leads to that member. */
  lemma SymbolIsFound(fmt: Format, ps: seq<Member>, d: nat, misc: seq<byte>, k: nat, j: nat)
    requires Archived(fmt, true, ps, d, misc) && d + k < |ps|
    requires forall j :: 0 <= j < |ps| ==> ps[j].extra == 0
    requires ps[d + k].isObject && ps[d + k].hasSyms && j < |ps[d + k].syms|
    requires Defines(ps[d + k].syms[j], ps[d + k].syms[j].name)
    ensures var file := ArchiveOf(fmt, true, ps, d, misc);
      var m := SlurpArmap(MAXNAME, file, SARMAG, fmt.big);
      && m.Map?
      && exists i :: 0 <= i < |m.symdefs| && m.symdefs[i].name == ps[d + k].syms[j].name
           && LeadsTo(fmt, file, NamesOf(TableOf(fmt, ps).bytes), m.symdefs[i].offset, ps[d + k])
  {
    hide SoundChain, Rest, Entries, Archived, TableOf, NamesOf, SlurpArmap, ReadArHdr, Survives, Basename, ArchiveOf;
    ArchivedIs(fmt, ps, d, misc);
    var kept := Rest(fmt, ps, d);
    SameSymbols(fmt, ps, d, k);
    var at := EntriesAreExported(kept);
    assert Exported(kept, k, j) && (k, j) in at;
    var i :| 0 <= i < |at| && at[i] == (k, j);
    SymbolFindsMember(fmt, ps, d, misc, i);
    var m := SlurpArmap(MAXNAME, ArchiveOf(fmt, true, ps, d, misc), SARMAG, fmt.big);
    assert m.symdefs[i].name == ps[d + k].syms[j].name;
  }

  lemma ArchivedIs(fmt: Format, ps: seq<Member>, d: nat, misc: seq<byte>)
    requires Archived(fmt, true, ps, d, misc)
    ensures SoundChain(ps) && d <= |ps| && Assembles(fmt, Rest(fmt, ps, d), TableOf(fmt, ps).bytes, misc)
  {
  }

  /** The header at this offset is that member's. */
  predicate LeadsTo(fmt: Format, file: seq<byte>, names: Option<seq<byte>>, offset: nat, m: Member) {
    var r := ReadArHdr(MAXNAME, file, offset, names);
    r.Read? && Contents(file, r.elt) == m.contents && (r.elt.name == Name(m) <==> Survives(Name(m)))
  }

  lemma NoExtras(fmt: Format, ps: seq<Member>, d: nat, form: Armap)
    requires Svr4Style(fmt) && SoundChain(ps) && d <= |ps|
    requires forall j :: 0 <= j < |ps| ==> ps[j].extra == 0
    ensures var kept := Rest(fmt, ps, d);
      forall j :: 0 <= j < |kept| ==> ExtraRight(fmt, kept[j]) && StepsRight(fmt, form, kept[j])
  {
    hide Rest, NameField, TableOf, Sound, ProperlyNamed;
  }

  // ---- a file the round trip loses -------------------------------------

  /** An empty file of the given name that is not an object file. */
  function EmptyFile(name: seq<byte>): (m: Member)
    requires NulFree(name)
    ensures m.Valid()
  {
    Member(name, name, name, false, ArHdr(Spaces(16), Spaces(32), Spaces(10), ARFMAG), 0, Spaces(32), [], false,
      false, [])
  }

  lemma SymdefName()
    ensures NulFree(SYMDEF) && Basename(SYMDEF) == SYMDEF && SLASH !in SYMDEF
  {
    BasenameIs(SYMDEF);
    assert SLASH !in SYMDEF;
  }

  lemma EmptyFileArchived(name: seq<byte>)
    requires NulFree(name) && Basename(name) == name && 0 < |name| < MAXNAME
    ensures var ms := [EmptyFile(name)];
      && Files(ms) && AllPrepared(SVR4, ms) && Dropped(SVR4, false, ms) == 0
      && Archived(SVR4, false, PreparedChain(SVR4, ms), 0, Spaces(32))
  {
    hide FreshName, SizePad, ScanU64, Basename, NulFree, HdrBytes, Actual, MemberBytes, MembersBytes, Spaces,
      SoundChain, Survives;
    var ms := [EmptyFile(name)];
    SizeFits(0);
    FilesSound(SVR4, ms);
    var ps := PreparedChain(SVR4, ms);
    TableIffLong(SVR4, ps);
    var kept := Rest(SVR4, ps, 0);
    FinalBytes(SVR4, ps, 0);
    assert Assembles(SVR4, kept, [], Spaces(32));
    ArchiveEnds(SVR4, false, kept, [], Spaces(32));
    PositionIsActual(MembersStart(SVR4, false, kept, [], Spaces(32)), SVR4, ps, 0, 1);
  }

  /** A file called "__.SYMDEF", archived on its own without an index, is taken for an index: it is not
      among the members a reader finds. */
  lemma SymdefFileIsLost()
    ensures var ms := [EmptyFile(SYMDEF)];
      && ArchiveBytes(SVR4, false, ms, Spaces(32)).Some?
      && ReadMembers(MAXNAME, ArchiveBytes(SVR4, false, ms, Spaces(32)).value, true) != Some(Pairs(ms, 0))
  {
    hide ArchiveBytes, ReadMembers, Archived, Pairs, Files, AllPrepared, PreparedChain, Dropped, Basename, AllSurvive;
    SymdefName();
    EmptyFileArchived(SYMDEF);
    FilesRoundTrip(SVR4, false, [EmptyFile(SYMDEF)], Spaces(32));
  }
}
