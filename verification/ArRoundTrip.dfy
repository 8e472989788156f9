// Reading back a written archive: SVR4-style names, ordinary (not thin) archives.
module ArRoundTrip {
  import opened Bytes
  import opened ArFormat
  import opened ArNames
  import opened ArArmap
  import opened ArWrite
  import opened ArLayout
  import opened ArRead
  import opened ArIndex

  predicate Svr4Style(fmt: Format) {
    fmt.style.Svr4? && !fmt.thin && fmt.padChar == SLASH
  }

  /** A header whose size field is the size of the contents, and whose name field holds nothing that
      could be taken for part of a name once the member's own name has been stored in it. */
  predicate Sound(m: Member)
    requires m.Valid()
  {
    && m.hdr.fmag == ARFMAG && ScanU64(m.hdr.size) == Some(|m.contents|)
    && NulFree(m.hdr.name)
    && (Name(m) == [HASH, 49] ==> !IsDigit(m.hdr.name[3]))
  }

  /** A name, and not one that fills the field behind a leading space: such a field is read as an
      offset into the name table. */
  predicate ProperlyNamed(m: Member) {
    Name(m) != [] && (|Name(m)| == MAXNAME ==> Name(m)[0] != SPACE)
  }

  predicate SoundChain(ps: seq<Member>) {
    ValidChain(ps) && forall i :: 0 <= i < |ps| ==> Sound(ps[i]) && ProperlyNamed(ps[i])
  }

  /** Exactly the names a reader gets back. */
  predicate Survives(n: seq<byte>) {
    && (|n| == MAXNAME ==> SPACE !in n)
    && (|n| > MAXNAME ==> NL !in n && BACKSLASH !in n)
  }

  lemma FreshNameSound(fmt: Format, n: seq<byte>)
    requires Svr4Style(fmt) && NulFree(n)
    ensures NulFree(FreshName(fmt, n))
    ensures n == [HASH, 49] ==> FreshName(fmt, n)[3] == SPACE
  {
  }

  /** Headers made for files are sound. */
  lemma FreshSound(fmt: Format, m: Member)
    requires Svr4Style(fmt) && m.Valid() && !m.haveHdr && Prepared(fmt, m).Some?
    ensures Sound(Prepared(fmt, m).value)
  {
    hide FreshName, NulFree, Basename, SizePad, ScanU64;
    BasenameIs(m.filename);
    SizeFieldReads(|m.contents|);
    FreshNameSound(fmt, Name(m));
  }

  // ---- one member ------------------------------------------------------

  lemma MemChrFinds(s: seq<byte>, c: byte, n: nat, i: nat)
    requires i < n <= |s| && s[i] == c && c !in s[..i]
    ensures MemChr(s, c, n) == Some(i)
  {
    assert c in s[..n] by { assert s[..n][i] == c; }
    var r := MemChr(s, c, n);
  }

  /** A field that holds `n`, '/', and other bytes. */
  lemma FieldIs(n: seq<byte>, rest: seq<byte>)
    requires NulFree(n) && NulFree(rest) && SLASH !in n && 0 < |n| <= MAXNAME && |n| + 1 + |rest| == 16
    ensures var field := n + [SLASH] + rest;
      && MemChr(field, 0, MAXNAME) == None
      && (|n| < MAXNAME ==> MemChr(field, SLASH, MAXNAME) == Some(|n|))
      && (|n| == MAXNAME ==> MemChr(field, SLASH, MAXNAME) == None)
      && field[..|n|] == n && field[0] == n[0]
  {
    hide MemChr;
    var field := n + [SLASH] + rest;
    assert NulFree(field);
    assert field[..|n|] == n;
    if |n| < MAXNAME {
      MemChrFinds(field, SLASH, MAXNAME, |n|);
    }
  }

  lemma FieldNotBsd44(n: seq<byte>, rest: seq<byte>)
    requires SLASH !in n && |n| + 1 + |rest| == 16
    requires n == [HASH, 49] ==> !IsDigit(rest[0])
    ensures !IsBsd44Name(n + [SLASH] + rest)
  {
    var field := n + [SLASH] + rest;
    if |n| > 2 {
      assert field[2] == n[2] && n[2] in n;
    } else if |n| == 2 {
      assert field[3] == rest[0] && field[..2] == n;
    }
  }

  /** What is read from the field of a short name: the name, except that a name that fills the field
      is cut at its first space. */
  lemma ShortNameReads(fmt: Format, m: Member)
    requires Svr4Style(fmt) && m.Valid() && Sound(m) && ProperlyNamed(m) && |Name(m)| <= MAXNAME
    ensures var field := ShortName(fmt, m.hdr.name, Name(m));
      && !IsBsd44Name(field) && !InNameTable(MAXNAME, field)
      && (FieldName(MAXNAME, field) == Name(m) <==> Survives(Name(m)))
      && field[0] == Name(m)[0] && field[..|Name(m)| + 1] == Name(m) + [SLASH]
  {
    hide MemChr, IsBsd44Name, Basename, ScanU64;
    var n, rest := Name(m), m.hdr.name[|Name(m)| + 1..];
    BasenameIs(m.filename);
    FieldIs(n, rest);
    FieldNotBsd44(n, rest);
    var field := n + [SLASH] + rest;
    assert n[0] in n;
    if |n| == MAXNAME {
      assert field[..MAXNAME] == n;
    }
  }

  /** The table as it is in the file, with the newline that pads it. */
  function FileTable(table: seq<byte>): seq<byte> {
    table + (if |table| % 2 == 1 then [NL] else [])
  }

  function NamesOf(table: seq<byte>): Option<seq<byte>> {
    if table == [] then None else Some(Slurped(FileTable(table)))
  }

  /** What is read for a name in the table: the name, unless it holds a newline or a backslash. */
  lemma LongNameReads(fmt: Format, ps: seq<Member>, k: nat, rest: seq<byte>)
    requires Svr4Style(fmt) && SoundChain(ps) && k < |ps| && |Name(ps[k])| > MAXNAME
    requires |TableOf(fmt, ps).bytes| < 10_000_000_000 && |rest| == HDR_SIZE - 16
    ensures var table := TableOf(fmt, ps).bytes;
      var field := NamedAt(fmt, ps, k).hdr.name;
      && InNameTable(MAXNAME, field) && table != [] && NamesOf(table).Some?
      && Resolve(NamesOf(table).value, field + rest).Some?
      && (Resolve(NamesOf(table).value, field + rest) == Some(Name(ps[k])) <==> Survives(Name(ps[k])))
  {
    hide TableOf, Entry, Slurped, CStr, Resolve, SpacePad, Dec, Sound, NulFree, Basename;
    var table, off, n := TableOf(fmt, ps).bytes, OffsetOf(fmt, ps, k), Name(ps[k]);
    EntryStored(fmt, ps, k);
    StoredStays(fmt, table, FileTable(table), off, n);
    BasenameIs(ps[k].filename);
    EntryLength(fmt, n);
    var names := Slurped(FileTable(table));
    TableNameReads(fmt, ps[k].hdr.name, off, rest, names);
    if Survives(n) {
      EntryReads(fmt, FileTable(table), off, n);
    }
    if CStr(names, off) == n {
      EntryReadsOnlyPlain(fmt, FileTable(table), off, n);
    }
  }

  lemma EntryLength(fmt: Format, path: seq<byte>)
    ensures |Entry(fmt, path)| > |path|
  {
  }

  /** Member `i` as it is written. */
  function Final(fmt: Format, ps: seq<Member>, i: nat): (m: Member)
    requires SoundChain(ps) && i < |ps|
    ensures m.Valid() && m.contents == ps[i].contents && Name(m) == Name(ps[i])
  {
    NamedAt(fmt, ps, i)
  }

  lemma FinalBytes(fmt: Format, ps: seq<Member>, i: nat)
    requires Svr4Style(fmt) && SoundChain(ps) && i < |ps|
    ensures var m := Final(fmt, ps, i);
      && Writable(fmt, m)
      && MemberBytes(fmt, m) == HdrBytes(m.hdr) + Stored(fmt, m)
      && m.hdr.fmag == ARFMAG && ScanU64(m.hdr.size) == Some(|m.contents|)
      && Span(fmt, m) == HDR_SIZE + Even(|m.contents|)
  {
    hide NameField, ScanU64, HdrBytes, Stored, NulFree;
  }

  /** Reading the header of a member: its size, and its name if the name survives. */
  lemma HeaderReads(file: seq<byte>, pos: nat, fmt: Format, ps: seq<Member>, i: nat, names: Option<seq<byte>>)
    requires Svr4Style(fmt) && SoundChain(ps) && i < |ps| && |TableOf(fmt, ps).bytes| < 10_000_000_000
    requires At(file, pos, HdrBytes(Final(fmt, ps, i).hdr))
    requires |Name(ps[i])| <= MAXNAME || names == NamesOf(TableOf(fmt, ps).bytes)
    ensures var r := ReadArHdr(MAXNAME, file, pos, names);
      && r.Read? && r.elt.size == |ps[i].contents| && r.elt.start == pos + HDR_SIZE
      && (r.elt.name == Name(ps[i]) <==> Survives(Name(ps[i])))
      && r.elt.hdr == Final(fmt, ps, i).hdr
  {
    hide TableOf, Survives, InNameTable, IsBsd44Name, FieldName, Resolve, ScanU64, NamesOf, ProperlyNamed, NulFree,
      StrTol;
    var h := Final(fmt, ps, i).hdr;
    FinalBytes(fmt, ps, i);
    var size := |ps[i].contents|;
    SizeBelow(h.size, size);
    if |Name(ps[i])| <= MAXNAME {
      ShortNameReads(fmt, ps[i]);
      assert h.name == ShortName(fmt, ps[i].hdr.name, Name(ps[i]));
      ReadPlainHdr(MAXNAME, file, pos, h, names, size);
    } else {
      var rest := h.misc + h.size + h.fmag;
      LongNameReads(fmt, ps, i, rest);
      assert HdrBytes(h) == h.name + rest;
      ReadTableHdr(MAXNAME, file, pos, h, names.value, size, Resolve(names.value, HdrBytes(h)).value);
    }
  }

  lemma SizeBelow(field: seq<byte>, size: nat)
    requires ScanU64(field) == Some(size)
    ensures size < TWO64
  {
  }

  /** The bytes of member `i`. */
  function Record(fmt: Format, ps: seq<Member>, i: nat): seq<byte>
    requires SoundChain(ps) && i < |ps|
  {
    HdrBytes(Final(fmt, ps, i).hdr) + Stored(fmt, Final(fmt, ps, i))
  }

  /** Where member `d + j` is when member `d` is at `start`. */
  function Position(start: nat, ps: seq<Member>, d: nat, j: nat): nat
    requires d + j <= |ps|
  {
    if j == 0 then start else Position(start, ps, d, j - 1) + HDR_SIZE + Even(|ps[d + j - 1].contents|)
  }

  lemma {:induction false} PositionEven(start: nat, ps: seq<Member>, d: nat, j: nat)
    requires d + j <= |ps| && start % 2 == 0
    ensures Position(start, ps, d, j) % 2 == 0
  {
    if j > 0 {
      PositionEven(start, ps, d, j - 1);
    }
  }

  /** Reading a member at its position: header, contents, and the position of the next member. */
  lemma MemberReads(file: seq<byte>, pos: nat, fmt: Format, ps: seq<Member>, i: nat, names: Option<seq<byte>>)
    requires Svr4Style(fmt) && SoundChain(ps) && i < |ps| && |TableOf(fmt, ps).bytes| < 10_000_000_000
    requires At(file, pos, Record(fmt, ps, i))
    requires |file| < TWO64 && pos % 2 == 0
    requires |Name(ps[i])| <= MAXNAME || names == NamesOf(TableOf(fmt, ps).bytes)
    ensures var r, next := ReadArHdr(MAXNAME, file, pos, names), pos + HDR_SIZE + Even(|ps[i].contents|);
      && r.Read? && Contents(file, r.elt) == ps[i].contents
      && NextPos(r.elt) == Some(next)
      && (r.elt.name == Name(ps[i]) <==> Survives(Name(ps[i])))
      && r.elt.hdr == Final(fmt, ps, i).hdr
      && r.elt.start + r.elt.size <= |file|
      && Even(r.elt.start + r.elt.size) == next
  {
    hide TableOf, Survives, ReadArHdr, ScanU64, NamesOf, HdrBytes, SoundChain, At, Even, Stored, NextPos, Final;
    var m := Final(fmt, ps, i);
    AtSplit(file, pos, HdrBytes(m.hdr), Stored(fmt, m));
    HeaderReads(file, pos, fmt, ps, i, names);
    StoredReads(file, pos + HDR_SIZE, fmt, m);
    NextPosIs(ReadArHdr(MAXNAME, file, pos, names).elt);
  }

  lemma StoredReads(file: seq<byte>, start: nat, fmt: Format, m: Member)
    requires m.Valid() && !fmt.thin && At(file, start, Stored(fmt, m))
    ensures start + Even(|m.contents|) <= |file|
    ensures file[start..start + |m.contents|] == m.contents
  {
    AtSplit(file, start, m.contents, if |m.contents| % 2 == 1 then [NL] else []);
  }

  // ---- the walk --------------------------------------------------------

  /** The members `ps[d..]` are what `file` holds from `start` to its end. */
  ghost predicate Laid(file: seq<byte>, start: nat, fmt: Format, ps: seq<Member>, d: nat) {
    && Svr4Style(fmt) && SoundChain(ps) && d <= |ps| && |TableOf(fmt, ps).bytes| < 10_000_000_000
    && |file| < TWO64 && start % 2 == 0
    && Position(start, ps, d, |ps| - d) == |file|
    && forall j {:trigger Position(start, ps, d, j)} :: 0 <= j < |ps| - d ==>
      At(file, Position(start, ps, d, j), Record(fmt, ps, d + j))
  }

  lemma LaidReads(file: seq<byte>, start: nat, fmt: Format, ps: seq<Member>, d: nat, j: nat, names: Option<seq<byte>>)
    requires Laid(file, start, fmt, ps, d) && d + j < |ps|
    requires |Name(ps[d + j])| <= MAXNAME || names == NamesOf(TableOf(fmt, ps).bytes)
    ensures var r := ReadArHdr(MAXNAME, file, Position(start, ps, d, j), names);
      && r.Read? && Contents(file, r.elt) == ps[d + j].contents
      && NextPos(r.elt) == Some(Position(start, ps, d, j + 1))
      && (r.elt.name == Name(ps[d + j]) <==> Survives(Name(ps[d + j])))
      && r.elt.hdr == Final(fmt, ps, d + j).hdr
      && r.elt.start + r.elt.size <= |file|
      && Even(r.elt.start + r.elt.size) == Position(start, ps, d, j + 1)
  {
    hide TableOf, Survives, ReadArHdr, NamesOf, Record, NextPos, Final, At, Even, Contents, Sound, ProperlyNamed,
      ValidChain;
    PositionEven(start, ps, d, j);
    MemberReads(file, Position(start, ps, d, j), fmt, ps, d + j, names);
  }

  /** What a reader gets for a member: its contents, and its name if that survives. */
  predicate Got(found: (seq<byte>, seq<byte>), m: Member) {
    found.1 == m.contents && (found.0 == Name(m) <==> Survives(Name(m)))
  }

  /** What the walk finds from member `d + j` on. */
  lemma {:induction false} WalkReads(file: seq<byte>, start: nat, fmt: Format, ps: seq<Member>, d: nat, j: nat,
                                     names: Option<seq<byte>>)
    requires Laid(file, start, fmt, ps, d) && d + j <= |ps|
    requires TableOf(fmt, ps).bytes == [] || names == NamesOf(TableOf(fmt, ps).bytes)
    ensures var w := Walk(MAXNAME, file, Position(start, ps, d, j), names);
      && |w| == |ps| - d - j
      && forall i :: 0 <= i < |w| ==> Got(w[i], ps[d + j + i])
    decreases |ps| - d - j
  {
    hide TableOf, Survives, NamesOf, NextPos, Contents, Laid, Basename, Walk, ReadArHdr, SoundChain, Svr4Style,
      Position;
    if d + j == |ps| {
      LaidEnds(file, start, fmt, ps, d);
      WalkAtEnd(MAXNAME, file, names);
    } else {
      ShortIfNoTable(fmt, ps, d + j);
      LaidReads(file, start, fmt, ps, d, j, names);
      WalkReads(file, start, fmt, ps, d, j + 1, names);
      WalkStep(MAXNAME, file, Position(start, ps, d, j), names);
      var r, rest := ReadArHdr(MAXNAME, file, Position(start, ps, d, j), names),
        Walk(MAXNAME, file, Position(start, ps, d, j + 1), names);
      GotFirst((r.elt.name, Contents(file, r.elt)), rest, ps[d + j..]);
    }
  }

  lemma GotFirst(found: (seq<byte>, seq<byte>), rest: seq<(seq<byte>, seq<byte>)>, ms: seq<Member>)
    requires 0 < |ms| == |rest| + 1 && Got(found, ms[0])
    requires forall i :: 0 <= i < |rest| ==> Got(rest[i], ms[1 + i])
    ensures forall i :: 0 <= i < |[found] + rest| ==> Got(([found] + rest)[i], ms[i])
  {
    hide Got;
    forall i | 0 <= i < |[found] + rest|
      ensures Got(([found] + rest)[i], ms[i])
    {
      assert i > 0 ==> Got(rest[i - 1], ms[1 + (i - 1)]);
    }
  }

  lemma ShortIfNoTable(fmt: Format, ps: seq<Member>, i: nat)
    requires i < |ps|
    ensures TableOf(fmt, ps).bytes == [] ==> |Name(ps[i])| <= MAXNAME
  {
    if TableOf(fmt, ps).bytes == [] {
      NoLongNames(fmt, ps);
      assert !InTable(fmt, ps[i]);
    }
  }

  lemma LaidEnds(file: seq<byte>, start: nat, fmt: Format, ps: seq<Member>, d: nat)
    requires Laid(file, start, fmt, ps, d)
    ensures Svr4Style(fmt) && SoundChain(ps)
    ensures d <= |ps| && Position(start, ps, d, |ps| - d) == |file|
  {
  }

  lemma WalkAtEnd(max: NameLimit, file: seq<byte>, names: Option<seq<byte>>)
    ensures Walk(max, file, |file|, names) == []
  {
  }

  lemma WalkStep(max: NameLimit, file: seq<byte>, pos: nat, names: Option<seq<byte>>)
    requires ReadArHdr(max, file, pos, names).Read? && NextPos(ReadArHdr(max, file, pos, names).elt).Some?
    ensures var e := ReadArHdr(max, file, pos, names).elt;
      Walk(max, file, pos, names) == [(e.name, Contents(file, e))] + Walk(max, file, NextPos(e).value, names)
  {
    hide ReadArHdr, NextPos, Contents;
  }

  /** The (name, contents) pairs that were written. */
  function Pairs(ps: seq<Member>, d: nat): (r: seq<(seq<byte>, seq<byte>)>)
    requires d <= |ps|
    ensures |r| == |ps| - d
    ensures forall i :: 0 <= i < |r| ==> r[i] == (Name(ps[d + i]), ps[d + i].contents)
  {
    seq(|ps| - d, i requires 0 <= i < |ps| - d => (Name(ps[d + i]), ps[d + i].contents))
  }

  lemma WalkIff(file: seq<byte>, start: nat, fmt: Format, ps: seq<Member>, d: nat)
    requires Laid(file, start, fmt, ps, d)
    ensures Walk(MAXNAME, file, start, NamesOf(TableOf(fmt, ps).bytes)) == Pairs(ps, d)
      <==> forall i :: d <= i < |ps| ==> Survives(Name(ps[i]))
  {
    hide TableOf, Survives, NamesOf, Walk, Laid, Basename, SoundChain, Svr4Style;
    LaidEnds(file, start, fmt, ps, d);
    var w := Walk(MAXNAME, file, start, NamesOf(TableOf(fmt, ps).bytes));
    WalkReads(file, start, fmt, ps, d, 0, NamesOf(TableOf(fmt, ps).bytes));
    if w == Pairs(ps, d) {
      forall i | d <= i < |ps|
        ensures Survives(Name(ps[i]))
      {
        assert Got(w[i - d], ps[d + 0 + (i - d)]);
        assert w[i - d] == Pairs(ps, d)[i - d];
      }
    }
    if forall i :: d <= i < |ps| ==> Survives(Name(ps[i])) {
      forall i | 0 <= i < |w|
        ensures w[i] == Pairs(ps, d)[i]
      {
        assert Survives(Name(ps[d + i])) && Got(w[i], ps[d + 0 + i]);
      }
    }
  }

  // ---- opening the archive ---------------------------------------------

  lemma TableNameIs()
    ensures var n := Pad([SLASH, SLASH], 16);
      && !IsBsd44Name(n) && n[0] == SLASH && n[1] == SLASH
      && n != Pad(SYMDEF, 16) && n != Pad(SYMDEF + [SLASH], 16) && n != Pad([SLASH], 16) && n != Pad(SYM64, 16)
      && n != Pad([HASH, 49, SLASH, 50, 48], 16)
  {
    assert Pad([SLASH, SLASH], 16)[0] == SLASH && Pad([SLASH, SLASH], 16)[1] == SLASH;
    assert Pad(SYMDEF, 16)[0] == 95 && Pad(SYMDEF + [SLASH], 16)[0] == 95;
    assert Pad([SLASH], 16)[1] == SPACE && Pad(SYM64, 16)[1] == 83;
    assert Pad([HASH, 49, SLASH, 50, 48], 16)[0] == HASH;
  }

  /** The name table is recognised and read, and mistaken for nothing else. */
  lemma TableReads(fmt: Format, file: seq<byte>, p: nat, table: seq<byte>, big: bool)
    requires Svr4Style(fmt) && table != [] && TableBytes(fmt, table).Some? && p % 2 == 0
    requires At(file, p, TableBytes(fmt, table).value)
    ensures SlurpNames(MAXNAME, file, p) == Some(Names(NamesOf(table), p + |TableBytes(fmt, table).value|))
    ensures SlurpArmap(MAXNAME, file, p, big) == NoMap && SecondHeader(MAXNAME, file, p) == 0
  {
    hide Pad, ReadArHdr, Slurped, HdrBytes, Peek, At, FieldName, ScanU64, SizePad;
    var h, t := TableHdr(fmt, |table|).value, FileTable(table);
    TableNameIs();
    assert TableBytes(fmt, table).value == HdrBytes(h) + t;
    AtSplit(file, p, HdrBytes(h), t);
    SizeFieldReads(|t|);
    SizeFits(|t|);
    ReadPlainHdr(MAXNAME, file, p, h, None, |t|);
    PeekName(file, p, h);
    FileSlice(file, p + HDR_SIZE, t);
  }

  lemma FileSlice(file: seq<byte>, p: nat, t: seq<byte>)
    requires At(file, p, t)
    ensures p + |t| <= |file| && file[p..p + |t|] == t
  {
  }

  /** The name field of member `i`. */
  function Field(fmt: Format, ps: seq<Member>, i: nat): (f: seq<byte>)
    requires SoundChain(ps) && i < |ps|
    ensures |f| == 16
  {
    Final(fmt, ps, i).hdr.name
  }

  /** A short name's field could be taken for the name table of a BSD archive, or for its index, but
      for no other special member. */
  lemma FieldIsNot(fmt: Format, ps: seq<Member>, i: nat)
    requires Svr4Style(fmt) && SoundChain(ps) && i < |ps| && |Name(ps[i])| <= MAXNAME
    ensures var f := Field(fmt, ps, i);
      && f[0] != SLASH
      && f != Pad(SYMDEF, 16) && f != Pad([SLASH], 16) && f != Pad(SYM64, 16) && f != Pad([SLASH, SLASH], 16)
      && f != Pad([HASH, 49, SLASH, 50, 48], 16)
  {
    hide FieldName, InNameTable, Basename;
    var n, f := Name(ps[i]), Field(fmt, ps, i);
    ShortNameReads(fmt, ps[i]);
    assert f == ShortName(fmt, ps[i].hdr.name, n);
    BasenameIs(ps[i].filename);
    assert n[0] in n;
    assert f[|n|] == f[..|n| + 1][|n|] == SLASH;
    assert forall k :: 0 <= k < 16 ==> Pad(SYMDEF, 16)[k] != SLASH;
    assert Pad([SLASH], 16)[0] == SLASH && Pad(SYM64, 16)[0] == SLASH && Pad([SLASH, SLASH], 16)[0] == SLASH;
    assert IsBsd44Name(Pad([HASH, 49, SLASH, 50, 48], 16));
  }

  lemma PeekMember(file: seq<byte>, start: nat, fmt: Format, ps: seq<Member>, d: nat, j: nat)
    requires Laid(file, start, fmt, ps, d) && d + j < |ps|
    ensures Peek(file, Position(start, ps, d, j)) == Field(fmt, ps, d + j)
  {
    hide HdrBytes, Stored, Final, TableOf, Peek, ValidChain, Sound, ProperlyNamed;
    AtSplit(file, Position(start, ps, d, j), HdrBytes(Final(fmt, ps, d + j).hdr), Stored(fmt, Final(fmt, ps, d + j)));
    PeekName(file, Position(start, ps, d, j), Final(fmt, ps, d + j).hdr);
  }

  /** Looking for a name table where members start, in an archive without one: only a member named
      like a BSD name table is taken for it. */
  lemma NamesAtMember(file: seq<byte>, start: nat, fmt: Format, ps: seq<Member>, d: nat, j: nat)
    requires Laid(file, start, fmt, ps, d) && d + j <= |ps| && TableOf(fmt, ps).bytes == []
    ensures var r, p := SlurpNames(MAXNAME, file, Position(start, ps, d, j)), Position(start, ps, d, j);
      if d + j < |ps| && Field(fmt, ps, d + j) == Pad(ARFILENAMES + [SLASH], 16)
      then r.Some? && r.value.first == Position(start, ps, d, j + 1)
      else r == Some(Names(None, p))
  {
    hide Laid, SoundChain, Svr4Style, Survives, ReadArHdr, Peek, Slurped, Pad, NextPos, Contents, TableOf, Even, Final,
      Basename, Position;
    LaidEnds(file, start, fmt, ps, d);
    if d + j < |ps| {
      ShortIfNoTable(fmt, ps, d + j);
      PeekMember(file, start, fmt, ps, d, j);
      FieldIsNot(fmt, ps, d + j);
      LaidReads(file, start, fmt, ps, d, j, None);
    } else {
      PeekEnd(file);
    }
  }

  lemma PeekEnd(file: seq<byte>)
    ensures Peek(file, |file|) == [] && SecondHeader(MAXNAME, file, |file|) == 0
  {
  }

  lemma NoSecondHeader(file: seq<byte>, start: nat, fmt: Format, ps: seq<Member>, d: nat)
    requires Laid(file, start, fmt, ps, d) && TableOf(fmt, ps).bytes == []
    ensures SecondHeader(MAXNAME, file, start) == 0
  {
    hide Laid, SoundChain, Svr4Style, Survives, ReadArHdr, TableOf, NextPos, Contents, Even, Basename, Final;
    LaidEnds(file, start, fmt, ps, d);
    if d < |ps| {
      ShortIfNoTable(fmt, ps, d);
      FieldIsNot(fmt, ps, d);
      LaidReads(file, start, fmt, ps, d, 0, None);
    } else {
      PeekEnd(file);
    }
  }

  /** Looking for an index in an archive with neither index nor name table: only a member named like
      a BSD index is taken for it. */
  lemma ArmapAtMember(file: seq<byte>, start: nat, fmt: Format, ps: seq<Member>, d: nat, big: bool)
    requires Laid(file, start, fmt, ps, d) && TableOf(fmt, ps).bytes == []
    ensures var r := SlurpArmap(MAXNAME, file, start, big);
      if d < |ps| && Field(fmt, ps, d) == Pad(SYMDEF + [SLASH], 16)
      then r.MapError? || (r.Map? && r.first == Position(start, ps, d, 1))
      else r == NoMap
  {
    hide Laid, SoundChain, Svr4Style, Survives, ReadArHdr, Peek, Pad, NextPos, Contents, TableOf, Even, Final,
      SlurpCoff, SlurpSym64, BsdBody, Basename;
    LaidEnds(file, start, fmt, ps, d);
    if d < |ps| {
      ShortIfNoTable(fmt, ps, d);
      PeekMember(file, start, fmt, ps, d, 0);
      FieldIsNot(fmt, ps, d);
      LaidReads(file, start, fmt, ps, d, 0, None);
    } else {
      PeekEnd(file);
    }
  }

  /** The first member is taken for a special one: an archive without long names starts with a member
      called "ARFILENAMES", or an archive with neither long names nor an index with one called
      "__.SYMDEF". */
  predicate Mistaken(fmt: Format, indexed: bool, ps: seq<Member>, d: nat)
    requires SoundChain(ps) && d <= |ps|
  {
    && TableOf(fmt, ps).bytes == [] && d < |ps|
    && (Field(fmt, ps, d) == Pad(ARFILENAMES + [SLASH], 16)
        || (!indexed && Field(fmt, ps, d) == Pad(SYMDEF + [SLASH], 16)))
  }

  predicate AllSurvive(ps: seq<Member>, d: nat) {
    forall i :: d <= i < |ps| ==> Survives(Name(ps[i]))
  }

  // ---- the theorem -----------------------------------------------------

  /** Reading a file whose members start at `start`, once the index (if there is one) and the name
      table have been dealt with as they should. */
  lemma OpenedReads(file: seq<byte>, start: nat, fmt: Format, ps: seq<Member>, d: nat, big: bool, hasMap: bool,
                    symdefs: seq<Carsym>)
    requires Laid(file, start, fmt, ps, d)
    requires OpenArchive(MAXNAME, file, big) == Some(Archive(NamesOf(TableOf(fmt, ps).bytes), start, hasMap, symdefs))
    ensures ReadMembers(MAXNAME, file, big) == Some(Pairs(ps, d)) <==> AllSurvive(ps, d)
  {
    hide Laid, Walk, OpenArchive, NamesOf, TableOf, Survives, Pairs;
    LaidEnds(file, start, fmt, ps, d);
    WalkIff(file, start, fmt, ps, d);
  }

  /** With no index and no name table, members start right after the magic. */
  lemma PlainArchive(file: seq<byte>, fmt: Format, ps: seq<Member>, d: nat, big: bool)
    requires Laid(file, SARMAG, fmt, ps, d) && TableOf(fmt, ps).bytes == []
    requires |file| >= SARMAG && file[..SARMAG] == ARMAG
    ensures SoundChain(ps) && d <= |ps|
    ensures ReadMembers(MAXNAME, file, big) == Some(Pairs(ps, d)) <==> AllSurvive(ps, d) && !Mistaken(fmt, false, ps, d)
  {
    hide Laid, SoundChain, Svr4Style, Walk, TableOf, Survives, SlurpArmap, SlurpNames, Field, Pad, Position, Pairs,
      AllSurvive;
    LaidEnds(file, SARMAG, fmt, ps, d);
    ArmapAtMember(file, SARMAG, fmt, ps, d, big);
    FirstIsStart(SARMAG, ps, d);
    NamesAtMember(file, SARMAG, fmt, ps, d, 0);
    if Mistaken(fmt, false, ps, d) {
      NamesAtMember(file, SARMAG, fmt, ps, d, 1);
      MembersLost(file, SARMAG, fmt, ps, d, big);
    } else {
      OpenedReads(file, SARMAG, fmt, ps, d, big, false, []);
    }
  }

  lemma FirstIsStart(start: nat, ps: seq<Member>, d: nat)
    requires d <= |ps|
    ensures Position(start, ps, d, 0) == start
  {
  }

  /** A reader that starts at a later member does not find all of them. */
  lemma MembersLost(file: seq<byte>, start: nat, fmt: Format, ps: seq<Member>, d: nat, big: bool)
    requires Laid(file, start, fmt, ps, d) && TableOf(fmt, ps).bytes == [] && d < |ps|
    requires OpenArchive(MAXNAME, file, big).Some? ==>
      var first := OpenArchive(MAXNAME, file, big).value.first;
      first == Position(start, ps, d, 1) || (d + 2 <= |ps| && first == Position(start, ps, d, 2))
    ensures ReadMembers(MAXNAME, file, big) != Some(Pairs(ps, d))
  {
    hide Laid, Walk, OpenArchive, TableOf, Position, Got;
    match OpenArchive(MAXNAME, file, big)
    case None =>
    case Some(a) =>
      WalkReads(file, start, fmt, ps, d, 1, a.names);
      if d + 2 <= |ps| {
        WalkReads(file, start, fmt, ps, d, 2, a.names);
      }
  }

  /** With an index and no name table, members start right after the index. */
  lemma IndexedArchive(file: seq<byte>, start: nat, fmt: Format, ps: seq<Member>, d: nat, big: bool,
                       symdefs: seq<Carsym>)
    requires Laid(file, start, fmt, ps, d) && TableOf(fmt, ps).bytes == []
    requires |file| >= SARMAG && file[..SARMAG] == ARMAG
      && SlurpArmap(MAXNAME, file, SARMAG, big) == Map(symdefs, start)
    ensures SoundChain(ps) && d <= |ps|
    ensures ReadMembers(MAXNAME, file, big) == Some(Pairs(ps, d)) <==> AllSurvive(ps, d) && !Mistaken(fmt, true, ps, d)
  {
    hide Laid, SoundChain, Svr4Style, Walk, TableOf, Survives, SlurpArmap, SlurpNames, Field, Pad, Position, Pairs,
      AllSurvive;
    LaidEnds(file, start, fmt, ps, d);
    FirstIsStart(start, ps, d);
    NamesAtMember(file, start, fmt, ps, d, 0);
    if Mistaken(fmt, true, ps, d) {
      MembersLost(file, start, fmt, ps, d, big);
    } else {
      OpenedReads(file, start, fmt, ps, d, big, true, symdefs);
    }
  }

  /** The written chain without its first `d` members. */
  function Rest(fmt: Format, ps: seq<Member>, d: nat): (kept: seq<Member>)
    requires SoundChain(ps) && d <= |ps|
    ensures ValidChain(kept) && |kept| == |ps| - d
    ensures forall j :: 0 <= j < |kept| ==> kept[j] == Final(fmt, ps, d + j)
  {
    Named(fmt, ps)[d..]
  }

  lemma FinalSpan(fmt: Format, ps: seq<Member>, i: nat)
    requires Svr4Style(fmt) && SoundChain(ps) && i < |ps|
    ensures Span(fmt, Final(fmt, ps, i)) == HDR_SIZE + Even(|ps[i].contents|)
  {
    hide Final, SoundChain, Svr4Style, MemberBytes, HdrBytes, Writable, Even, Span;
    FinalBytes(fmt, ps, i);
  }

  lemma NoneBefore(start: nat, fmt: Format, ps: seq<Member>, d: nat)
    requires SoundChain(ps) && d <= |ps|
    ensures Actual(fmt, start, Rest(fmt, ps, d), 0) == start == Position(start, ps, d, 0)
  {
    hide SoundChain, Final, Rest;
  }

  lemma ActualNext(fmt: Format, first: nat, ms: seq<Member>, k: nat)
    requires 0 < k <= |ms| && ValidChain(ms)
    ensures Actual(fmt, first, ms, k) == Actual(fmt, first, ms, k - 1) + Span(fmt, ms[k - 1])
  {
    hide Span;
  }

  lemma PositionNext(start: nat, ps: seq<Member>, d: nat, j: nat)
    requires 0 < j && d + j <= |ps|
    ensures Position(start, ps, d, j) == Position(start, ps, d, j - 1) + HDR_SIZE + Even(|ps[d + (j - 1)].contents|)
  {
    hide Even;
  }

  lemma {:induction false} PositionIsActual(start: nat, fmt: Format, ps: seq<Member>, d: nat, j: nat)
    requires Svr4Style(fmt) && SoundChain(ps) && d + j <= |ps|
    ensures Actual(fmt, start, Rest(fmt, ps, d), j) == Position(start, ps, d, j)
  {
    hide Final, Rest, Span, SoundChain, Svr4Style, Even, Actual, Position;
    NoneBefore(start, fmt, ps, d);
    if j > 0 {
      PositionIsActual(start, fmt, ps, d, j - 1);
      FinalSpan(fmt, ps, d + (j - 1));
      ActualNext(fmt, start, Rest(fmt, ps, d), j);
      PositionNext(start, ps, d, j);
      assert Rest(fmt, ps, d)[j - 1] == Final(fmt, ps, d + (j - 1));
    }
  }

  lemma RecordIs(fmt: Format, ps: seq<Member>, i: nat)
    requires Svr4Style(fmt) && SoundChain(ps) && i < |ps|
    ensures Writable(fmt, Final(fmt, ps, i)) && Record(fmt, ps, i) == MemberBytes(fmt, Final(fmt, ps, i))
  {
    hide Final, MemberBytes, Stored, HdrBytes;
    FinalBytes(fmt, ps, i);
  }

  lemma StartEven(fmt: Format, indexed: bool, kept: seq<Member>, table: seq<byte>, misc: seq<byte>)
    requires Assembles(fmt, kept, table, misc) && (indexed ==> Fits(kept, table))
    ensures MembersStart(fmt, indexed, kept, table, misc) % 2 == 0 && |table| < 10_000_000_000
  {
    if indexed {
      IndexStart(fmt, kept, table, misc);
    }
    SizeFits(|table| + |table| % 2);
  }

  lemma ArchiveEnds(fmt: Format, indexed: bool, kept: seq<Member>, table: seq<byte>, misc: seq<byte>)
    requires Assembles(fmt, kept, table, misc)
    ensures |Assemble(fmt, indexed, kept, table, misc)|
      == Actual(fmt, MembersStart(fmt, indexed, kept, table, misc), kept, |kept|)
  {
    hide MembersBytes, ArmapPart, TableBytes, Actual;
    ActualIs(fmt, MembersStart(fmt, indexed, kept, table, misc), kept, |kept|);
    assert kept[..|kept|] == kept;
  }

  /** An SVR4-style archive of `ps[d..]` that was written successfully, and whose sizes and positions
      the file format can represent. */
  ghost predicate Archived(fmt: Format, indexed: bool, ps: seq<Member>, d: nat, misc: seq<byte>) {
    && Svr4Style(fmt) && SoundChain(ps) && d <= |ps|
    && Assembles(fmt, Rest(fmt, ps, d), TableOf(fmt, ps).bytes, misc)
    && (indexed ==> Fits(Rest(fmt, ps, d), TableOf(fmt, ps).bytes)
                    && Representable(IndexOffsets(fmt, Rest(fmt, ps, d), TableOf(fmt, ps).bytes), true))
    && |Assemble(fmt, indexed, Rest(fmt, ps, d), TableOf(fmt, ps).bytes, misc)| < TWO64
  }

  function ArchiveOf(fmt: Format, indexed: bool, ps: seq<Member>, d: nat, misc: seq<byte>): seq<byte>
    requires SoundChain(ps) && d <= |ps| && Assembles(fmt, Rest(fmt, ps, d), TableOf(fmt, ps).bytes, misc)
  {
    Assemble(fmt, indexed, Rest(fmt, ps, d), TableOf(fmt, ps).bytes, misc)
  }

  function StartOf(fmt: Format, indexed: bool, ps: seq<Member>, d: nat, misc: seq<byte>): nat
    requires SoundChain(ps) && d <= |ps| && Assembles(fmt, Rest(fmt, ps, d), TableOf(fmt, ps).bytes, misc)
  {
    MembersStart(fmt, indexed, Rest(fmt, ps, d), TableOf(fmt, ps).bytes, misc)
  }

  lemma MemberLaid(fmt: Format, indexed: bool, ps: seq<Member>, d: nat, misc: seq<byte>, j: nat)
    requires Archived(fmt, indexed, ps, d, misc) && d + j < |ps|
    ensures At(ArchiveOf(fmt, indexed, ps, d, misc), Position(StartOf(fmt, indexed, ps, d, misc), ps, d, j),
               Record(fmt, ps, d + j))
  {
    hide SoundChain, Svr4Style, Final, Rest, MemberBytes, Record, At, Actual, Position, Fits, TableOf, Assemble,
      MembersStart,
      IndexOffsets, Representable;
    MemberInArchive(fmt, indexed, Rest(fmt, ps, d), TableOf(fmt, ps).bytes, misc, j);
    PositionIsActual(StartOf(fmt, indexed, ps, d, misc), fmt, ps, d, j);
    RecordIs(fmt, ps, d + j);
  }

  /** The archive is laid out as the reader's lemmas want it. */
  lemma ArchiveLaid(fmt: Format, indexed: bool, ps: seq<Member>, d: nat, misc: seq<byte>)
    requires Archived(fmt, indexed, ps, d, misc)
    ensures Laid(ArchiveOf(fmt, indexed, ps, d, misc), StartOf(fmt, indexed, ps, d, misc), fmt, ps, d)
  {
    hide SoundChain, Svr4Style, Final, Rest, Record, At, Position, Actual, Fits, TableOf, Assemble, MembersStart,
      IndexOffsets, Representable;
    var kept, table := Rest(fmt, ps, d), TableOf(fmt, ps).bytes;
    StartEven(fmt, indexed, kept, table, misc);
    ArchiveEnds(fmt, indexed, kept, table, misc);
    PositionIsActual(StartOf(fmt, indexed, ps, d, misc), fmt, ps, d, |kept|);
    forall j {:trigger Position(StartOf(fmt, indexed, ps, d, misc), ps, d, j)} | 0 <= j < |ps| - d
      ensures At(ArchiveOf(fmt, indexed, ps, d, misc), Position(StartOf(fmt, indexed, ps, d, misc), ps, d, j),
        Record(fmt, ps, d + j))
    {
      MemberLaid(fmt, indexed, ps, d, misc, j);
    }
  }

  lemma ArchiveHead(fmt: Format, indexed: bool, kept: seq<Member>, table: seq<byte>, misc: seq<byte>)
    requires Assembles(fmt, kept, table, misc) && !fmt.thin
    ensures var file, p := Assemble(fmt, indexed, kept, table, misc),
      SARMAG + |ArmapPart(fmt, indexed, kept, TableRoom(|table|), misc)|;
      && |file| >= SARMAG && file[..SARMAG] == ARMAG
      && At(file, p, TableBytes(fmt, table).value)
      && MembersStart(fmt, indexed, kept, table, misc) == p + |TableBytes(fmt, table).value|
  {
    hide MembersBytes, ArmapPart, TableBytes;
    PartsAt(Magic(fmt), ArmapPart(fmt, indexed, kept, TableRoom(|table|), misc), TableBytes(fmt, table).value,
      MembersBytes(fmt, kept));
  }

  lemma TableEven(fmt: Format, table: seq<byte>)
    requires TableBytes(fmt, table).Some?
    ensures |TableBytes(fmt, table).value| % 2 == 0
    ensures table == [] ==> TableBytes(fmt, table).value == []
  {
  }

  /** The round trip: the reader finds exactly the written (name, contents) pairs, in order, if and
      only if every name survives its name field or table entry and the first member is not mistaken
      for a special one. */
  lemma RoundTrip(fmt: Format, indexed: bool, ps: seq<Member>, d: nat, misc: seq<byte>)
    requires Archived(fmt, indexed, ps, d, misc)
    ensures ReadMembers(MAXNAME, ArchiveOf(fmt, indexed, ps, d, misc), fmt.big) == Some(Pairs(ps, d))
      <==> AllSurvive(ps, d) && !Mistaken(fmt, indexed, ps, d)
  {
    hide SoundChain, Final, Rest, Assemble, MembersStart, ArmapPart, TableBytes, Laid, Walk, ReadMembers, Pairs,
      AllSurvive,
      Fits, TableOf, At, SecondHeader, Field, SlurpArmap, SlurpNames, Symdefs, IndexOffsets, Entries, Representable,
        NamesOf, TableRoom, IndexForm;
    var kept, table := Rest(fmt, ps, d), TableOf(fmt, ps).bytes;
    var file, start := ArchiveOf(fmt, indexed, ps, d, misc), StartOf(fmt, indexed, ps, d, misc);
    ArchiveLaid(fmt, indexed, ps, d, misc);
    ArchiveHead(fmt, indexed, kept, table, misc);
    TableEven(fmt, table);
    StartEven(fmt, indexed, kept, table, misc);
    if indexed {
      SlurpInverts(MAXNAME, fmt, kept, table, misc);
    } else {
      NoArmap(fmt, kept, TableRoom(|table|), misc);
    }
    if table == [] {
      NoSecondHeader(file, start, fmt, ps, d);
      if indexed {
        IndexedArchive(file, start, fmt, ps, d, fmt.big, Symdefs(Entries(kept), IndexOffsets(fmt, kept, table)));
      } else {
        PlainArchive(file, fmt, ps, d, fmt.big);
      }
    } else {
      TableReads(fmt, file, SARMAG + |ArmapPart(fmt, indexed, kept, TableRoom(|table|), misc)|, table, fmt.big);
      OpenedReads(file, start, fmt, ps, d, fmt.big, indexed,
        if indexed then Symdefs(Entries(kept), IndexOffsets(fmt, kept, table)) else []);
    }
  }

  lemma NoArmap(fmt: Format, kept: seq<Member>, room: nat, misc: seq<byte>)
    requires ValidChain(kept) && |misc| == 32
    ensures ArmapPart(fmt, false, kept, room, misc) == []
  {
  }
}
