// BSD 4.4 archives: a long name stands behind its header, padded with NULs.  Every name is read back.
module ArBsd44 {
  import opened Bytes
  import opened ArFormat
  import opened ArNames
  import opened ArArmap
  import opened ArWrite
  import opened ArLayout
  import opened ArRead
  import opened ArIndex
  import opened ArRoundTrip
  import opened ArFiles

  predicate Bsd44Style(fmt: Format) {
    fmt.style.Bsd44? && !fmt.thin && (fmt.padChar == SPACE || fmt.padChar == SLASH)
  }

  /** The names that go behind the header. */
  predicate Behind(fmt: Format, n: seq<byte>) {
    |n| > Limit(fmt) || SPACE in n
  }

  /** The name field of a long name. */
  function LongField(fmt: Format, n: seq<byte>): (r: seq<byte>)
    ensures |r| == 16
  {
    SpacePad([HASH, 49, SLASH] + Dec(Padded4(|n|)), Limit(fmt)) + Spaces(16 - Limit(fmt))
  }

  /** A member whose header was made for its file. */
  predicate OfFile(fmt: Format, m: Member) {
    && m.Valid() && Name(m) != [] && m.hdr.fmag == ARFMAG && ScanU64(m.hdr.size) == Some(|m.contents|)
    && m.hdr.name == if Behind(fmt, Name(m)) then LongField(fmt, Name(m)) else FreshName(fmt, Name(m))
  }

  predicate AllOfFiles(fmt: Format, ms: seq<Member>) {
    forall i :: 0 <= i < |ms| ==> OfFile(fmt, ms[i])
  }

  lemma HeaderOfFile(fmt: Format, m: Member)
    requires Bsd44Style(fmt) && m.Valid() && !m.haveHdr && Name(m) != [] && Prepared(fmt, m).Some?
    ensures OfFile(fmt, Bsd44Member(fmt, Prepared(fmt, m).value))
  {
    hide Basename, SizePad, ScanU64;
    SizeFieldReads(|m.contents|);
    assert Behind(fmt, Name(m)) ==> FreshName(fmt, Name(m))[Limit(fmt)..] == Spaces(16 - Limit(fmt));
  }

  lemma HeadersOfFiles(fmt: Format, makemap: bool, ms: seq<Member>)
    requires Bsd44Style(fmt) && ValidChain(ms) && AllPrepared(fmt, ms)
    requires forall i :: 0 <= i < |ms| ==> !ms[i].haveHdr && Name(ms[i]) != []
    ensures AllOfFiles(fmt, FinalChain(fmt, makemap, ms))
  {
    hide OfFile, Basename;
    var named := NamedChain(fmt, PreparedChain(fmt, ms));
    forall i | 0 <= i < |ms|
      ensures OfFile(fmt, named[i])
    {
      HeaderOfFile(fmt, ms[i]);
    }
  }

  // ---- one member ------------------------------------------------------

  /** The field of a long name gives the length of what is behind the header. */
  lemma LongFieldReads(fmt: Format, n: seq<byte>, rest: seq<byte>)
    requires |Dec(Padded4(|n|))| <= 12 && Padded4(|n|) < TWO64 / 2
    ensures var f := LongField(fmt, n);
      IsBsd44Name(f) && !InNameTable(Limit(fmt), f) && StrTol((f + rest)[3..]) == Some(Padded4(|n|))
  {
    hide Dec, StrTol, Padded4;
    var d := Dec(Padded4(|n|));
    var text, f := [HASH, 49, SLASH] + d, LongField(fmt, n);
    DecDigit(Padded4(|n|));
    assert f[..|text|] == text;
    assert forall i :: 0 <= i < 4 ==> f[i] == f[..|text|][i];
    var s := (f + rest)[3..];
    assert s == f[3..] + rest;
    assert |text| == 3 + |d| && f[3..][..|d|] == f[3..|text|] == text[3..] == d;
    assert s[..|d|] == d;
    assert s[|d|] == f[|text|] == SPACE;
    ScanDec(Padded4(|n|), s);
  }

  lemma DecDigit(v: nat)
    ensures Dec(v) != [] && IsDigit(Dec(v)[0])
  {
  }

  /** Behind the header: the name ends at its first NUL or fills the room. */
  lemma PaddedNameReads(n: seq<byte>)
    requires NulFree(n)
    ensures CStr(n + Zeros(Padded4(|n|) - |n|), 0) == n
  {
    CStrReads(n + Zeros(Padded4(|n|) - |n|), 0, n);
  }

  /** The room behind the header is counted in the size field, so it has few digits. */
  lemma RoomIsSmall(size: nat, room: nat)
    requires SizePad(size + room).Some?
    ensures |Dec(room)| <= 12 && room < TWO64 / 2 && size + room < TWO64
  {
    SizeFits(size + room);
    DecLength(room, 10);
    Pow10Is();
  }

  /** What a short name's field holds: the name, the padding character and spaces. */
  lemma ShortParts(fmt: Format, n: seq<byte>)
    requires Bsd44Style(fmt) && NulFree(n) && SLASH !in n && !Behind(fmt, n)
    ensures var f := FreshName(fmt, n);
      && f[..|n|] == n && (|n| < Limit(fmt) ==> f[|n|] == fmt.padChar)
      && (forall i :: 0 <= i < 16 ==> f[i] != 0)
      && (forall i :: 0 <= i < 16 ==> f[i] == SLASH ==> i == |n| && fmt.padChar == SLASH)
      && (forall i :: 0 <= i < |n| ==> f[i] != SPACE)
  {
    var f := FreshName(fmt, n);
    assert f[..|n|] == n;
    forall i | 0 <= i < |n|
      ensures f[i] != 0 && f[i] != SLASH && f[i] != SPACE
    {
      assert f[i] == n[i] && n[i] in n;
    }
  }

  lemma NotFound(s: seq<byte>, c: byte, n: nat)
    requires n <= |s| && forall i :: 0 <= i < n ==> s[i] != c
    ensures MemChr(s, c, n) == None
  {
  }

  lemma ShortFieldReads(fmt: Format, n: seq<byte>)
    requires Bsd44Style(fmt) && n != [] && NulFree(n) && SLASH !in n && !Behind(fmt, n)
    ensures var f := FreshName(fmt, n);
      !IsBsd44Name(f) && !InNameTable(Limit(fmt), f) && FieldName(Limit(fmt), f) == n
  {
    hide MemChr, IsBsd44Name, FreshName;
    FreshNotBsd44(fmt, n);
    ShortParts(fmt, n);
    var f := FreshName(fmt, n);
    NotFound(f, 0, Limit(fmt));
    if |n| < Limit(fmt) {
      MemChrFinds(f, fmt.padChar, Limit(fmt), |n|);
    } else {
      NotFound(f, SPACE, Limit(fmt));
    }
    if |n| == Limit(fmt) || fmt.padChar == SPACE {
      NotFound(f, SLASH, Limit(fmt));
    }
  }

  /** What reading a member's header gives, and where the walk goes from there. */
  ghost predicate ReadsAs(max: NameLimit, file: seq<byte>, pos: nat, names: Option<seq<byte>>, m: Member, next: nat) {
    var r := ReadArHdr(max, file, pos, names);
    && r.Read? && r.elt.name == Name(m) && Contents(file, r.elt) == m.contents && NextPos(r.elt) == Some(next)
    && r.elt.hdr.name == m.hdr.name
    && r.elt.start + r.elt.size <= |file| && Even(r.elt.start + r.elt.size) == next
  }

  lemma HdrTail(h: ArHdr)
    requires h.Valid()
    ensures HdrBytes(h) == h.name + (h.misc + h.size + h.fmag)
  {
  }

  lemma LongMemberReads(file: seq<byte>, pos: nat, fmt: Format, m: Member, names: Option<seq<byte>>)
    requires Bsd44Style(fmt) && OfFile(fmt, m) && Writable(fmt, m) && Behind(fmt, Name(m)) && IsBsd44Name(m.hdr.name)
    requires At(file, pos, MemberBytes(fmt, m)) && |file| < TWO64 && pos % 2 == 0
    ensures ReadsAs(Limit(fmt), file, pos, names, m, pos + Span(fmt, m))
  {
    hide ScanU64, Dec, LongField, InNameTable, IsBsd44Name, StrTol, SizePad, Padded4, Basename, ReadArHdr, NextPos,
      Contents, HdrBytes, CStr, Stored, MemberBytes;
    var n, h := Name(m), WrittenHdr(fmt, m);
    var room := Padded4(|n|);
    BasenameIs(m.filename);
    RoomIsSmall(|m.contents|, room);
    SizeFieldReads(|m.contents| + room);
    LongFieldReads(fmt, n, h.misc + h.size + h.fmag);
    HdrTail(h);
    PaddedNameReads(n);
    MemberParts(file, pos, fmt, m);
    ReadExtHdr(Limit(fmt), file, pos, h, names, |m.contents| + room, room);
    AfterName(file, pos, ReadArHdr(Limit(fmt), file, pos, names).elt, room, m.contents);
  }

  lemma SumEven(a: nat, b: nat)
    requires a % 4 == 0 && b % 2 == 0
    ensures (HDR_SIZE + a + b) % 2 == 0
  {
    assert HDR_SIZE + a + b == 2 * (30 + 2 * (a / 4) + b / 2);
  }

  /** From the name to the next header. */
  lemma AfterName(file: seq<byte>, pos: nat, e: Elt, room: nat, contents: seq<byte>)
    requires pos % 2 == 0 && room % 4 == 0 && e.start == pos + HDR_SIZE + room && e.size == |contents|
    requires At(file, e.start, contents) && e.start + Even(|contents|) <= |file| < TWO64
    ensures Contents(file, e) == contents && NextPos(e) == Some(e.start + Even(|contents|))
    ensures e.start + e.size <= |file| && Even(e.start + e.size) == e.start + Even(|contents|)
  {
    hide NextPos, Even;
    SumEven(room, pos);
    NextPosIs(e);
  }

  lemma MemberParts(file: seq<byte>, pos: nat, fmt: Format, m: Member)
    requires Writable(fmt, m) && !fmt.thin && At(file, pos, MemberBytes(fmt, m))
    ensures At(file, pos, HdrBytes(WrittenHdr(fmt, m)))
    ensures At(file, pos + HDR_SIZE, Ext(fmt, m))
    ensures At(file, pos + HDR_SIZE + ExtLen(fmt, m), m.contents)
    ensures pos + Span(fmt, m) <= |file|
  {
    hide At, HdrBytes, Ext, Stored;
    SpanIs(fmt, m);
    var a, b, c := HdrBytes(WrittenHdr(fmt, m)), Ext(fmt, m), Stored(fmt, m);
    AtEnds(file, pos, MemberBytes(fmt, m));
    AtSplit(file, pos, a + b, c);
    AtSplit(file, pos, a, b);
    ContentsFirst(file, pos + HDR_SIZE + ExtLen(fmt, m), fmt, m);
  }

  lemma AtEnds(file: seq<byte>, pos: nat, part: seq<byte>)
    requires At(file, pos, part)
    ensures pos + |part| <= |file|
  {
  }

  lemma ContentsFirst(file: seq<byte>, pos: nat, fmt: Format, m: Member)
    requires !fmt.thin && At(file, pos, Stored(fmt, m))
    ensures At(file, pos, m.contents)
  {
    hide At;
    AtSplit(file, pos, m.contents, if |m.contents| % 2 == 1 then [NL] else []);
  }

  lemma ReadExtHdr(max: NameLimit, file: seq<byte>, pos: nat, h: ArHdr, names: Option<seq<byte>>, size: nat, len: nat)
    requires h.Valid() && At(file, pos, HdrBytes(h))
    requires h.fmag == ARFMAG && ScanU64(h.size) == Some(size) && size < TWO64
    requires IsBsd44Name(h.name) && !InNameTable(max, h.name) && StrTol(HdrBytes(h)[3..]) == Some(len)
    requires len <= size && pos + HDR_SIZE + len <= |file|
    ensures ReadArHdr(max, file, pos, names)
      == Read(Elt(h, CStr(file[pos + HDR_SIZE..pos + HDR_SIZE + len], 0), size - len, len, pos + HDR_SIZE + len))
  {
    hide ScanU64, FieldName, InNameTable, IsBsd44Name, StrTol;
    ParseHdrBytes(h);
    assert file[pos..pos + HDR_SIZE] == HdrBytes(h);
  }

  lemma ShortMemberReads(file: seq<byte>, pos: nat, fmt: Format, m: Member, names: Option<seq<byte>>)
    requires Bsd44Style(fmt) && OfFile(fmt, m) && Writable(fmt, m) && !Behind(fmt, Name(m)) && !IsBsd44Name(m.hdr.name)
    requires At(file, pos, MemberBytes(fmt, m)) && |file| < TWO64 && pos % 2 == 0
    ensures ReadsAs(Limit(fmt), file, pos, names, m, pos + Span(fmt, m))
  {
    hide ScanU64, InNameTable, IsBsd44Name, SizePad, Padded4, Basename, At, FieldName, FreshName, ReadArHdr, NextPos,
      Contents, HdrBytes, Stored, MemberBytes;
    var n, h := Name(m), WrittenHdr(fmt, m);
    BasenameIs(m.filename);
    ShortFieldReads(fmt, n);
    MemberParts(file, pos, fmt, m);
    ReadPlainHdr(Limit(fmt), file, pos, h, names, |m.contents|);
    AfterName(file, pos, ReadArHdr(Limit(fmt), file, pos, names).elt, 0, m.contents);
  }

  /** Reading back any member at its place: nothing is asked of its name but that it is not empty. */
  lemma MemberReads44(file: seq<byte>, pos: nat, fmt: Format, m: Member, names: Option<seq<byte>>)
    requires Bsd44Style(fmt) && OfFile(fmt, m) && Writable(fmt, m)
    requires At(file, pos, MemberBytes(fmt, m)) && |file| < TWO64 && pos % 2 == 0
    ensures ReadsAs(Limit(fmt), file, pos, names, m, pos + Span(fmt, m))
  {
    hide ReadsAs, MemberBytes, At, ScanU64, Basename;
    OfFileIs(fmt, m);
    if Behind(fmt, Name(m)) {
      LongMemberReads(file, pos, fmt, m, names);
    } else {
      ShortMemberReads(file, pos, fmt, m, names);
    }
  }

  /** The header says where the name is. */
  lemma OfFileIs(fmt: Format, m: Member)
    requires Bsd44Style(fmt) && OfFile(fmt, m)
    ensures IsBsd44Name(m.hdr.name) <==> Behind(fmt, Name(m))
  {
    hide ScanU64, Basename, FreshName, Dec, Padded4;
    var n := Name(m);
    BasenameIs(m.filename);
    if Behind(fmt, n) {
      var text := [HASH, 49, SLASH] + Dec(Padded4(|n|));
      DecDigit(Padded4(|n|));
      assert SpacePad(text, Limit(fmt))[..4] == text[..4];
      assert forall i :: 0 <= i < 4 ==> LongField(fmt, n)[i] == SpacePad(text, Limit(fmt))[..4][i];
    } else {
      FreshNotBsd44(fmt, n);
    }
  }

  // ---- the archive -----------------------------------------------------

  lemma SpanEven(fmt: Format, m: Member)
    requires m.Valid()
    ensures Span(fmt, m) % 2 == 0
  {
    hide IsBsd44Name, Padded4, Even, Basename;
    var room, size := Padded4(|Name(m)|), Even(|m.contents|);
    SumEven(room, size);
    SumEven(0, size);
  }

  lemma {:induction false} ActualEven(fmt: Format, first: nat, ms: seq<Member>, k: nat)
    requires k <= |ms| && ValidChain(ms) && first % 2 == 0
    ensures Actual(fmt, first, ms, k) % 2 == 0
  {
    hide Span;
    if k > 0 {
      ActualEven(fmt, first, ms, k - 1);
      SpanEven(fmt, ms[k - 1]);
    }
  }

  /** `file` is an archive whose members start at `start`. */
  ghost predicate Laid44(file: seq<byte>, start: nat, fmt: Format, ms: seq<Member>) {
    && Bsd44Style(fmt) && AllOfFiles(fmt, ms) && AllWritable(fmt, ms) && |file| < TWO64 && start % 2 == 0
    && Actual(fmt, start, ms, |ms|) == |file|
    && forall k {:trigger Actual(fmt, start, ms, k)} :: 0 <= k < |ms| ==>
         At(file, Actual(fmt, start, ms, k), MemberBytes(fmt, ms[k]))
  }

  lemma LaidIs44(file: seq<byte>, start: nat, fmt: Format, ms: seq<Member>)
    requires Laid44(file, start, fmt, ms)
    ensures Actual(fmt, start, ms, |ms|) == |file| && Pairs(ms, |ms|) == [] && ValidChain(ms)
  {
    hide Actual, MemberBytes, OfFile;
  }

  lemma MemberLaid44(file: seq<byte>, start: nat, fmt: Format, ms: seq<Member>, k: nat, names: Option<seq<byte>>)
    requires Laid44(file, start, fmt, ms) && k < |ms|
    ensures ReadsAs(Limit(fmt), file, Actual(fmt, start, ms, k), names, ms[k], Actual(fmt, start, ms, k + 1))
  {
    hide MemberBytes, OfFile, At, Basename, Span, ReadsAs, WrittenSize;
    ActualEven(fmt, start, ms, k);
    MemberReads44(file, Actual(fmt, start, ms, k), fmt, ms[k], names);
  }

  lemma {:induction false} WalkReads44(file: seq<byte>, start: nat, fmt: Format, ms: seq<Member>, k: nat,
                                       names: Option<seq<byte>>)
    requires Laid44(file, start, fmt, ms) && k <= |ms|
    ensures Walk(Limit(fmt), file, Actual(fmt, start, ms, k), names) == Pairs(ms, k)
    decreases |ms| - k
  {
    hide Walk, OfFile, Writable, NextPos, ReadArHdr, Contents, Basename, Actual, Laid44, Pairs;
    LaidIs44(file, start, fmt, ms);
    if k == |ms| {
      WalkAtEnd(Limit(fmt), file, names);
    } else {
      MemberLaid44(file, start, fmt, ms, k, names);
      WalkReads44(file, start, fmt, ms, k + 1, names);
      WalkStep(Limit(fmt), file, Actual(fmt, start, ms, k), names);
      PairsFrom(ms, k);
    }
  }

  lemma PairsFrom(ms: seq<Member>, k: nat)
    requires k < |ms|
    ensures Pairs(ms, k) == [(Name(ms[k]), ms[k].contents)] + Pairs(ms, k + 1)
  {
    hide Basename;
  }

  // ---- opening ---------------------------------------------------------

  /** A name taken for that of an index: "__.SYMDEF" itself, or one whose field is "#1/20" and whose first
      bytes are these. */
  predicate LikeIndex(n: seq<byte>) {
    n == SYMDEF || (17 <= |n| <= 20 && SYMDEF <= n)
  }

  /** A name taken for that of a name table, which ends in a slash. */
  predicate LikeTable(fmt: Format, n: seq<byte>) {
    fmt.padChar == SLASH && n == ARFILENAMES
  }

  /** A field that starts with a short name and goes on with a slash or a space. */
  lemma FieldStarts(max: NameLimit, k: seq<byte>)
    requires max >= 15 && |k| < 15 && NulFree(k) && SLASH !in k && SPACE !in k
    ensures FieldName(max, Pad(k, 16)) == k && FieldName(max, Pad(k + [SLASH], 16)) == k
  {
    hide MemChr;
    var f, g := Pad(k, 16), Pad(k + [SLASH], 16);
    assert forall i :: 0 <= i < |k| ==> f[i] == k[i] && f[i] in k;
    assert g[..|k| + 1] == k + [SLASH];
    assert forall i :: 0 <= i < |k| ==> g[i] == g[..|k| + 1][i] == k[i] && g[i] in k;
    assert g[|k|] == g[..|k| + 1][|k|] == SLASH;
    NotFound(f, 0, max);
    NotFound(f, SLASH, max);
    MemChrFinds(f, SPACE, max, |k|);
    assert g[..|k|] == k;
    NotFound(g, 0, max);
    MemChrFinds(g, SLASH, max, |k|);
  }

  lemma SpecialNames()
    ensures NulFree(SYMDEF) && SLASH !in SYMDEF && SPACE !in SYMDEF && |SYMDEF| == 9
    ensures NulFree(ARFILENAMES) && SLASH !in ARFILENAMES && SPACE !in ARFILENAMES && |ARFILENAMES| == 11
  {
  }

  /** What a short name's field can be taken for. */
  lemma ShortFieldLike(fmt: Format, n: seq<byte>)
    requires Bsd44Style(fmt) && n != [] && NulFree(n) && SLASH !in n && !Behind(fmt, n)
    ensures var f := FreshName(fmt, n);
      && f[0] != SLASH && f != Pad([HASH, 49, SLASH, 50, 48], 16)
      && (f == Pad(SYMDEF, 16) || f == Pad(SYMDEF + [SLASH], 16) <==> n == SYMDEF)
      && (f == Pad(ARFILENAMES + [SLASH], 16) <==> LikeTable(fmt, n))
  {
    hide FieldName, Pad, FreshName, InNameTable;
    var f := FreshName(fmt, n);
    SpecialNames();
    ShortFieldReads(fmt, n);
    ShortParts(fmt, n);
    FieldStarts(Limit(fmt), SYMDEF);
    FieldStarts(Limit(fmt), ARFILENAMES);
    assert f[0] == f[..|n|][0] == n[0] && n[0] in n;
    assert IsBsd44Name(Pad([HASH, 49, SLASH, 50, 48], 16)) by {
      var t := [HASH, 49, SLASH, 50, 48];
      assert Pad(t, 16)[..5] == t;
      assert forall i :: 0 <= i < 4 ==> Pad(t, 16)[i] == Pad(t, 16)[..5][i];
    }
    if |n| < 15 {
      PaddedWith(fmt, n);
    }
    SlashFollows(ARFILENAMES);
  }

  lemma SlashFollows(k: seq<byte>)
    requires |k| < 15
    ensures Pad(k + [SLASH], 16)[|k|] == SLASH
  {
  }

  lemma PaddedWith(fmt: Format, n: seq<byte>)
    requires Bsd44Style(fmt) && |n| < 15
    ensures FreshName(fmt, n) == if fmt.padChar == SPACE then Pad(n, 16) else Pad(n + [SLASH], 16)
  {
    assert [SPACE] + Spaces(15 - |n|) == Spaces(16 - |n|);
    assert n + ([SPACE] + Spaces(15 - |n|)) == n + [SPACE] + Spaces(15 - |n|);
  }

  /** What a long name's field can be taken for. */
  lemma LongFieldLike(fmt: Format, n: seq<byte>)
    requires Bsd44Style(fmt) && Behind(fmt, n) && |Dec(Padded4(|n|))| <= 12 && Padded4(|n|) < TWO64 / 2
    ensures var f := LongField(fmt, n);
      && f[0] == HASH && (f == Pad([HASH, 49, SLASH, 50, 48], 16) <==> 17 <= |n| <= 20)
  {
    hide Dec, StrTol, LongField, InNameTable;
    var t, f := [HASH, 49, SLASH, 50, 48], LongField(fmt, n);
    LongFieldReads(fmt, n, []);
    assert f + [] == f;
    assert Dec(20) == [50, 48] by { DecTwenty(); }
    if 17 <= |n| <= 20 {
      assert Padded4(|n|) == 20;
      LongFieldIs(fmt, n, t);
    }
    if f == Pad(t, 16) {
      var s := Pad(t, 16)[3..];
      assert s[..2] == [50, 48] && s[2] == SPACE;
      ScanDec(20, s);
      assert Padded4(|n|) == 20;
    }
  }

  lemma DecTwenty()
    ensures Dec(20) == [50, 48]
  {
  }

  lemma LongFieldIs(fmt: Format, n: seq<byte>, t: seq<byte>)
    requires t == [HASH, 49, SLASH] + Dec(Padded4(|n|)) && |t| <= 12
    ensures LongField(fmt, n) == Pad(t, 16)
  {
    hide Dec, Padded4;
    assert Spaces(Limit(fmt) - |t|) + Spaces(16 - Limit(fmt)) == Spaces(16 - |t|);
    assert t + Spaces(Limit(fmt) - |t|) + Spaces(16 - Limit(fmt))
      == t + (Spaces(Limit(fmt) - |t|) + Spaces(16 - Limit(fmt)));
  }

  /** What a member's field can be taken for. */
  lemma FieldLike(fmt: Format, m: Member)
    requires Bsd44Style(fmt) && OfFile(fmt, m) && Writable(fmt, m)
    ensures var f, n := m.hdr.name, Name(m);
      && f[0] != SLASH
      && (f == Pad(SYMDEF, 16) || f == Pad(SYMDEF + [SLASH], 16) <==> n == SYMDEF)
      && (f == Pad(ARFILENAMES + [SLASH], 16) <==> LikeTable(fmt, n))
      && (f == Pad([HASH, 49, SLASH, 50, 48], 16) <==> 17 <= |n| <= 20)
  {
    hide Basename, ScanU64, FreshName, LongField, Dec, Padded4, SizePad;
    var n := Name(m);
    BasenameIs(m.filename);
    OfFileIs(fmt, m);
    SpecialNames();
    if Behind(fmt, n) {
      RoomIsSmall(|m.contents|, Padded4(|n|));
      LongFieldLike(fmt, n);
      assert Pad(SYMDEF, 16)[0] == Pad(SYMDEF + [SLASH], 16)[0] == 95 && Pad(ARFILENAMES + [SLASH], 16)[0] == 65;
    } else {
      ShortFieldLike(fmt, n);
    }
  }

  lemma SlashFirst()
    ensures Pad([SLASH], 16)[0] == SLASH && Pad(SYM64, 16)[0] == SLASH && Pad([SLASH, SLASH], 16)[0] == SLASH
  {
  }

  lemma PeekAt44(file: seq<byte>, start: nat, fmt: Format, ms: seq<Member>, k: nat)
    requires Laid44(file, start, fmt, ms) && k < |ms|
    ensures Peek(file, Actual(fmt, start, ms, k)) == ms[k].hdr.name
    ensures At(file, Actual(fmt, start, ms, k) + HDR_SIZE, Ext(fmt, ms[k]))
  {
    hide At, OfFile, Span, Actual, HdrBytes, Ext, Stored, Peek, WrittenSize, MemberBytes;
    var p := Actual(fmt, start, ms, k);
    MemberParts(file, p, fmt, ms[k]);
    PeekName(file, p, WrittenHdr(fmt, ms[k]));
  }

  /** Looking for a name table at a member. */
  lemma NamesAt44(file: seq<byte>, start: nat, fmt: Format, ms: seq<Member>, k: nat)
    requires Laid44(file, start, fmt, ms) && k <= |ms|
    ensures var p, r := Actual(fmt, start, ms, k), SlurpNames(Limit(fmt), file, Actual(fmt, start, ms, k));
      if k < |ms| && LikeTable(fmt, Name(ms[k])) then r.Some? && r.value.first == Actual(fmt, start, ms, k + 1)
      else r == Some(Names(None, p))
  {
    hide Laid44, Actual, Basename, Peek, Pad, Slurped, ReadArHdr, Contents, NextPos, OfFile, Writable;
    LaidIs44(file, start, fmt, ms);
    if k < |ms| {
      LaidMember44(file, start, fmt, ms, k);
      PeekAt44(file, start, fmt, ms, k);
      FieldLike(fmt, ms[k]);
      SlashFirst();
      MemberLaid44(file, start, fmt, ms, k, None);
    } else {
      PeekEnd(file);
    }
  }

  lemma LaidMember44(file: seq<byte>, start: nat, fmt: Format, ms: seq<Member>, k: nat)
    requires Laid44(file, start, fmt, ms) && k < |ms|
    ensures Bsd44Style(fmt) && OfFile(fmt, ms[k]) && Writable(fmt, ms[k])
  {
    hide OfFile, Writable, At, Actual, MemberBytes;
  }

  /** No member is taken for a second index header. */
  lemma NoSecond44(file: seq<byte>, start: nat, fmt: Format, ms: seq<Member>)
    requires Laid44(file, start, fmt, ms)
    ensures SecondHeader(Limit(fmt), file, start) == 0
  {
    hide Laid44, Basename, ReadArHdr, Contents, NextPos, OfFile, Writable, Pad;
    LaidIs44(file, start, fmt, ms);
    ActualFirst(fmt, start, ms);
    if ms != [] {
      LaidMember44(file, start, fmt, ms, 0);
      FieldLike(fmt, ms[0]);
      MemberLaid44(file, start, fmt, ms, 0, None);
    } else {
      SecondAtEnd(Limit(fmt), file);
    }
  }

  lemma SecondAtEnd(max: NameLimit, file: seq<byte>)
    ensures SecondHeader(max, file, |file|) == 0
  {
  }

  lemma BsdIndexAt(max: NameLimit, file: seq<byte>, pos: nat, m: Member, next: nat, big: bool)
    requires ReadsAs(max, file, pos, None, m, next)
    ensures var r := SlurpBsd(max, file, pos, big); r.MapError? || (r.Map? && r.first == next)
  {
    hide ReadArHdr, BsdBody, Contents, NextPos, Basename;
  }

  /** The first bytes behind a header whose name field is "#1/20". */
  lemma NameBehind(file: seq<byte>, pos: nat, fmt: Format, m: Member)
    requires Bsd44Style(fmt) && OfFile(fmt, m) && 17 <= |Name(m)| <= 20 && At(file, pos + HDR_SIZE, Ext(fmt, m))
    ensures pos + HDR_SIZE + 20 <= |file| && file[pos + HDR_SIZE..pos + HDR_SIZE + 9] == Name(m)[..9]
  {
    hide Basename, ScanU64, FreshName, LongField, IsBsd44Name;
    var n, q := Name(m), pos + HDR_SIZE;
    OfFileIs(fmt, m);
    assert Padded4(|n|) == 20;
    assert file[q..q + 9] == file[q..q + 20][..9];
  }

  /** Looking for an index at the first member. */
  lemma ArmapAt44(file: seq<byte>, start: nat, fmt: Format, ms: seq<Member>, big: bool)
    requires Laid44(file, start, fmt, ms)
    ensures var r := SlurpArmap(Limit(fmt), file, start, big);
      if ms != [] && LikeIndex(Name(ms[0]))
      then r.MapError? || (r.Map? && r.first == Actual(fmt, start, ms, 1))
      else r == NoMap
  {
    hide Laid44, Actual, Basename, Peek, Pad, ReadsAs, OfFile, Writable, SlurpBsd, SlurpCoff, SlurpSym64, At, Ext;
    LaidIs44(file, start, fmt, ms);
    ActualFirst(fmt, start, ms);
    if ms != [] {
      LaidMember44(file, start, fmt, ms, 0);
      PeekAt44(file, start, fmt, ms, 0);
      FieldLike(fmt, ms[0]);
      SlashFirst();
      MemberLaid44(file, start, fmt, ms, 0, None);
      BsdIndexAt(Limit(fmt), file, start, ms[0], Actual(fmt, start, ms, 1), big);
      if 17 <= |Name(ms[0])| <= 20 {
        NameBehind(file, start, fmt, ms[0]);
      }
    } else {
      PeekEnd(file);
    }
  }

  // ---- the round trip --------------------------------------------------

  /** The first member is taken for an index or for a name table. */
  predicate Misleading44(fmt: Format, indexed: bool, ms: seq<Member>) {
    ms != [] && (LikeTable(fmt, Name(ms[0])) || (!indexed && LikeIndex(Name(ms[0]))))
  }

  /** What a reader finds that takes member `k` for the first. */
  lemma OpenedAt44(file: seq<byte>, start: nat, fmt: Format, ms: seq<Member>, k: nat, big: bool)
    requires Laid44(file, start, fmt, ms) && k <= |ms|
    requires var a := OpenArchive(Limit(fmt), file, big); a.Some? && a.value.first == Actual(fmt, start, ms, k)
    ensures ReadMembers(Limit(fmt), file, big) == Some(Pairs(ms, k))
    ensures k > 0 ==> Pairs(ms, k) != Pairs(ms, 0)
  {
    hide Laid44, Actual, OpenArchive, Walk, Basename;
    WalkReads44(file, start, fmt, ms, k, OpenArchive(Limit(fmt), file, big).value.names);
    assert |Pairs(ms, k)| == |ms| - k;
  }

  lemma Plain44(file: seq<byte>, fmt: Format, ms: seq<Member>, big: bool)
    requires Laid44(file, SARMAG, fmt, ms) && |file| >= SARMAG && file[..SARMAG] == ARMAG
    ensures ReadMembers(Limit(fmt), file, big) == Some(Pairs(ms, 0)) <==> !Misleading44(fmt, false, ms)
  {
    hide Laid44, Actual, SlurpArmap, SlurpNames, LikeIndex, LikeTable, ReadMembers, Pairs, Basename;
    ArmapAt44(file, SARMAG, fmt, ms, big);
    LaidIs44(file, SARMAG, fmt, ms);
    ActualFirst(fmt, SARMAG, ms);
    var r := SlurpArmap(Limit(fmt), file, SARMAG, big);
    if r.MapError? {
      NotOpened(Limit(fmt), file, big);
    } else {
      FirstRead44(file, SARMAG, fmt, ms, if r.Map? then 1 else 0, big);
    }
  }

  lemma NotOpened(max: NameLimit, file: seq<byte>, big: bool)
    requires OpenArchive(max, file, big).None?
    ensures ReadMembers(max, file, big) == None
  {
  }

  /** Once the index has been dealt with, the reader stands at member `k`. */
  lemma FirstRead44(file: seq<byte>, start: nat, fmt: Format, ms: seq<Member>, k: nat, big: bool)
    requires Laid44(file, start, fmt, ms) && |file| >= SARMAG && file[..SARMAG] == ARMAG && k <= |ms|
    requires var r := SlurpArmap(Limit(fmt), file, SARMAG, big);
      !r.MapError? && Actual(fmt, start, ms, k) == if r.Map? then r.first else SARMAG
    ensures ReadMembers(Limit(fmt), file, big) == Some(Pairs(ms, 0))
      <==> k == 0 && (ms == [] || !LikeTable(fmt, Name(ms[0])))
  {
    hide Laid44, Actual, SlurpArmap, SlurpNames, LikeTable, ReadMembers, Pairs, Basename;
    NamesAt44(file, start, fmt, ms, k);
    if OpenArchive(Limit(fmt), file, big).None? {
      NotOpened(Limit(fmt), file, big);
    } else if k < |ms| && LikeTable(fmt, Name(ms[k])) {
      OpenedAt44(file, start, fmt, ms, k + 1, big);
    } else {
      OpenedAt44(file, start, fmt, ms, k, big);
    }
  }

  /** BSD 4.4 archives of files, with or without an index: opening and walking what was written gives exactly
      the files' base names and contents, in order, if and only if the first one is not called like an index
      (when there is none) or, where names are padded with slashes, like a name table.  No other name is lost:
      long ones come back, and ones with spaces, newlines or backslashes. */
  lemma Bsd44RoundTrip(fmt: Format, makemap: bool, ms: seq<Member>, misc: seq<byte>)
    requires Bsd44Style(fmt) && ValidChain(ms) && |misc| == 32
    requires forall i :: 0 <= i < |ms| ==> !ms[i].haveHdr && Name(ms[i]) != []
    requires ArchiveBytes(fmt, makemap, ms, misc).Some? && |ArchiveBytes(fmt, makemap, ms, misc).value| < TWO64
    requires var kept := FinalChain(fmt, makemap, ms);
      makemap && HasObjects(ms) ==> Fits(kept, []) && Representable(IndexOffsets(fmt, kept, []), true)
    ensures var kept := FinalChain(fmt, makemap, ms);
      ReadMembers(Limit(fmt), ArchiveBytes(fmt, makemap, ms, misc).value, fmt.big) == Some(Pairs(kept, 0))
      <==> !Misleading44(fmt, makemap && HasObjects(ms), kept)
  {
    hide OfFile, FinalChain, Assemble, MembersStart, MemberBytes, Actual, Walk, At, Writable, Fits, Basename,
      HasObjects,
      ReadMembers, Pairs, LikeIndex, LikeTable, Representable, IndexOffsets, Laid44, SlurpArmap;
    var kept, indexed := FinalChain(fmt, makemap, ms), makemap && HasObjects(ms);
    assert FinalTable(fmt, ms) == [];
    HeadersOfFiles(fmt, makemap, ms);
    Archive44(fmt, indexed, kept, misc);
    var file, start := Assemble(fmt, indexed, kept, [], misc), MembersStart(fmt, indexed, kept, [], misc);
    if indexed {
      Indexed44(fmt, kept, misc);
    } else {
      StartsAtMagic(fmt, kept, misc);
      Plain44(file, fmt, kept, fmt.big);
    }
  }

  lemma StartsAtMagic(fmt: Format, kept: seq<Member>, misc: seq<byte>)
    requires Assembles(fmt, kept, [], misc)
    ensures MembersStart(fmt, false, kept, [], misc) == SARMAG
  {
    NoArmap(fmt, kept, TableRoom(0), misc);
    TableEven(fmt, []);
  }

  /** The index of the archive is read as what it is, and leads to the first member. */
  lemma Indexed44(fmt: Format, kept: seq<Member>, misc: seq<byte>)
    requires Assembles(fmt, kept, [], misc) && Fits(kept, []) && Representable(IndexOffsets(fmt, kept, []), true)
    requires Bsd44Style(fmt)
    requires var file := Assemble(fmt, true, kept, [], misc);
      && Laid44(file, MembersStart(fmt, true, kept, [], misc), fmt, kept) && |file| >= SARMAG && file[..SARMAG] == ARMAG
    ensures ReadMembers(Limit(fmt), Assemble(fmt, true, kept, [], misc), fmt.big) == Some(Pairs(kept, 0))
      <==> !Misleading44(fmt, true, kept)
  {
    hide Laid44, Actual, SlurpArmap, SlurpNames, LikeTable, ReadMembers, Pairs, Basename, Fits, Assemble, IndexOffsets,
      Representable, Entries, Symdefs, ArmapPart, AllWritable, IndexForm, SecondHeader;
    var file, start := Assemble(fmt, true, kept, [], misc), MembersStart(fmt, true, kept, [], misc);
    SlurpInverts(Limit(fmt), fmt, kept, [], misc);
    TableEven(fmt, []);
    NoSecond44(file, start, fmt, kept);
    LaidIs44(file, start, fmt, kept);
    ActualFirst(fmt, start, kept);
    FirstRead44(file, start, fmt, kept, 0, fmt.big);
  }

  /** The archive is laid out as the reader's lemmas want it. */
  lemma Archive44(fmt: Format, indexed: bool, kept: seq<Member>, misc: seq<byte>)
    requires Bsd44Style(fmt) && Assembles(fmt, kept, [], misc) && AllOfFiles(fmt, kept) && (indexed ==> Fits(kept, []))
    requires |Assemble(fmt, indexed, kept, [], misc)| < TWO64
    ensures var file := Assemble(fmt, indexed, kept, [], misc);
      && Laid44(file, MembersStart(fmt, indexed, kept, [], misc), fmt, kept)
      && |file| >= SARMAG && file[..SARMAG] == ARMAG
  {
    hide OfFile, Assemble, MembersStart, MemberBytes, Actual, At, Writable, Fits, Basename;
    var file, start := Assemble(fmt, indexed, kept, [], misc), MembersStart(fmt, indexed, kept, [], misc);
    WritableChain(fmt, kept);
    StartEven(fmt, indexed, kept, [], misc);
    ArchiveEnds(fmt, indexed, kept, [], misc);
    ArchiveHead(fmt, indexed, kept, [], misc);
    forall k {:trigger Actual(fmt, start, kept, k)} | 0 <= k < |kept|
      ensures At(file, Actual(fmt, start, kept, k), MemberBytes(fmt, kept[k]))
    {
      MemberInArchive(fmt, indexed, kept, [], misc, k);
    }
  }

  lemma WritableChain(fmt: Format, ms: seq<Member>)
    requires AllWritable(fmt, ms)
    ensures ValidChain(ms)
  {
  }

  lemma ActualFirst(fmt: Format, start: nat, ms: seq<Member>)
    requires ValidChain(ms)
    ensures Actual(fmt, start, ms, 0) == start
  {
  }

  // ---- files the round trip loses --------------------------------------

  /** Names of 18 bytes are kept behind the header, and their field is "#1/20". */
  const SORTED: seq<byte> := SYMDEF + [32, 83, 79, 82, 84, 69, 68, 46, 111] // __.SYMDEF SORTED.o

  /** What is written for one empty file, without an index. */
  function OneFile(name: seq<byte>): Option<seq<byte>>
    requires NulFree(name)
  {
    ArchiveBytes(MACHO, false, [EmptyFile(name)], Spaces(32))
  }

  /** The one member, with its final header. */
  function Kept(name: seq<byte>): seq<Member>
    requires NulFree(name)
  {
    var ms := [EmptyFile(name)];
    if AllPrepared(MACHO, ms) then FinalChain(MACHO, false, ms) else []
  }

  lemma EmptyFileWritten(name: seq<byte>)
    requires NulFree(name) && Basename(name) == name && 0 < |name| <= 100
    ensures OneFile(name).Some? && |OneFile(name).value| < 200
    ensures var kept := Kept(name);
      |kept| == 1 && Name(kept[0]) == name && kept[0].contents == []
  {
    hide FreshName, SizePad, Basename, NulFree, HdrBytes, Spaces, SpacePad, MemberBytes, Dec;
    var ms := [EmptyFile(name)];
    SizeFits(0);
    SizeFits(Padded4(|name|));
    var m := FinalChain(MACHO, false, ms)[0];
    SpanIs(MACHO, m);
    var file := Assemble(MACHO, false, [m], [], Spaces(32));
    StartsAtMagic(MACHO, [m], Spaces(32));
    ArchiveEnds(MACHO, false, [m], [], Spaces(32));
    assert FinalChain(MACHO, false, ms) == [m];
  }

  /** A Mach-O archive of one empty file is read back exactly if the file is not called like an index. */
  lemma EmptyFileReads(name: seq<byte>)
    requires NulFree(name) && Basename(name) == name && 0 < |name| <= 100
    ensures OneFile(name).Some?
    ensures ReadMembers(16, OneFile(name).value, false) == Some([(name, [])]) <==> !LikeIndex(name)
  {
    hide ArchiveBytes, FinalChain, ReadMembers, Basename, LikeIndex, NulFree;
    var ms := [EmptyFile(name)];
    EmptyFileWritten(name);
    Bsd44RoundTrip(MACHO, false, ms, Spaces(32));
    assert Pairs(Kept(name), 0) == [(name, [])];
  }

  /** Two such names. */
  lemma IndexNamesAreLost()
    ensures NulFree(SYMDEF) && NulFree(SORTED)
    ensures OneFile(SYMDEF).Some? && ReadMembers(16, OneFile(SYMDEF).value, false) != Some([(SYMDEF, [])])
    ensures OneFile(SORTED).Some? && ReadMembers(16, OneFile(SORTED).value, false) != Some([(SORTED, [])])
  {
    hide OneFile, ReadMembers, Basename;
    SymdefName();
    EmptyFileReads(SYMDEF);
    BasenameIs(SORTED);
    assert SLASH !in SORTED;
    EmptyFileReads(SORTED);
  }
}
