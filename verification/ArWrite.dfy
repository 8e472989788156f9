// Writing a whole archive: magic, symbol index, name table, members.
module ArWrite {
  import opened Bytes
  import opened ArFormat
  import opened ArNames
  import opened ArArmap

  // ---- members ---------------------------------------------------------

  function Padded4(n: nat): (r: nat)
    ensures r % 4 == 0 && n <= r < n + 4
  {
    n + (4 - n % 4) % 4
  }

  /** The name field of `_bfd_archive_bsd44_construct_extended_name_table`. */
  function Bsd44Member(fmt: Format, m: Member): (r: Member)
    requires m.Valid()
    ensures r.Valid() && r.contents == m.contents && r.filename == m.filename
  {
    var n := Name(m);
    if |n| > Limit(fmt) || SPACE in n then
      var len := Padded4(|n|);
      WithName(m, SpacePad([HASH, 49, SLASH] + Dec(len), Limit(fmt)) + m.hdr.name[Limit(fmt)..]).(extra := len)
    else m
  }

  /** The name bytes `_bfd_bsd44_write_ar_hdr` puts after the header. */
  function Ext(fmt: Format, m: Member): seq<byte>
    requires m.Valid()
  {
    if fmt.style.Bsd44? && IsBsd44Name(m.hdr.name) then Name(m) + Zeros(Padded4(|Name(m)|) - |Name(m)|) else []
  }

  /** The size field as written: a BSD 4.4 name counts as part of the member. */
  function WrittenSize(fmt: Format, m: Member): Option<seq<byte>>
    requires m.Valid()
  {
    if fmt.style.Bsd44? && IsBsd44Name(m.hdr.name) then SizePad(|m.contents| + Padded4(|Name(m)|))
    else Some(m.hdr.size)
  }

  predicate Writable(fmt: Format, m: Member) {
    m.Valid() && WrittenSize(fmt, m).Some?
  }

  function WrittenHdr(fmt: Format, m: Member): (h: ArHdr)
    requires Writable(fmt, m)
    ensures h.Valid()
  {
    m.hdr.(size := WrittenSize(fmt, m).value)
  }

  /** The contents and the newline that keeps the next header on an even offset; a thin archive
      stores neither. */
  function Stored(fmt: Format, m: Member): seq<byte> {
    if fmt.thin then [] else m.contents + (if |m.contents| % 2 == 1 then [NL] else [])
  }

  function MemberBytes(fmt: Format, m: Member): (r: seq<byte>)
    requires Writable(fmt, m)
    ensures |r| == HDR_SIZE + |Ext(fmt, m)| + |Stored(fmt, m)|
  {
    HdrBytes(WrittenHdr(fmt, m)) + Ext(fmt, m) + Stored(fmt, m)
  }

  predicate AllWritable(fmt: Format, ms: seq<Member>) {
    forall i :: 0 <= i < |ms| ==> Writable(fmt, ms[i])
  }

  function MembersBytes(fmt: Format, ms: seq<Member>): seq<byte>
    requires AllWritable(fmt, ms)
  {
    if ms == [] then [] else MembersBytes(fmt, ms[..|ms| - 1]) + MemberBytes(fmt, ms[|ms| - 1])
  }

  // ---- the name table as a member --------------------------------------

  function TableHdr(fmt: Format, len: nat): Option<ArHdr> {
    match SizePad(len + len % 2)
    case None => None
    case Some(size) =>
      Some(ArHdr(Pad(if fmt.style.Svr4? then [SLASH, SLASH] else ARFILENAMES + [SLASH], 16), Spaces(32), size, ARFMAG))
  }

  function TableBytes(fmt: Format, table: seq<byte>): Option<seq<byte>> {
    if table == [] then Some([])
    else
      match TableHdr(fmt, |table|)
      case None => None
      case Some(h) => Some(HdrBytes(h) + table + (if |table| % 2 == 1 then [NL] else []))
  }

  /** The room of the name table as `_bfd_compute_and_write_armap` works it out. */
  function TableRoom(len: nat): nat {
    var e := if U32(len) != 0 then U32(U32(len) + HDR_SIZE) else 0;
    U32(e + e % 2)
  }

  // ---- the archive -----------------------------------------------------

  function DropSymdefs(ms: seq<Member>): (r: seq<Member>)
    ensures |r| <= |ms| && r == ms[|ms| - |r|..]
  {
    if ms != [] && ms[0].filename == SYMDEF then DropSymdefs(ms[1..]) else ms
  }

  predicate AllPrepared(fmt: Format, ms: seq<Member>)
    requires ValidChain(ms)
  {
    forall i :: 0 <= i < |ms| ==> Prepared(fmt, ms[i]).Some?
  }

  function PreparedChain(fmt: Format, ms: seq<Member>): (r: seq<Member>)
    requires ValidChain(ms) && AllPrepared(fmt, ms)
    ensures |r| == |ms| && ValidChain(r)
    ensures forall i :: 0 <= i < |ms| ==> r[i] == Prepared(fmt, ms[i]).value
  {
    seq(|ms|, i requires 0 <= i < |ms| => Prepared(fmt, ms[i]).value)
  }

  function HasObjects(ms: seq<Member>): bool {
    exists i :: 0 <= i < |ms| && ms[i].isObject
  }

  /** The chain with its final headers, and the name table. */
  function NamedChain(fmt: Format, ms: seq<Member>): (r: seq<Member>)
    requires ValidChain(ms)
    ensures |r| == |ms| && ValidChain(r)
  {
    if fmt.style.Bsd44? then seq(|ms|, i requires 0 <= i < |ms| => Bsd44Member(fmt, ms[i]))
    else Named(fmt, ms)
  }

  function NameTable(fmt: Format, ms: seq<Member>): seq<byte> {
    if fmt.style.Bsd44? then [] else TableOf(fmt, ms).bytes
  }

  function ArmapPart(fmt: Format, indexed: bool, kept: seq<Member>, room: nat, misc: seq<byte>): seq<byte>
    requires ValidChain(kept) && |misc| == 32
  {
    if indexed then
      EntriesOrdered(kept);
      ArmapBytes(fmt, kept, Entries(kept), room, misc)
    else []
  }

  function Magic(fmt: Format): (r: seq<byte>)
    ensures |r| == SARMAG
  {
    if fmt.thin then ARMAGT else ARMAG
  }

  /** The archive of a chain whose headers are final. */
  function Assemble(fmt: Format, indexed: bool, kept: seq<Member>, table: seq<byte>, misc: seq<byte>): seq<byte>
    requires AllWritable(fmt, kept) && TableBytes(fmt, table).Some? && |misc| == 32
  {
    Magic(fmt) + ArmapPart(fmt, indexed, kept, TableRoom(|table|), misc) + TableBytes(fmt, table).value
    + MembersBytes(fmt, kept)
  }

  /** What `_bfd_write_archive_contents` writes for the chain `ms`, if it succeeds. */
  function ArchiveBytes(fmt: Format, makemap: bool, ms: seq<Member>, misc: seq<byte>): Option<seq<byte>>
    requires ValidChain(ms) && |misc| == 32
  {
    if !AllPrepared(fmt, ms) then None
    else
      var table := FinalTable(fmt, ms);
      var kept := FinalChain(fmt, makemap, ms);
      if AllWritable(fmt, kept) && TableBytes(fmt, table).Some? then
        Some(Assemble(fmt, makemap && HasObjects(ms), kept, table, misc))
      else None
  }

  function FinalTable(fmt: Format, ms: seq<Member>): seq<byte>
    requires ValidChain(ms) && AllPrepared(fmt, ms)
  {
    NameTable(fmt, PreparedChain(fmt, ms))
  }

  function FinalChain(fmt: Format, makemap: bool, ms: seq<Member>): (r: seq<Member>)
    requires ValidChain(ms) && AllPrepared(fmt, ms)
    ensures ValidChain(r) && |r| <= |ms|
  {
    var named := NamedChain(fmt, PreparedChain(fmt, ms));
    if makemap && HasObjects(ms) then DropSymdefs(named) else named
  }

  // ---- the writer ------------------------------------------------------

  method PrepareHeaders(fmt: Format, makemap: bool, chain: array<Member>) returns (ok: bool, hasobjects: bool)
    requires ValidChain(chain[..])
    modifies chain
    ensures ok == AllPrepared(fmt, old(chain[..]))
    ensures ok ==> chain[..] == PreparedChain(fmt, old(chain[..]))
    ensures ok && makemap ==> hasobjects == HasObjects(old(chain[..]))
  {
    ghost var ms := chain[..];
    hasobjects := false;
    for i := 0 to chain.Length
      invariant forall j :: 0 <= j < i ==> Prepared(fmt, ms[j]).Some? && chain[j] == Prepared(fmt, ms[j]).value
      invariant forall j :: i <= j < chain.Length ==> chain[j] == ms[j]
      invariant makemap ==> hasobjects == exists j :: 0 <= j < i && ms[j].isObject
    {
      if !chain[i].haveHdr {
        var p := Prepared(fmt, chain[i]);
        if p.None? {
          assert ms[i] == chain[i];
          return false, false;
        }
        chain[i] := p.value;
      }
      if makemap && !hasobjects && chain[i].isObject {
        hasobjects := true;
      }
    }
    ok := true;
  }

  method Bsd44Names(fmt: Format, chain: array<Member>)
    requires ValidChain(chain[..])
    modifies chain
    ensures forall j :: 0 <= j < chain.Length ==> chain[j] == Bsd44Member(fmt, old(chain[j]))
  {
    ghost var ms := chain[..];
    for i := 0 to chain.Length
      invariant forall j :: 0 <= j < chain.Length ==> chain[j] == if j < i then Bsd44Member(fmt, ms[j]) else ms[j]
    {
      chain[i] := Bsd44Member(fmt, chain[i]);
    }
  }

  lemma MembersNext(fmt: Format, ms: seq<Member>, i: nat)
    requires i < |ms| && AllWritable(fmt, ms[..i]) && Writable(fmt, ms[i])
    ensures AllWritable(fmt, ms[..i + 1])
    ensures MembersBytes(fmt, ms[..i + 1]) == MembersBytes(fmt, ms[..i]) + MemberBytes(fmt, ms[i])
  {
    assert ms[..i + 1][..i] == ms[..i];
    assert forall j :: 0 <= j < i ==> ms[j] == ms[..i][j];
  }

  /** One turn of the member loop of `_bfd_write_archive_contents`. */
  method WriteMember(fmt: Format, m: Member) returns (out: seq<byte>)
    requires Writable(fmt, m)
    ensures out == MemberBytes(fmt, m)
  {
    out := HdrBytes(WrittenHdr(fmt, m)) + Ext(fmt, m);
    var body := [];
    if !fmt.thin {
      body := CopyContents(m.contents);
      if |m.contents| % 2 == 1 {
        body := body + [NL];
      }
    }
    out := out + body;
  }

  /** The member loop of `_bfd_write_archive_contents`; a member is copied through a buffer of
      `AR_WRITE_BUFFERSIZE` bytes. */
  method WriteMembers(fmt: Format, ms: seq<Member>) returns (ok: bool, out: seq<byte>)
    requires ValidChain(ms)
    ensures ok == AllWritable(fmt, ms)
    ensures ok ==> out == MembersBytes(fmt, ms)
  {
    out := [];
    for i := 0 to |ms|
      invariant AllWritable(fmt, ms[..i])
      invariant out == MembersBytes(fmt, ms[..i])
    {
      if !Writable(fmt, ms[i]) {
        assert !AllWritable(fmt, ms);
        return false, out;
      }
      MembersNext(fmt, ms, i);
      var bytes := WriteMember(fmt, ms[i]);
      out := out + bytes;
    }
    assert ms[..|ms|] == ms;
    ok := true;
  }

  const AR_WRITE_BUFFERSIZE: nat := 8 * 1024 * 1024

  method CopyContents(contents: seq<byte>) returns (out: seq<byte>)
    ensures out == contents
  {
    out := [];
    var remaining: nat := |contents|;
    while remaining != 0
      invariant remaining <= |contents| && out == contents[..|contents| - remaining]
      decreases remaining
    {
      var amt := if AR_WRITE_BUFFERSIZE > remaining then remaining else AR_WRITE_BUFFERSIZE;
      var pos := |contents| - remaining;
      out := out + contents[pos..pos + amt];
      remaining := remaining - amt;
    }
  }

  /** Final names: the target's `_bfd_construct_extended_name_table`. */
  method NameMembers(fmt: Format, chain: array<Member>) returns (table: seq<byte>)
    requires ValidChain(chain[..])
    modifies chain
    ensures table == NameTable(fmt, old(chain[..]))
    ensures chain[..] == NamedChain(fmt, old(chain[..]))
  {
    if fmt.style.Bsd44? {
      table := [];
      Bsd44Names(fmt, chain);
    } else {
      var t := ConstructExtendedNameTable(fmt, chain);
      table := t[..];
    }
  }

  /** `_bfd_compute_and_write_armap`. */
  method WriteIndex(fmt: Format, named: seq<Member>, room: nat, misc: seq<byte>)
    returns (kept: seq<Member>, out: seq<byte>)
    requires ValidChain(named) && |misc| == 32
    ensures kept == DropSymdefs(named)
    ensures var es := Entries(kept); Ordered(es, |kept|) && out == ArmapBytes(fmt, kept, es, room, misc)
  {
    kept := DropSymdefs(named);
    var es, stridx := ComputeMap(kept);
    EntriesOrdered(kept);
    if fmt.mapKind.BsdMap? {
      out := BsdWriteArmap(fmt, kept, es, stridx, room, misc);
    } else {
      out := CoffWriteArmap(fmt, kept, es, stridx, room, misc);
    }
  }

  /** `_bfd_write_archive_contents`, from the first header to the last padding byte. */
  method WriteArchive(fmt: Format, makemap: bool, chain: array<Member>, misc: seq<byte>)
    returns (ok: bool, out: seq<byte>)
    requires ValidChain(chain[..]) && |misc| == 32
    modifies chain
    ensures var r := ArchiveBytes(fmt, makemap, old(chain[..]), misc);
      ok == r.Some? && (ok ==> out == r.value)
  {
    hide NamedChain, NameTable, ArmapBytes, MembersBytes, TableBytes, TableRoom, DropSymdefs, Entries, Writable,
      PreparedChain;
    ghost var ms := chain[..];
    out := [];
    var hasobjects;
    ok, hasobjects := PrepareHeaders(fmt, makemap, chain);
    if !ok {
      return;
    }
    var table := NameMembers(fmt, chain);
    var kept, armap := chain[..], [];
    if makemap && hasobjects {
      kept, armap := WriteIndex(fmt, kept, TableRoom(|table|), misc);
    }
    var t := TableBytes(fmt, table);
    var members;
    ok, members := WriteMembers(fmt, kept);
    if !ok || t.None? {
      return false, out;
    }
    out := Magic(fmt) + armap + t.value + members;
  }
}
