// Reading an archive: member headers, the walk from member to member, the name table, and the three
// forms of the symbol index.
module ArRead {
  import opened Bytes
  import opened ArFormat
  import opened ArNames
  import opened ArArmap

  // ---- headers ---------------------------------------------------------

  /** What `_bfd_generic_read_ar_hdr_mag` returns; `start` is where the contents begin. */
  datatype Elt = Elt(hdr: ArHdr, name: seq<byte>, size: nat, extra: nat, start: nat)
  datatype ReadResult = Read(elt: Elt) | NoMore | BadHeader

  /** The name in the field itself: up to a NUL, else up to '/', else up to ' ', else all of it. */
  function FieldName(max: NameLimit, field: seq<byte>): (r: seq<byte>)
    requires |field| == 16
    ensures |r| <= max
  {
    match MemChr(field, 0, max)
    case Some(e) => field[..e]
    case None =>
      match MemChr(field, SLASH, max)
      case Some(e) => field[..e]
      case None =>
        match MemChr(field, SPACE, max)
        case Some(e) => field[..e]
        case None => field[..max]
  }

  predicate InNameTable(max: NameLimit, field: seq<byte>)
    requires |field| == 16
  {
    field[0] == SLASH || (field[0] == SPACE && MemChr(field, SLASH, max) == None)
  }

  /** `_bfd_generic_read_ar_hdr_mag` at file position `pos`; `names` is the slurped name table. */
  function ReadArHdr(max: NameLimit, file: seq<byte>, pos: nat, names: Option<seq<byte>>): (r: ReadResult)
    ensures r.Read? ==> pos + HDR_SIZE <= r.elt.start <= |file| && r.elt.size < TWO64
  {
    if pos + HDR_SIZE > |file| then NoMore
    else
      var raw := file[pos..pos + HDR_SIZE];
      var hdr := ParseHdr(raw);
      if hdr.fmag != ARFMAG then BadHeader
      else
        match ScanU64(hdr.size)
        case None => BadHeader
        case Some(size) =>
          if InNameTable(max, hdr.name) && names.Some? then
            match Resolve(names.value, raw)
            case None => BadHeader
            case Some(name) => Read(Elt(hdr, name, size, 0, pos + HDR_SIZE))
          else if IsBsd44Name(hdr.name) then
            match StrTol(raw[3..])
            case None => BadHeader
            case Some(len) =>
              if len > size || len > |file| then BadHeader
              else if pos + HDR_SIZE + len > |file| then NoMore
              else Read(Elt(hdr, CStr(file[pos + HDR_SIZE..pos + HDR_SIZE + len], 0), size - len, len,
                pos + HDR_SIZE + len))
          else Read(Elt(hdr, FieldName(max, hdr.name), size, 0, pos + HDR_SIZE))
  }

  /** Where `bfd_generic_openr_next_archived_file` looks for the next header, in 64-bit arithmetic;
      None when the sum wraps around, which would make the walk loop. */
  function NextPos(e: Elt): (r: Option<nat>)
    ensures r.Some? ==> e.start <= r.value
  {
    var p := (e.start + e.size) % TWO64;
    var q := (p + p % 2) % TWO64;
    if q < e.start then None else Some(q)
  }

  /** The contents of an element: the container's bytes, clipped at the end of the file. */
  function Contents(file: seq<byte>, e: Elt): seq<byte>
    requires e.start <= |file|
  {
    file[e.start..if e.start + e.size <= |file| then e.start + e.size else |file|]
  }

  /** Opening elements from `pos` on until there are no more.  Every step moves forward, whatever the
      bytes of the file are; that is why the walk ends. */
  function Walk(max: NameLimit, file: seq<byte>, pos: nat, names: Option<seq<byte>>): seq<(seq<byte>, seq<byte>)>
    decreases if pos <= |file| then |file| - pos else 0
  {
    match ReadArHdr(max, file, pos, names)
    case Read(e) =>
      [(e.name, Contents(file, e))] +
      (match NextPos(e) case None => [] case Some(q) => Walk(max, file, q, names))
    case _ => []
  }

  // ---- the name table --------------------------------------------------

  /** Up to 16 bytes at `pos`. */
  function Peek(file: seq<byte>, pos: nat): (r: seq<byte>)
    ensures |r| <= 16
  {
    if pos + 16 <= |file| then file[pos..pos + 16]
    else if pos <= |file| then file[pos..]
    else []
  }

  datatype Names = Names(table: Option<seq<byte>>, first: nat)

  /** `_bfd_slurp_extended_name_table`; its loop is `ArNames.FixNames`. */
  function SlurpNames(max: NameLimit, file: seq<byte>, first: nat): Option<Names> {
    var nextname := Peek(file, first);
    if |nextname| != 16 || (nextname != Pad(ARFILENAMES + [SLASH], 16) && nextname != Pad([SLASH, SLASH], 16)) then
      Some(Names(None, first))
    else
      match ReadArHdr(max, file, first, None)
      case Read(e) =>
        if e.start + e.size > |file| then None
        else Some(Names(Some(Slurped(file[e.start..e.start + e.size])), Even(e.start + e.size)))
      case _ => None
  }

  // ---- the symbol index ------------------------------------------------

  datatype Carsym = Carsym(name: seq<byte>, offset: nat)
  datatype MapResult = MapError | NoMap | Map(symdefs: seq<Carsym>, first: nat)

  /** One ranlib entry of the BSD form; `raw` is the index member's contents, `amt` the size of its
      ranlib array. */
  function BsdSym(raw: seq<byte>, amt: nat, i: nat, big: bool): Option<Carsym>
    requires 8 + amt <= |raw| && 8 * i + 8 <= amt
  {
    var nameoff := Get32(raw[4 + 8 * i..8 + 8 * i], big);
    if nameoff >= |raw| - 8 - amt then None
    else Some(Carsym(CStr(raw, 8 + amt + nameoff), Get32(raw[8 + 8 * i..12 + 8 * i], big)))
  }

  function BsdSyms(raw: seq<byte>, amt: nat, n: nat, big: bool): (r: Option<seq<Carsym>>)
    requires 8 + amt <= |raw| && 8 * n <= amt
    ensures r.Some? ==> |r.value| == n
  {
    if n == 0 then Some([])
    else
      match BsdSyms(raw, amt, n - 1, big)
      case None => None
      case Some(l) =>
        match BsdSym(raw, amt, n - 1, big)
        case None => None
        case Some(s) => Some(l + [s])
  }

  /** The whole contents of a BSD index. */
  function BsdBody(raw: seq<byte>, big: bool): Option<seq<Carsym>>
    requires |raw| >= 8
  {
    var amt := Get32(raw[..4], big);
    if amt > |raw| - 8 || amt % 8 != 0 then None else BsdSyms(raw, amt, amt / 8, big)
  }

  /** `do_slurp_bsd_armap`. */
  function SlurpBsd(max: NameLimit, file: seq<byte>, pos: nat, big: bool): MapResult {
    match ReadArHdr(max, file, pos, None)
    case Read(e) =>
      if e.size < 8 || e.start + e.size > |file| then MapError
      else
        var syms := BsdBody(file[e.start..e.start + e.size], big);
        if syms.None? then MapError else Map(syms.value, Even(e.start + e.size))
    case _ => MapError
  }

  /** The loop of `do_slurp_bsd_armap`. */
  method ReadBsdSyms(raw: seq<byte>, amt: nat, big: bool) returns (r: Option<seq<Carsym>>)
    requires 8 + amt <= |raw| && amt % 8 == 0
    ensures r == BsdSyms(raw, amt, amt / 8, big)
  {
    var syms: seq<Carsym> := [];
    var rbase := 4;
    for counter := 0 to amt / 8
      invariant rbase == 4 + 8 * counter
      invariant BsdSyms(raw, amt, counter, big) == Some(syms)
    {
      var s := BsdSym(raw, amt, counter, big);
      if s.None? {
        BsdSymsFail(raw, amt, counter, amt / 8, big);
        return None;
      }
      syms := syms + [s.value];
      rbase := rbase + 8;
    }
    return Some(syms);
  }

  lemma {:induction false} BsdSymsFail(raw: seq<byte>, amt: nat, i: nat, n: nat, big: bool)
    requires 8 + amt <= |raw| && 8 * n <= amt && i < n
    requires BsdSym(raw, amt, i, big).None?
    ensures BsdSyms(raw, amt, n, big).None?
  {
    if i < n - 1 {
      BsdSymsFail(raw, amt, i, n - 1, big);
    }
  }

  /** Where the sequential scan stands after the string at `p`. */
  function NextString(strings: seq<byte>, p: nat): (q: nat)
    requires p <= |strings|
    ensures p <= q <= |strings|
  {
    var q := p + |CStr(strings, p)|;
    if q < |strings| then q + 1 else q
  }

  function ScanPos(strings: seq<byte>, n: nat): (p: nat)
    ensures p <= |strings|
  {
    if n == 0 then 0 else NextString(strings, ScanPos(strings, n - 1))
  }

  /** The i-th offset of the COFF form (four bytes) or of the 64-bit form (eight). */
  function OffsetAt(offsets: seq<byte>, i: nat, wide: bool): nat
    requires |offsets| >= if wide then 8 * i + 8 else 4 * i + 4
  {
    GetBe(if wide then offsets[8 * i..8 * i + 8] else offsets[4 * i..4 * i + 4])
  }

  /** The first `n` entries: the i-th offset goes with the i-th string. */
  function ScanSyms(offsets: seq<byte>, strings: seq<byte>, n: nat, wide: bool): (r: seq<Carsym>)
    requires |offsets| >= if wide then 8 * n else 4 * n
    ensures |r| == n
  {
    if n == 0 then []
    else
      ScanSyms(offsets, strings, n - 1, wide)
      + [Carsym(CStr(strings, ScanPos(strings, n - 1)), OffsetAt(offsets, n - 1, wide))]
  }

  lemma NothingScanned(offsets: seq<byte>, strings: seq<byte>, wide: bool)
    ensures ScanPos(strings, 0) == 0 && ScanSyms(offsets, strings, 0, wide) == []
  {
  }

  lemma ScanNext(offsets: seq<byte>, strings: seq<byte>, i: nat, wide: bool)
    requires |offsets| >= if wide then 8 * (i + 1) else 4 * (i + 1)
    ensures ScanPos(strings, i + 1) == NextString(strings, ScanPos(strings, i))
    ensures ScanSyms(offsets, strings, i + 1, wide) == ScanSyms(offsets, strings, i, wide)
      + [Carsym(CStr(strings, ScanPos(strings, i)), OffsetAt(offsets, i, wide))]
  {
    hide NextString, CStr, OffsetAt;
  }

  /** The loop shared by `do_slurp_coff_armap` and `_bfd_archive_64_bit_slurp_armap`. */
  method ReadScanSyms(offsets: seq<byte>, strings: seq<byte>, nsymz: nat, wide: bool) returns (carsyms: seq<Carsym>)
    requires |offsets| == if wide then 8 * nsymz else 4 * nsymz
    ensures carsyms == ScanSyms(offsets, strings, nsymz, wide)
  {
    hide CStr, OffsetAt, ScanPos, ScanSyms;
    carsyms := [];
    var stringbase: nat := 0;
    NothingScanned(offsets, strings, wide);
    for i := 0 to nsymz
      invariant stringbase == ScanPos(strings, i)
      invariant carsyms == ScanSyms(offsets, strings, i, wide)
    {
      ScanNext(offsets, strings, i, wide);
      carsyms := carsyms + [Carsym(CStr(strings, stringbase), OffsetAt(offsets, i, wide))];
      stringbase := stringbase + |CStr(strings, stringbase)|;
      if stringbase != |strings| {
        stringbase := stringbase + 1;
      }
    }
  }

  /** `do_slurp_coff_armap`, including the second header PE archives have. */
  function SlurpCoff(max: NameLimit, file: seq<byte>, pos: nat): MapResult {
    match ReadArHdr(max, file, pos, None)
    case Read(e) =>
      if e.start + 4 > |file| then MapError
      else
        var n := GetBe(file[e.start..e.start + 4]);
        if e.size > |file| || e.size < 4 || e.size - 4 < 4 * n || e.start + e.size > |file| then MapError
        else
          var raw := file[e.start..e.start + e.size];
          var first := Even(e.start + e.size);
          Map(ScanSyms(raw[4..4 + 4 * n], raw[4 + 4 * n..], n, false), first + SecondHeader(max, file, first))
    case _ => MapError
  }

  function SecondHeader(max: NameLimit, file: seq<byte>, first: nat): nat {
    match ReadArHdr(max, file, first, None)
    case Read(e) =>
      if e.hdr.name[0] == SLASH && e.hdr.name[1] == SPACE then
        (e.size + HDR_SIZE + 1 - (e.size + HDR_SIZE + 1) % 2) % TWO32
      else 0
    case _ => 0
  }

  /** `_bfd_archive_64_bit_slurp_armap` on an index named "/SYM64/". */
  function SlurpSym64(max: NameLimit, file: seq<byte>, pos: nat): MapResult {
    match ReadArHdr(max, file, pos, None)
    case Read(e) =>
      if e.size > |file| || e.start + 8 > |file| then MapError
      else
        var n := GetBe(file[e.start..e.start + 8]);
        if 8 * n + 8 > e.size || e.start + e.size > |file| then MapError
        else
          var raw := file[e.start..e.start + e.size];
          Map(ScanSyms(raw[8..8 + 8 * n], raw[8 + 8 * n..], n, true), Even(e.start + e.size))
    case _ => MapError
  }

  /** `bfd_slurp_armap`: the first member's name decides. */
  function SlurpArmap(max: NameLimit, file: seq<byte>, pos: nat, big: bool): MapResult {
    var nextname := Peek(file, pos);
    if |nextname| == 0 then NoMap
    else if |nextname| != 16 then MapError
    else if nextname == Pad(SYMDEF, 16) || nextname == Pad(SYMDEF + [SLASH], 16) then SlurpBsd(max, file, pos, big)
    else if nextname == Pad([SLASH], 16) then SlurpCoff(max, file, pos)
    else if nextname == Pad(SYM64, 16) then SlurpSym64(max, file, pos)
    else if nextname == Pad([HASH, 49, SLASH, 50, 48], 16) then
      if pos + HDR_SIZE + 20 > |file| then MapError
      else if file[pos + HDR_SIZE..pos + HDR_SIZE + 9] == SYMDEF then SlurpBsd(max, file, pos, big)
      else NoMap
    else NoMap
  }

  // ---- the archive -----------------------------------------------------

  datatype Archive = Archive(names: Option<seq<byte>>, first: nat, hasMap: bool, symdefs: seq<Carsym>)

  /** `bfd_generic_archive_p` for a target that reads "!<arch>" archives. */
  function OpenArchive(max: NameLimit, file: seq<byte>, big: bool): Option<Archive> {
    if |file| < SARMAG || file[..SARMAG] != ARMAG then None
    else
      var m := SlurpArmap(max, file, SARMAG, big);
      if m.MapError? then None
      else
        match SlurpNames(max, file, if m.Map? then m.first else SARMAG)
        case None => None
        case Some(n) => Some(Archive(n.table, n.first, m.Map?, if m.Map? then m.symdefs else []))
  }

  /** The (name, contents) pairs a reader finds, in order. */
  function ReadMembers(max: NameLimit, file: seq<byte>, big: bool): Option<seq<(seq<byte>, seq<byte>)>> {
    match OpenArchive(max, file, big)
    case None => None
    case Some(a) => Some(Walk(max, file, a.first, a.names))
  }

  // ---- reading a known header ------------------------------------------

  lemma ReadPlainHdr(max: NameLimit, file: seq<byte>, pos: nat, h: ArHdr, names: Option<seq<byte>>, size: nat)
    requires h.Valid() && At(file, pos, HdrBytes(h))
    requires h.fmag == ARFMAG && ScanU64(h.size) == Some(size) && size < TWO64
    requires !IsBsd44Name(h.name) && (names.None? || !InNameTable(max, h.name))
    ensures ReadArHdr(max, file, pos, names) == Read(Elt(h, FieldName(max, h.name), size, 0, pos + HDR_SIZE))
  {
    hide ScanU64, FieldName, InNameTable, IsBsd44Name;
    ParseHdrBytes(h);
    assert file[pos..pos + HDR_SIZE] == HdrBytes(h);
  }

  lemma ReadTableHdr(max: NameLimit, file: seq<byte>, pos: nat, h: ArHdr, names: seq<byte>, size: nat, name: seq<byte>)
    requires h.Valid() && At(file, pos, HdrBytes(h))
    requires h.fmag == ARFMAG && ScanU64(h.size) == Some(size) && size < TWO64
    requires InNameTable(max, h.name) && Resolve(names, HdrBytes(h)) == Some(name)
    ensures ReadArHdr(max, file, pos, Some(names)) == Read(Elt(h, name, size, 0, pos + HDR_SIZE))
  {
    hide ScanU64, FieldName, InNameTable, IsBsd44Name, Resolve;
    ParseHdrBytes(h);
    assert file[pos..pos + HDR_SIZE] == HdrBytes(h);
  }

  lemma NextPosIs(e: Elt)
    requires e.start % 2 == 0 && e.start + Even(e.size) < TWO64
    ensures NextPos(e) == Some(e.start + Even(e.size)) && Even(e.start + e.size) == e.start + Even(e.size)
  {
  }

  lemma PeekName(file: seq<byte>, pos: nat, h: ArHdr)
    requires h.Valid() && At(file, pos, HdrBytes(h))
    ensures Peek(file, pos) == h.name
  {
    AtSlice(file, pos, HdrBytes(h), 0, 16);
    assert HdrBytes(h)[..16] == h.name;
  }
}
