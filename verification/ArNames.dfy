// Member names: the header's name field and the long-name ("extended") table.
module ArNames {
  import opened Bytes
  import opened ArFormat

  // ---- fresh headers ---------------------------------------------------

  /** `bfd_dont_truncate_arname` and `bfd_bsd_truncate_arname` on a field of spaces. */
  function FreshName(fmt: Format, n: seq<byte>): (r: seq<byte>)
    ensures |r| == 16
  {
    if fmt.style.Svr4? then
      if |n| <= MAXNAME then n + [fmt.padChar] + Spaces(MAXNAME - |n|) else Spaces(16)
    else
      if |n| < Limit(fmt) then n + [fmt.padChar] + Spaces(15 - |n|) else n[..Limit(fmt)] + Spaces(16 - Limit(fmt))
  }

  /** `bfd_ar_hdr_from_filesystem` followed by the target's `_bfd_truncate_arname`, for an element
      that has no header yet. */
  function Prepared(fmt: Format, m: Member): (r: Option<Member>)
    requires m.Valid()
    ensures r.Some? ==> r.value.Valid() && r.value.haveHdr
    ensures r.Some? ==> r.value.contents == m.contents && r.value.filename == m.filename
  {
    if m.haveHdr then Some(m)
    else
      match SizePad(|m.contents|)
      case None => None
      case Some(size) =>
        Some(m.(haveHdr := true, extra := 0, hdr := ArHdr(FreshName(fmt, Name(m)), m.fsMisc, size, ARFMAG)))
  }

  // ---- building the table ----------------------------------------------

  /** Bytes stored so far, and the last path stored with its offset (thin archives only). */
  datatype Table = Table(bytes: seq<byte>, last: Option<seq<byte>>, lastOff: nat)

  function Entry(fmt: Format, path: seq<byte>): (r: seq<byte>) {
    path + (if fmt.style.Svr4? then [SLASH] else []) + [NL]
  }

  /** The name field of a member whose name is in the table at offset `off`. */
  function TableName(fmt: Format, was: seq<byte>, off: nat): (r: seq<byte>)
    requires |was| == 16
    ensures |r| == 16
  {
    [fmt.padChar] + SpacePad(Dec(off), 14) + was[15..]
  }

  /** The name field of a member whose name fits: whatever followed it in the field stays. */
  function ShortName(fmt: Format, was: seq<byte>, n: seq<byte>): (r: seq<byte>)
    requires |was| == 16 && |n| <= MAXNAME
    ensures |r| == 16
  {
    n + [fmt.padChar] + was[|n| + 1..]
  }

  function WithName(m: Member, name: seq<byte>): Member {
    m.(hdr := m.hdr.(name := name))
  }

  /** The table after one more member has been named. */
  function Grow(fmt: Format, t: Table, m: Member): Table {
    if fmt.thin then
      if t.last == Some(m.refName) then t
      else Table(t.bytes + Entry(fmt, m.refPath), Some(m.refName), |t.bytes|)
    else if |Name(m)| > MAXNAME then t.(bytes := t.bytes + Entry(fmt, Name(m)))
    else t
  }

  /** The name field that member gets. */
  function NameField(fmt: Format, t: Table, m: Member): (r: seq<byte>)
    requires m.hdr.Valid()
    ensures |r| == 16
  {
    if fmt.thin then TableName(fmt, m.hdr.name, if t.last == Some(m.refName) then t.lastOff else |t.bytes|)
    else if |Name(m)| > MAXNAME then TableName(fmt, m.hdr.name, |t.bytes|)
    else ShortName(fmt, m.hdr.name, Name(m))
  }

  function TableOf(fmt: Format, ms: seq<Member>): Table {
    if ms == [] then Table([], None, 0)
    else Grow(fmt, TableOf(fmt, ms[..|ms| - 1]), ms[|ms| - 1])
  }

  function NamedAt(fmt: Format, ms: seq<Member>, i: nat): (r: Member)
    requires ValidChain(ms) && i < |ms|
    ensures r.Valid() && r.contents == ms[i].contents && r.filename == ms[i].filename && r.extra == ms[i].extra
    ensures r.hdr == ms[i].hdr.(name := r.hdr.name)
  {
    WithName(ms[i], NameField(fmt, TableOf(fmt, ms[..i]), ms[i]))
  }

  /** The chain after `_bfd_construct_extended_name_table`. */
  function Named(fmt: Format, ms: seq<Member>): (r: seq<Member>)
    requires ValidChain(ms)
    ensures |r| == |ms| && ValidChain(r)
    ensures forall i :: 0 <= i < |ms| ==> r[i] == NamedAt(fmt, ms, i)
  {
    seq(|ms|, i requires 0 <= i < |ms| => NamedAt(fmt, ms, i))
  }

  lemma TableOfNext(fmt: Format, ms: seq<Member>, i: nat)
    requires i < |ms|
    ensures TableOf(fmt, ms[..i + 1]) == Grow(fmt, TableOf(fmt, ms[..i]), ms[i])
    ensures |TableOf(fmt, ms[..i]).bytes| <= |TableOf(fmt, ms[..i + 1]).bytes|
    ensures !InTable(fmt, ms[i]) ==> TableOf(fmt, ms[..i + 1]) == TableOf(fmt, ms[..i])
  {
    assert ms[..i + 1][..i] == ms[..i];
  }

  lemma {:induction false} TableGrows(fmt: Format, ms: seq<Member>, i: nat)
    requires i <= |ms|
    ensures TableOf(fmt, ms[..i]).bytes <= TableOf(fmt, ms).bytes
    decreases |ms| - i
  {
    if i == |ms| {
      assert ms[..i] == ms;
    } else {
      TableOfNext(fmt, ms, i);
      TableGrows(fmt, ms, i + 1);
    }
  }

  predicate InTable(fmt: Format, m: Member) {
    fmt.thin || |Name(m)| > MAXNAME
  }

  /** One turn of the first pass: the room the name takes; a short name is put back into its header. */
  method MeasureName(fmt: Format, m: Member, last: Option<seq<byte>>, ghost t: Table)
    returns (room: nat, last': Option<seq<byte>>, m': Member)
    requires m.hdr.Valid() && (fmt.thin ==> last == t.last)
    ensures |Grow(fmt, t, m).bytes| == |t.bytes| + room
    ensures fmt.thin ==> last' == Grow(fmt, t, m).last
    ensures m' == if InTable(fmt, m) then m else WithName(m, NameField(fmt, t, m))
  {
    room, last', m' := 0, last, m;
    if fmt.thin {
      if last != Some(m.refName) {
        last' := Some(m.refName);
        room := |m.refPath| + 1;
        if fmt.style.Svr4? {
          room := room + 1;
        }
      }
    } else {
      var normal := Name(m);
      if |normal| > MAXNAME {
        room := |normal| + 1;
        if fmt.style.Svr4? {
          room := room + 1;
        }
      } else if m.hdr.name[..|normal|] != normal || m.hdr.name[|normal|] != fmt.padChar {
        m' := WithName(m, ShortName(fmt, m.hdr.name, normal));
      } else {
        assert m.hdr.name == ShortName(fmt, m.hdr.name, normal);
      }
    }
  }

  /** First pass of `_bfd_construct_extended_name_table`: the size of the table; short names are put
      back into their headers on the way. */
  method MeasureNames(fmt: Format, chain: array<Member>) returns (total: nat)
    requires ValidChain(chain[..])
    modifies chain
    ensures total == |TableOf(fmt, old(chain[..])).bytes|
    ensures forall j :: 0 <= j < chain.Length ==>
      chain[j] == if InTable(fmt, old(chain[j])) then old(chain[j]) else NamedAt(fmt, old(chain[..]), j)
  {
    ghost var ms := chain[..];
    total := 0;
    var last: Option<seq<byte>> := None;
    for i := 0 to chain.Length
      invariant total == |TableOf(fmt, ms[..i]).bytes|
      invariant fmt.thin ==> last == TableOf(fmt, ms[..i]).last
      invariant forall j :: 0 <= j < chain.Length ==>
        chain[j] == if i <= j || InTable(fmt, ms[j]) then ms[j] else NamedAt(fmt, ms, j)
    {
      TableOfNext(fmt, ms, i);
      var room, m;
      room, last, m := MeasureName(fmt, chain[i], last, TableOf(fmt, ms[..i]));
      total, chain[i] := total + room, m;
    }
    assert ms[..chain.Length] == ms;
  }

  method StoreEntry(fmt: Format, table: array<byte>, strptr: nat, path: seq<byte>) returns (next: nat)
    requires strptr + |Entry(fmt, path)| <= table.Length
    modifies table
    ensures next == strptr + |Entry(fmt, path)|
    ensures table[..next] == old(table[..strptr]) + Entry(fmt, path)
  {
    forall k | 0 <= k < |path| {
      table[strptr + k] := path[k];
    }
    next := strptr + |path|;
    if fmt.style.Svr4? {
      table[next] := SLASH;
      next := next + 1;
    }
    table[next] := NL;
    next := next + 1;
  }

  /** One turn of the second pass: store the name unless a thin archive just stored the same one. */
  method StoreName(fmt: Format, table: array<byte>, strptr: nat, last: Option<seq<byte>>, lastOff: nat,
                   m: Member, ghost t: Table)
    returns (strptr': nat, last': Option<seq<byte>>, lastOff': nat, off: nat)
    requires InTable(fmt, m) && m.hdr.Valid()
    requires strptr == |t.bytes| && |Grow(fmt, t, m).bytes| <= table.Length && table[..strptr] == t.bytes
    requires fmt.thin ==> last == t.last && (last.Some? ==> lastOff == t.lastOff)
    modifies table
    ensures var u := Grow(fmt, t, m);
      && strptr' == |u.bytes| && table[..strptr'] == u.bytes
      && (fmt.thin ==> last' == u.last && (last'.Some? ==> lastOff' == u.lastOff))
    ensures NameField(fmt, t, m) == TableName(fmt, m.hdr.name, off)
  {
    strptr', last', lastOff' := strptr, last, lastOff;
    if fmt.thin && last == Some(m.refName) {
      off := lastOff;
    } else {
      off := strptr;
      last' := Some(m.refName);
      lastOff' := off;
      strptr' := StoreEntry(fmt, table, strptr, if fmt.thin then m.refPath else Name(m));
    }
  }

  /** Second pass: store the names in a table of the size the first pass computed and point the
      headers at them.  Every store is in bounds and the table ends full. */
  method StoreNames(fmt: Format, chain: array<Member>, table: array<byte>, ghost ms: seq<Member>)
    requires ValidChain(ms) && |ms| == chain.Length
    requires table.Length == |TableOf(fmt, ms).bytes|
    requires forall j :: 0 <= j < chain.Length ==>
      chain[j] == if InTable(fmt, ms[j]) then ms[j] else NamedAt(fmt, ms, j)
    modifies chain, table
    ensures table[..] == TableOf(fmt, ms).bytes
    ensures chain[..] == Named(fmt, ms)
  {
    hide Grow, NameField, TableName, Entry;
    var strptr: nat := 0;
    var last: Option<seq<byte>> := None;
    var lastOff: nat := 0;
    for i := 0 to chain.Length
      invariant strptr == |TableOf(fmt, ms[..i]).bytes| <= table.Length
      invariant fmt.thin ==> last == TableOf(fmt, ms[..i]).last
      invariant fmt.thin && last.Some? ==> lastOff == TableOf(fmt, ms[..i]).lastOff
      invariant table[..strptr] == TableOf(fmt, ms[..i]).bytes
      invariant forall j :: 0 <= j < chain.Length ==>
        chain[j] == if i <= j && InTable(fmt, ms[j]) then ms[j] else NamedAt(fmt, ms, j)
    {
      TableOfNext(fmt, ms, i);
      TableGrows(fmt, ms, i + 1);
      ghost var m := ms[i];
      assert InTable(fmt, m) ==> chain[i] == m;
      var normal := Name(chain[i]);
      if fmt.thin || |normal| > MAXNAME {
        var off;
        strptr, last, lastOff, off :=
          StoreName(fmt, table, strptr, last, lastOff, chain[i], TableOf(fmt, ms[..i]));
        chain[i] := WithName(chain[i], TableName(fmt, chain[i].hdr.name, off));
      }
    }
    assert ms[..chain.Length] == ms;
  }

  /** `_bfd_construct_extended_name_table`, SVR4 and BSD styles. */
  method ConstructExtendedNameTable(fmt: Format, chain: array<Member>) returns (table: array<byte>)
    requires ValidChain(chain[..]) && !fmt.style.Bsd44?
    modifies chain
    ensures fresh(table)
    ensures table[..] == TableOf(fmt, old(chain[..])).bytes
    ensures chain[..] == Named(fmt, old(chain[..]))
  {
    ghost var ms := chain[..];
    var total := MeasureNames(fmt, chain);
    table := new byte[total](_ => 0);
    if total == 0 {
      NoLongNames(fmt, ms);
      assert forall j :: 0 <= j < |ms| ==> chain[j] == NamedAt(fmt, ms, j);
      return;
    }
    StoreNames(fmt, chain, table, ms);
  }

  lemma {:induction false} NoLongNames(fmt: Format, ms: seq<Member>)
    requires TableOf(fmt, ms).bytes == []
    ensures forall i :: 0 <= i < |ms| ==> !InTable(fmt, ms[i])
  {
    if ms != [] {
      var n := |ms| - 1;
      NoLongNames(fmt, ms[..n]);
      assert forall i :: 0 <= i < n ==> ms[i] == ms[..n][i];
      assert n != 0 ==> !InTable(fmt, ms[..n][0]);
    }
  }

  // ---- reading the table back ------------------------------------------

  function Slashed(b: byte): byte { if b == BACKSLASH then SLASH else b }

  /** One byte of the table after `_bfd_slurp_extended_name_table` has made C strings of its lines:
      '\\' reads as '/', and a line's end, with the '/' before it if there is one, becomes NUL. */
  function SlurpedAt(t: seq<byte>, i: nat): byte
    requires i < |t|
  {
    if t[i] == NL then (if i > 0 && Slashed(t[i - 1]) == SLASH then NL else 0)
    else if Slashed(t[i]) == SLASH && i + 1 < |t| && t[i + 1] == NL then 0
    else Slashed(t[i])
  }

  function Slurped(t: seq<byte>): (r: seq<byte>)
    ensures |r| == |t| && forall i :: 0 <= i < |t| ==> r[i] == SlurpedAt(t, i)
  {
    seq(|t|, i requires 0 <= i < |t| => SlurpedAt(t, i))
  }

  /** The loop of `_bfd_slurp_extended_name_table`, in place. */
  method FixNames(names: array<byte>)
    modifies names
    ensures names[..] == Slurped(old(names[..]))
  {
    ghost var t := names[..];
    for temp := 0 to names.Length
      invariant forall k :: temp <= k < names.Length ==> names[k] == t[k]
      invariant forall k :: 0 <= k < temp - 1 ==> names[k] == SlurpedAt(t, k)
      invariant temp > 0 ==>
        names[temp - 1] == (if t[temp - 1] == NL then SlurpedAt(t, temp - 1) else Slashed(t[temp - 1]))
    {
      if names[temp] == NL {
        names[if temp > 0 && names[temp - 1] == SLASH then temp - 1 else temp] := 0;
      }
      if names[temp] == BACKSLASH {
        names[temp] := SLASH;
      }
    }
  }

  /** `get_extended_arelt_filename` (non-thin): the string at the decimal index that follows the
      first character of the header. */
  function Resolve(names: seq<byte>, hdr: seq<byte>): Option<seq<byte>>
    requires |hdr| == HDR_SIZE
  {
    match StrTol(hdr[1..])
    case None => None
    case Some(index) => if index >= |names| then None else Some(CStr(names, index))
  }

  predicate Plain(path: seq<byte>) {
    NulFree(path) && NL !in path && BACKSLASH !in path
  }

  predicate HasEntry(fmt: Format, table: seq<byte>, off: nat, path: seq<byte>) {
    off + |Entry(fmt, path)| <= |table| && table[off..off + |Entry(fmt, path)|] == Entry(fmt, path)
  }

  lemma EntryBytes(fmt: Format, table: seq<byte>, off: nat, path: seq<byte>)
    requires HasEntry(fmt, table, off, path)
    ensures forall i :: 0 <= i < |path| ==> table[off + i] == path[i]
    ensures fmt.style.Svr4? ==> table[off + |path|] == SLASH && table[off + |path| + 1] == NL
    ensures !fmt.style.Svr4? ==> table[off + |path|] == NL
  {
    var e := Entry(fmt, path);
    assert forall i :: 0 <= i < |e| ==> table[off + i] == table[off..off + |e|][i] == e[i];
  }

  /** A stored name with no newline and no backslash is read back from the table.  In the BSD style
      it must not end in '/', which would be taken for the SVR4 terminator. */
  lemma EntryReads(fmt: Format, table: seq<byte>, off: nat, path: seq<byte>)
    requires StoredEntry(fmt, table, off, path) && Plain(path)
    requires fmt.style.Svr4? || path == [] || path[|path| - 1] != SLASH
    ensures CStr(Slurped(table), off) == path
  {
    EntryBytes(fmt, table, off, path);
    var names := Slurped(table);
    assert forall i :: 0 <= i < |path| ==> names[off + i] == path[i];
    assert names[off..off + |path|] == path;
    CStrReads(names, off, path);
  }

  /** Conversely, a '/'-free name that is read back has no newline and no backslash. */
  lemma EntryReadsOnlyPlain(fmt: Format, table: seq<byte>, off: nat, path: seq<byte>)
    requires StoredEntry(fmt, table, off, path) && NulFree(path) && SLASH !in path
    requires CStr(Slurped(table), off) == path
    ensures Plain(path)
  {
    EntryBytes(fmt, table, off, path);
    var names := Slurped(table);
    forall i | 0 <= i < |path|
      ensures path[i] != BACKSLASH
    {
      assert names[off + i] == names[off..off + |path|][i] == path[i];
      assert names[off + i] != BACKSLASH;
    }
    forall i | 0 <= i < |path|
      ensures path[i] != NL
    {
      assert names[off + i] == names[off..off + |path|][i] == path[i];
      assert i > 0 ==> table[off + i - 1] == path[i - 1] && path[i - 1] != SLASH;
    }
  }

  /** The table offset of a member whose name is stored there. */
  function OffsetOf(fmt: Format, ms: seq<Member>, k: nat): nat
    requires k < |ms|
  {
    var t := TableOf(fmt, ms[..k]);
    if fmt.thin && t.last == Some(ms[k].refName) then t.lastOff else |t.bytes|
  }

  function TablePath(fmt: Format, m: Member): seq<byte> {
    if fmt.thin then m.refPath else Name(m)
  }

  /** Members of a thin archive that name the same file give it the same path. */
  predicate PathsAgree(ms: seq<Member>) {
    forall i, j :: 0 <= i < |ms| && 0 <= j < |ms| && ms[i].refName == ms[j].refName ==>
      ms[i].refPath == ms[j].refPath
  }

  ghost predicate StoredEntry(fmt: Format, table: seq<byte>, off: nat, path: seq<byte>) {
    HasEntry(fmt, table, off, path) && (off == 0 || table[off - 1] == NL)
  }

  lemma StoredStays(fmt: Format, t: seq<byte>, u: seq<byte>, off: nat, path: seq<byte>)
    requires StoredEntry(fmt, t, off, path) && t <= u
    ensures StoredEntry(fmt, u, off, path)
  {
    var n := |Entry(fmt, path)|;
    assert u[off..off + n] == u[..|t|][off..off + n];
    assert off > 0 ==> u[off - 1] == u[..|t|][off - 1];
  }

  lemma StoredNow(fmt: Format, ms: seq<Member>, k: nat)
    requires k < |ms| && InTable(fmt, ms[k]) && (fmt.thin ==> PathsAgree(ms))
    ensures StoredEntry(fmt, Grow(fmt, TableOf(fmt, ms[..k]), ms[k]).bytes, OffsetOf(fmt, ms, k), TablePath(fmt, ms[k]))
  {
    var u := TableOf(fmt, ms[..k]);
    if fmt.thin && u.last == Some(ms[k].refName) {
      LastStored(fmt, ms[..k]);
      var j := LastIndex(fmt, ms[..k]);
      assert ms[..k][j] == ms[j];
    } else {
      LinesEnd(fmt, ms[..k]);
    }
  }

  /** Each member's entry is in the table at the member's offset, at the start of a line; a thin
      archive's repeated path is found at the earlier member's entry. */
  lemma EntryStored(fmt: Format, ms: seq<Member>, k: nat)
    requires k < |ms| && InTable(fmt, ms[k]) && (fmt.thin ==> PathsAgree(ms))
    ensures StoredEntry(fmt, TableOf(fmt, ms).bytes, OffsetOf(fmt, ms, k), TablePath(fmt, ms[k]))
  {
    StoredNow(fmt, ms, k);
    TableOfNext(fmt, ms, k);
    TableGrows(fmt, ms, k + 1);
    StoredStays(fmt, TableOf(fmt, ms[..k + 1]).bytes, TableOf(fmt, ms).bytes, OffsetOf(fmt, ms, k),
                TablePath(fmt, ms[k]));
  }

  lemma {:induction false} LinesEnd(fmt: Format, ms: seq<Member>)
    ensures var t := TableOf(fmt, ms).bytes; t == [] || t[|t| - 1] == NL
  {
    if ms != [] {
      LinesEnd(fmt, ms[..|ms| - 1]);
    }
  }

  /** The member whose path a thin archive stored last. */
  function LastIndex(fmt: Format, ms: seq<Member>): (j: nat)
    requires fmt.thin && TableOf(fmt, ms).last.Some?
    ensures j < |ms| && TableOf(fmt, ms).last == Some(ms[j].refName)
  {
    var n := |ms| - 1;
    if TableOf(fmt, ms[..n]).last == Some(ms[n].refName) then LastIndex(fmt, ms[..n]) else n
  }

  lemma {:induction false} LastStored(fmt: Format, ms: seq<Member>)
    requires fmt.thin && TableOf(fmt, ms).last.Some?
    ensures var t := TableOf(fmt, ms);
            StoredEntry(fmt, t.bytes, t.lastOff, ms[LastIndex(fmt, ms)].refPath)
  {
    var n := |ms| - 1;
    var u := TableOf(fmt, ms[..n]);
    if u.last == Some(ms[n].refName) {
      LastStored(fmt, ms[..n]);
      assert ms[..n][LastIndex(fmt, ms[..n])] == ms[LastIndex(fmt, ms)];
    } else {
      LinesEnd(fmt, ms[..n]);
    }
  }

  /** The index in a name field is read back as long as it has at most ten digits. */
  lemma TableNameReads(fmt: Format, was: seq<byte>, off: nat, rest: seq<byte>, names: seq<byte>)
    requires |was| == 16 && |rest| == HDR_SIZE - 16
    requires off < 10_000_000_000 && off < |names|
    ensures Resolve(names, TableName(fmt, was, off) + rest) == Some(CStr(names, off))
  {
    hide CStr, Dec;
    var d := Dec(off);
    DecLength(off, 10);
    Pow10Is();
    var hdr := TableName(fmt, was, off) + rest;
    assert hdr[1..] == d + (Spaces(14 - |d|) + was[15..] + rest);
    ScanDec(off, hdr[1..]);
  }

  /** Resolving a member's name field against the table gives back its name, in ordinary archives and,
      with repeated paths stored once, in thin ones. */
  lemma NameResolves(fmt: Format, ms: seq<Member>, k: nat, rest: seq<byte>)
    requires ValidChain(ms) && k < |ms| && InTable(fmt, ms[k]) && (fmt.thin ==> PathsAgree(ms))
    requires |TableOf(fmt, ms).bytes| < 10_000_000_000 && |rest| == HDR_SIZE - 16
    requires var path := TablePath(fmt, ms[k]);
      Plain(path) && (fmt.style.Svr4? || path == [] || path[|path| - 1] != SLASH)
    ensures Resolve(Slurped(TableOf(fmt, ms).bytes), NamedAt(fmt, ms, k).hdr.name + rest) == Some(TablePath(fmt, ms[k]))
  {
    hide TableOf, Slurped, CStr, Resolve, SpacePad, Dec, Basename, Plain;
    var table, off, path := TableOf(fmt, ms).bytes, OffsetOf(fmt, ms, k), TablePath(fmt, ms[k]);
    EntryStored(fmt, ms, k);
    EntryReads(fmt, table, off, path);
    assert |Entry(fmt, path)| > 0;
    TableNameReads(fmt, ms[k].hdr.name, off, rest, Slurped(table));
  }
}
