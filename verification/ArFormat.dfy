// The on-disk records of an `ar` archive and the fields of its 60-byte headers.
module ArFormat {
  import opened Bytes

  const SARMAG := 8
  const HDR_SIZE := 60

  /** `ar_max_namelen`: how much of the 16-byte name field a target's names may fill. */
  type NameLimit = n: nat | n <= 16 witness 15

  /** The limit of every target whose archives have a name table. */
  const MAXNAME: NameLimit := 15

  const NL: byte := 10
  const SPACE: byte := 32
  const HASH: byte := 35
  const SLASH: byte := 47
  const BACKSLASH: byte := 92

  const ARMAG: seq<byte> := [33, 60, 97, 114, 99, 104, 62, 10]   // !<arch>\n
  const ARMAGT: seq<byte> := [33, 60, 116, 104, 105, 110, 62, 10] // !<thin>\n
  const ARFMAG: seq<byte> := [96, 10]                              // `\n
  const SYMDEF: seq<byte> := [95, 95, 46, 83, 89, 77, 68, 69, 70]  // __.SYMDEF
  const ARFILENAMES: seq<byte> := [65, 82, 70, 73, 76, 69, 78, 65, 77, 69, 83]
  const SYM64: seq<byte> := [47, 83, 89, 77, 54, 52, 47]           // /SYM64/

  /** `struct ar_hdr`; `misc` is the date, uid, gid and mode fields together. */
  datatype ArHdr = ArHdr(name: seq<byte>, misc: seq<byte>, size: seq<byte>, fmag: seq<byte>) {
    predicate Valid() {
      |name| == 16 && |misc| == 32 && |size| == 10 && |fmag| == 2
    }
  }

  function HdrBytes(h: ArHdr): (r: seq<byte>)
    requires h.Valid()
    ensures |r| == HDR_SIZE
  {
    h.name + h.misc + h.size + h.fmag
  }

  function ParseHdr(s: seq<byte>): (h: ArHdr)
    requires |s| == HDR_SIZE
    ensures h.Valid() && HdrBytes(h) == s
  {
    assert s == s[..16] + s[16..48] + s[48..58] + s[58..];
    ArHdr(s[..16], s[16..48], s[48..58], s[58..])
  }

  lemma ParseHdrBytes(h: ArHdr)
    requires h.Valid()
    ensures ParseHdr(HdrBytes(h)) == h
  {
    var s := HdrBytes(h);
    assert s[..16] == h.name && s[16..48] == h.misc && s[48..58] == h.size && s[58..] == h.fmag;
  }

  function Spaces(n: nat): (r: seq<byte>)
    ensures |r| == n && forall i :: 0 <= i < n ==> r[i] == SPACE
  {
    seq(n, _ => SPACE)
  }

  function Pad(s: seq<byte>, n: nat): (r: seq<byte>)
    requires |s| <= n
    ensures |r| == n && r[..|s|] == s && forall i :: |s| <= i < n ==> r[i] == SPACE
  {
    s + Spaces(n - |s|)
  }

  /** `_bfd_ar_spacepad`: the text, cut or space-padded to the field. */
  function SpacePad(text: seq<byte>, n: nat): (r: seq<byte>)
    ensures |r| == n
  {
    if |text| < n then Pad(text, n) else text[..n]
  }

  /** `_bfd_ar_sizepad` on the ten-byte size field; fails when the number does not fit. */
  function SizePad(size: nat): (r: Option<seq<byte>>)
    ensures r.Some? ==> |r.value| == 10
  {
    if |Dec(size)| > 10 then None else Some(Pad(Dec(size), 10))
  }

  predicate IsSpace(b: byte) { b == SPACE || 9 <= b <= 13 }

  function SkipSpace(s: seq<byte>): (r: seq<byte>)
    ensures |r| <= |s|
    ensures r == [] || !IsSpace(r[0])
  {
    if s == [] || !IsSpace(s[0]) then s else SkipSpace(s[1..])
  }

  /** `sscanf ("%lu")` on the size field: white space, an optional sign, digits;
      a minus sign negates modulo 2^64. */
  function ScanU64(s: seq<byte>): Option<nat> {
    var t := SkipSpace(s);
    var neg := t != [] && t[0] == 45;
    var u := if t != [] && (t[0] == 43 || t[0] == 45) then t[1..] else t;
    var n := DigitRun(u);
    if n == 0 then None
    else
      var v := DigitsValue(u[..n]) % TWO64;
      Some(if neg then (TWO64 - v) % TWO64 else v)
  }

  /** `strtol` to a non-negative `unsigned long`; None when the value is out of range or negative
      (a negative result converts to more than any table size). */
  function StrTol(s: seq<byte>): Option<nat> {
    var t := SkipSpace(s);
    var neg := t != [] && t[0] == 45;
    var u := if t != [] && (t[0] == 43 || t[0] == 45) then t[1..] else t;
    var v := DigitsValue(u[..DigitRun(u)]);
    if v >= TWO64 / 2 || (neg && v != 0) then None else Some(v)
  }

  lemma DecIsPlain(v: nat)
    ensures var d := Dec(v);
            d != [] && !IsSpace(d[0]) && d[0] != 43 && d[0] != 45
  {
    assert IsDigit(Dec(v)[0]);
  }

  /** A decimal number followed by anything but a digit is read back by both scanners. */
  lemma ScanDec(v: nat, s: seq<byte>)
    requires |Dec(v)| <= |s| && s[..|Dec(v)|] == Dec(v)
    requires |Dec(v)| == |s| || !IsDigit(s[|Dec(v)|])
    requires v < TWO64 / 2
    ensures ScanU64(s) == Some(v) && StrTol(s) == Some(v)
  {
    hide Dec, DigitRun, DigitsValue;
    var d := Dec(v);
    DecIsPlain(v);
    assert s[0] == s[..|d|][0] == d[0];
    DigitRunOf(s, d);
    DigitsOfDec(v);
  }

  function Pow10(n: nat): (r: nat)
    ensures r >= 1
  {
    if n == 0 then 1 else 10 * Pow10(n - 1)
  }

  lemma Pow10Is()
    ensures Pow10(10) == 10_000_000_000
  {
    assert Pow10(2) == 100;
    assert Pow10(4) == 10_000;
    assert Pow10(6) == 1_000_000;
    assert Pow10(8) == 100_000_000;
  }

  lemma {:induction false} DecLength(v: nat, n: nat)
    requires n >= 1
    ensures |Dec(v)| <= n <==> v < Pow10(n)
  {
    if v >= 10 && n > 1 {
      DecLength(v / 10, n - 1);
    }
  }

  /** The ten-byte size field takes exactly the sizes below 10^10. */
  lemma SizeFits(size: nat)
    ensures SizePad(size).Some? <==> size < 10_000_000_000
  {
    DecLength(size, 10);
    Pow10Is();
  }

  /** The size field written by `_bfd_ar_sizepad` is the number `sscanf` reads back. */
  lemma SizeFieldReads(size: nat)
    requires SizePad(size).Some?
    ensures ScanU64(SizePad(size).value) == Some(size)
  {
    SizeFits(size);
    ScanDec(size, SizePad(size).value);
  }

  // ---- members ---------------------------------------------------------

  /** `full`: names may fill the name field, as in Mach-O archives. */
  datatype NameStyle = Svr4 | Bsd | Bsd44(full: bool)
  datatype MapKind = BsdMap | CoffMap

  /** What the target vector says about the archives it writes. */
  datatype Format = Format(style: NameStyle, mapKind: MapKind, thin: bool, padChar: byte, big: bool)

  function Limit(fmt: Format): (max: NameLimit)
    ensures max == 15 || max == 16
  {
    if fmt.style.Bsd44? && fmt.style.full then 16 else MAXNAME
  }

  /** The archives of COFF and ELF targets: "//" name table, '/' after names, COFF symbol index. */
  const SVR4: Format := Format(Svr4, CoffMap, false, SLASH, true)

  /** Mach-O archives. */
  const MACHO: Format := Format(Bsd44(true), BsdMap, false, SPACE, false)

  datatype Symbol = Symbol(name: seq<byte>, global: bool, common: bool, undefined: bool)

  /** One element of the `archive_head` chain.  `hdr` and `extra` are meaningful once `haveHdr`
      (the element has `arelt_data`); `fsMisc` is what the file system would put in `misc`.
      `refName` and `refPath` are the file a thin archive names, before and after it is made
      relative to the archive. */
  datatype Member = Member(
    filename: seq<byte>, refName: seq<byte>, refPath: seq<byte>,
    haveHdr: bool, hdr: ArHdr, extra: nat, fsMisc: seq<byte>,
    contents: seq<byte>, isObject: bool, hasSyms: bool, syms: seq<Symbol>)
  {
    predicate Valid() {
      && hdr.Valid() && |fsMisc| == 32
      && NulFree(filename) && NulFree(refName) && NulFree(refPath)
      && forall i :: 0 <= i < |syms| ==> NulFree(syms[i].name)
    }
  }

  /** Where the last component of a path starts. */
  function BaseStart(s: seq<byte>, n: nat): (r: nat)
    requires n <= |s|
    ensures r <= n
  {
    if n == 0 then 0 else if s[n - 1] == SLASH then n else BaseStart(s, n - 1)
  }

  /** `lbasename`: what follows the last '/'. */
  function Basename(s: seq<byte>): seq<byte> {
    s[BaseStart(s, |s|)..]
  }

  lemma {:induction false} BaseStartIs(s: seq<byte>, n: nat)
    requires n <= |s|
    ensures var r := BaseStart(s, n);
      && (r == 0 || s[r - 1] == SLASH)
      && forall i :: r <= i < n ==> s[i] != SLASH
  {
    if n != 0 && s[n - 1] != SLASH {
      BaseStartIs(s, n - 1);
    }
  }

  /** `lbasename` gives the longest '/'-free suffix; it is a C string if the path is one. */
  lemma BasenameIs(s: seq<byte>)
    ensures SLASH !in Basename(s)
    ensures Basename(s) == s || (|Basename(s)| < |s| && s[|s| - |Basename(s)| - 1] == SLASH)
    ensures NulFree(s) ==> NulFree(Basename(s))
  {
    BaseStartIs(s, |s|);
  }

  function Name(m: Member): seq<byte> { Basename(m.filename) }

  predicate ValidChain(ms: seq<Member>) {
    forall i :: 0 <= i < |ms| ==> ms[i].Valid()
  }

  /** True iff the name field designates a BSD 4.4 extended name. */
  predicate IsBsd44Name(name: seq<byte>)
    requires |name| == 16
  {
    name[0] == HASH && name[1] == 49 && name[2] == SLASH && IsDigit(name[3])
  }
}
