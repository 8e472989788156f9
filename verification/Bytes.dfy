// Bytes, C strings and fixed-width integers as the C sources lay them out in memory.
module Bytes {

  type byte = x: int | 0 <= x < 256

  const TWO32: int := 0x1_0000_0000
  const TWO64: int := 0x1_0000_0000_0000_0000

  /** Unsigned 64-bit arithmetic. */
  function W64(x: int): (r: nat)
    ensures r < TWO64
  {
    x % TWO64
  }

  function Zeros(n: nat): (r: seq<byte>)
    ensures |r| == n && forall k :: 0 <= k < n ==> r[k] == 0
  {
    seq(n, _ => 0)
  }

  /** `d` with the bytes from `p` on overwritten by `s`. */
  function Splice(d: seq<byte>, p: nat, s: seq<byte>): (r: seq<byte>)
    requires p + |s| <= |d|
    ensures |r| == |d|
  {
    d[..p] + s + d[p + |s|..]
  }

  datatype Option<+T> = None | Some(value: T)

  /** `part` is what `file` holds from `pos` on. */
  ghost predicate At<T>(file: seq<T>, pos: nat, part: seq<T>) {
    pos + |part| <= |file| && file[pos..pos + |part|] == part
  }

  lemma AtSplit<T>(file: seq<T>, pos: nat, a: seq<T>, b: seq<T>)
    requires At(file, pos, a + b)
    ensures At(file, pos, a) && At(file, pos + |a|, b)
  {
    assert (a + b)[..|a|] == a && (a + b)[|a|..] == b;
    assert file[pos..pos + |a + b|][..|a|] == file[pos..pos + |a|];
    assert file[pos..pos + |a + b|][|a|..] == file[pos + |a|..pos + |a| + |b|];
  }

  lemma AtIndex<T>(file: seq<T>, pos: nat, part: seq<T>, i: nat)
    requires At(file, pos, part) && i < |part|
    ensures file[pos + i] == part[i]
  {
    assert file[pos..pos + |part|][i] == part[i];
  }

  lemma AtSlice<T>(file: seq<T>, pos: nat, part: seq<T>, lo: nat, hi: nat)
    requires At(file, pos, part) && lo <= hi <= |part|
    ensures At(file, pos + lo, part[lo..hi])
  {
    assert part == part[..lo] + (part[lo..hi] + part[hi..]);
    AtSplit(file, pos, part[..lo], part[lo..hi] + part[hi..]);
    AtSplit(file, pos + lo, part[lo..hi], part[hi..]);
  }

  lemma AtInside<T>(s: seq<T>, p: nat, part: seq<T>, q: nat, inner: seq<T>)
    requires At(s, p, part) && At(part, q, inner)
    ensures At(s, p + q, inner)
  {
    AtSlice(s, p, part, q, q + |inner|);
  }

  lemma AtParts<T>(a: seq<T>, b: seq<T>)
    ensures At(a + b, 0, a) && At(a + b, |a|, b)
  {
  }

  // ---- C strings -------------------------------------------------------

  predicate NulFree(s: seq<byte>) {
    forall i :: 0 <= i < |s| ==> s[i] != 0
  }

  /** The C string that starts at `pos`: the bytes up to the first NUL, or to the end of `s`. */
  function CStr(s: seq<byte>, pos: nat): (r: seq<byte>)
    requires pos <= |s|
    ensures NulFree(r) && pos + |r| <= |s| && s[pos..pos + |r|] == r
    ensures pos + |r| < |s| ==> s[pos + |r|] == 0
    decreases |s| - pos
  {
    if pos == |s| || s[pos] == 0 then [] else [s[pos]] + CStr(s, pos + 1)
  }

  /** A NUL-terminated string stored at `pos` is read back whole. */
  lemma {:induction false} CStrReads(s: seq<byte>, pos: nat, name: seq<byte>)
    requires NulFree(name) && pos + |name| <= |s|
    requires s[pos..pos + |name|] == name
    requires pos + |name| == |s| || s[pos + |name|] == 0
    ensures CStr(s, pos) == name
    decreases |name|
  {
    if name == [] {
    } else {
      assert s[pos] == s[pos..pos + |name|][0] == name[0];
      assert s[pos + 1..pos + 1 + |name[1..]|] == s[pos..pos + |name|][1..];
      CStrReads(s, pos + 1, name[1..]);
    }
  }

  /** `memchr`: the first index below `n` that holds `c`. */
  function MemChr(s: seq<byte>, c: byte, n: nat): (r: Option<nat>)
    requires n <= |s|
    ensures r.Some? ==> r.value < n && s[r.value] == c && c !in s[..r.value]
    ensures r.None? ==> c !in s[..n]
    decreases n
  {
    if n == 0 then None
    else
      var r := MemChr(s, c, n - 1);
      if r.Some? then r
      else if s[n - 1] == c then Some(n - 1)
      else
        assert s[..n] == s[..n - 1] + [s[n - 1]];
        None
  }

  // ---- fixed-width integers --------------------------------------------

  function Pow256(n: nat): (r: nat)
    ensures r > 0
  {
    if n == 0 then 1 else 256 * Pow256(n - 1)
  }

  /** The low `n` bytes of `v`, most significant byte first. */
  function PutBe(v: nat, n: nat): (r: seq<byte>)
    ensures |r| == n
  {
    if n == 0 then [] else PutBe(v / 256, n - 1) + [v % 256]
  }

  function GetBe(s: seq<byte>): nat {
    if s == [] then 0 else GetBe(s[..|s| - 1]) * 256 + s[|s| - 1]
  }

  /** The low `n` bytes of `v`, least significant byte first. */
  function PutLe(v: nat, n: nat): (r: seq<byte>)
    ensures |r| == n
  {
    if n == 0 then [] else [v % 256] + PutLe(v / 256, n - 1)
  }

  function GetLe(s: seq<byte>): nat {
    if s == [] then 0 else s[0] + 256 * GetLe(s[1..])
  }

  lemma {:induction false} GetPutBe(v: nat, n: nat)
    requires v < Pow256(n)
    ensures GetBe(PutBe(v, n)) == v
  {
    if n == 0 {
    } else {
      GetPutBe(v / 256, n - 1);
      assert PutBe(v, n)[..n - 1] == PutBe(v / 256, n - 1);
    }
  }

  lemma {:induction false} GetPutLe(v: nat, n: nat)
    requires v < Pow256(n)
    ensures GetLe(PutLe(v, n)) == v
  {
    if n == 0 {
    } else {
      GetPutLe(v / 256, n - 1);
      assert PutLe(v, n)[1..] == PutLe(v / 256, n - 1);
    }
  }

  lemma {:induction false} PutGetLe(s: seq<byte>)
    ensures GetLe(s) < Pow256(|s|)
    ensures PutLe(GetLe(s), |s|) == s
  {
    if s == [] {
    } else {
      PutGetLe(s[1..]);
      assert GetLe(s) % 256 == s[0] && GetLe(s) / 256 == GetLe(s[1..]);
    }
  }

  lemma Pow256Values()
    ensures Pow256(1) == 256 && Pow256(2) == 0x1_0000 && Pow256(4) == TWO32 && Pow256(8) == TWO64
  {
    assert Pow256(4) == 256 * (256 * Pow256(2));
    assert Pow256(6) == 256 * (256 * Pow256(4));
    assert Pow256(8) == 256 * (256 * Pow256(6));
  }

  /** `H_PUT_32` / `H_GET_32`: the byte order is the target's. */
  function Put32(v: nat, big: bool): (r: seq<byte>)
    ensures |r| == 4
  {
    if big then PutBe(v, 4) else PutLe(v, 4)
  }

  function Get32(s: seq<byte>, big: bool): nat {
    if big then GetBe(s) else GetLe(s)
  }

  lemma GetPut32(v: nat, big: bool)
    requires v < TWO32
    ensures Get32(Put32(v, big), big) == v
  {
    Pow256Values();
    GetPutBe(v, 4);
    GetPutLe(v, 4);
  }

  /** `n` bytes in the given byte order. */
  function Put(v: nat, n: nat, big: bool): (r: seq<byte>)
    ensures |r| == n
  {
    if big then PutBe(v, n) else PutLe(v, n)
  }

  function Get(s: seq<byte>, big: bool): nat {
    if big then GetBe(s) else GetLe(s)
  }

  lemma GetPut(v: nat, n: nat, big: bool)
    requires v < Pow256(n)
    ensures Get(Put(v, n, big), big) == v
  {
    GetPutBe(v, n);
    GetPutLe(v, n);
  }

  lemma {:induction false} GetBound(s: seq<byte>, big: bool)
    ensures Get(s, big) < Pow256(|s|)
  {
    if s != [] {
      if big {
        GetBound(s[..|s| - 1], big);
      } else {
        GetBound(s[1..], big);
      }
    }
  }

  // ---- decimal fields --------------------------------------------------

  predicate IsDigit(b: byte) { 48 <= b <= 57 }

  /** `%ld` of a non-negative number. */
  function Dec(v: nat): (r: seq<byte>)
    ensures |r| >= 1 && forall i :: 0 <= i < |r| ==> IsDigit(r[i])
  {
    if v < 10 then [48 + v] else Dec(v / 10) + [48 + v % 10]
  }

  /** The number of leading decimal digits of `s`. */
  function DigitRun(s: seq<byte>): (n: nat)
    ensures n <= |s| && forall i :: 0 <= i < n ==> IsDigit(s[i])
    ensures n < |s| ==> !IsDigit(s[n])
  {
    if s == [] || !IsDigit(s[0]) then 0 else 1 + DigitRun(s[1..])
  }

  function DigitsValue(s: seq<byte>): nat
    requires forall i :: 0 <= i < |s| ==> IsDigit(s[i])
  {
    if s == [] then 0
    else
      assert IsDigit(s[|s| - 1]);
      10 * DigitsValue(s[..|s| - 1]) + (s[|s| - 1] as int - 48)
  }

  lemma {:induction false} DigitsOfDec(v: nat)
    ensures DigitsValue(Dec(v)) == v
  {
    if v < 10 {
      assert Dec(v)[..0] == [];
    } else {
      DigitsOfDec(v / 10);
      assert Dec(v)[..|Dec(v)| - 1] == Dec(v / 10);
    }
  }

  lemma DigitRunOf(s: seq<byte>, d: seq<byte>)
    requires |d| <= |s| && s[..|d|] == d
    requires forall i :: 0 <= i < |d| ==> IsDigit(d[i])
    requires |d| == |s| || !IsDigit(s[|d|])
    ensures DigitRun(s) == |d|
  {
    assert forall i :: 0 <= i < |d| ==> s[i] == s[..|d|][i] == d[i];
  }
}
