// Edits of section contents by relocations: adding to a field, filling bits of a word, and the
// SPARC byte-reversed store.  What matters to the linker is how such edits compose.
module Patches {
  import opened Bytes

  predicate WordSize(n: nat) {
    n == 1 || n == 2 || n == 4 || n == 8
  }

  function Modulus(n: nat): (r: nat)
    requires WordSize(n)
    ensures r > 0
  {
    if n == 1 then 256 else if n == 2 then 0x1_0000 else if n == 4 then TWO32 else TWO64
  }

  lemma ModulusIs(n: nat)
    requires WordSize(n)
    ensures Modulus(n) == Pow256(n)
  {
    Pow256Values();
  }

  function Pow2(n: nat): (r: nat)
    ensures r > 0
  {
    if n == 0 then 1 else 2 * Pow2(n - 1)
  }

  /** `Add`: the word at `at` plus `delta`.  `Fill`: its low `bits` bits become bits `shift` and up of
      `value`.  `Rev32`: a read, a sum, a little-endian store. */
  datatype Patch =
    | Add(at: nat, size: nat, delta: int)
    | Fill(at: nat, size: nat, value: int, shift: nat, bits: nat)
    | Rev32(at: nat, value: int)
  {
    predicate Valid() {
      match this
      case Add(_, n, _) => WordSize(n)
      case Fill(_, n, _, s, b) => WordSize(n) && s + b <= 32
      case Rev32(_, _) => true
    }

    function Size(): (n: nat)
      requires Valid()
      ensures WordSize(n)
    {
      if Rev32? then 4 else size
    }

    predicate Fits(len: nat) {
      Valid() && at + Size() <= len
    }
  }

  /** The word a patch leaves, given the word it finds. */
  function Word(p: Patch, w: nat): (r: nat)
    requires p.Valid()
  {
    match p
    case Add(_, n, d) => (w + d) % Modulus(n)
    case Fill(_, n, v, s, b) => (w - w % Pow2(b) + (v / Pow2(s)) % Pow2(b)) % Modulus(n)
    case Rev32(_, v) => (w + v) % TWO32
  }

  /** The field a patch leaves, given the field it finds. */
  function NewField(p: Patch, field: seq<byte>, big: bool): (r: seq<byte>)
    requires p.Valid()
    ensures |r| == p.Size()
  {
    if p.Rev32? then PutLe(Word(p, Get(field, big)), 4) else Put(Word(p, Get(field, big)), p.Size(), big)
  }

  function FieldOf(p: Patch, c: seq<byte>): (r: seq<byte>)
    requires p.Fits(|c|)
    ensures |r| == p.Size()
  {
    c[p.at..p.at + p.Size()]
  }

  /** One edit in place (`_bfd_relocate_contents`). */
  function Apply(p: Patch, c: seq<byte>, big: bool): (r: seq<byte>)
    requires p.Fits(|c|)
    ensures |r| == |c|
  {
    Splice(c, p.at, NewField(p, FieldOf(p, c), big))
  }

  predicate AllFit(ps: seq<Patch>, len: nat) {
    forall i :: 0 <= i < |ps| ==> ps[i].Fits(len)
  }

  /** Edits in order, first to last. */
  function ApplyAll(ps: seq<Patch>, c: seq<byte>, big: bool): (r: seq<byte>)
    requires AllFit(ps, |c|)
    ensures |r| == |c|
  {
    if ps == [] then c else Apply(ps[|ps| - 1], ApplyAll(ps[..|ps| - 1], c, big), big)
  }

  lemma {:induction false} ApplyAppend(ps: seq<Patch>, qs: seq<Patch>, c: seq<byte>, big: bool)
    requires AllFit(ps, |c|) && AllFit(qs, |c|)
    ensures AllFit(ps + qs, |c|)
    ensures ApplyAll(ps + qs, c, big) == ApplyAll(qs, ApplyAll(ps, c, big), big)
  {
    if qs == [] {
      assert ps + qs == ps;
    } else {
      var n := |qs| - 1;
      ApplyAppend(ps, qs[..n], c, big);
      assert (ps + qs)[..|ps + qs| - 1] == ps + qs[..n];
    }
  }

  // ---- moving a section ------------------------------------------------

  function Moved(p: Patch, o: nat): (r: Patch)
    ensures p.Valid() ==> r.Valid() && r.Size() == p.Size() && r.at == p.at + o
  {
    match p
    case Add(a, n, d) => Add(a + o, n, d)
    case Fill(a, n, v, s, b) => Fill(a + o, n, v, s, b)
    case Rev32(a, v) => Rev32(a + o, v)
  }

  lemma SpliceMoved(pre: seq<byte>, c: seq<byte>, post: seq<byte>, at: nat, f: seq<byte>)
    requires at + |f| <= |c|
    ensures Splice(pre + c + post, |pre| + at, f) == pre + Splice(c, at, f) + post
    ensures (pre + c + post)[|pre| + at..|pre| + at + |f|] == c[at..at + |f|]
  {
    var s := pre + c + post;
    assert s == pre + (c + post);
    assert s[..|pre| + at] == pre + c[..at];
    assert s[|pre| + at + |f|..] == c[at + |f|..] + post;
  }

  lemma ApplyMoved(p: Patch, pre: seq<byte>, c: seq<byte>, post: seq<byte>, big: bool)
    requires p.Fits(|c|)
    ensures Moved(p, |pre|).Fits(|pre + c + post|)
    ensures Apply(Moved(p, |pre|), pre + c + post, big) == pre + Apply(p, c, big) + post
  {
    hide Put, Get, PutLe, GetBe, Splice;
    SpliceMoved(pre, c, post, p.at, NewField(p, FieldOf(p, c), big));
  }

  function AllMoved(ps: seq<Patch>, o: nat): (r: seq<Patch>)
    ensures |r| == |ps| && forall i :: 0 <= i < |ps| ==> r[i] == Moved(ps[i], o)
  {
    seq(|ps|, i requires 0 <= i < |ps| => Moved(ps[i], o))
  }

  /** Edits of a piece that has been placed inside a larger section are the same edits, moved. */
  lemma {:induction false} ApplyAllMoved(ps: seq<Patch>, pre: seq<byte>, c: seq<byte>, post: seq<byte>, big: bool)
    requires AllFit(ps, |c|)
    ensures AllFit(AllMoved(ps, |pre|), |pre + c + post|)
    ensures ApplyAll(AllMoved(ps, |pre|), pre + c + post, big) == pre + ApplyAll(ps, c, big) + post
  {
    hide Apply;
    if ps != [] {
      var n := |ps| - 1;
      ApplyAllMoved(ps[..n], pre, c, post, big);
      assert AllMoved(ps, |pre|)[..n] == AllMoved(ps[..n], |pre|);
      ApplyMoved(ps[n], pre, ApplyAll(ps[..n], c, big), post, big);
      assert |pre + ApplyAll(ps[..n], c, big) + post| == |pre + c + post|;
    }
  }

  // ---- adding twice ----------------------------------------------------

  predicate Apart(p: Patch, q: Patch)
    requires p.Valid() && q.Valid()
  {
    p.at + p.Size() <= q.at || q.at + q.Size() <= p.at
  }

  lemma SpliceOver(c: seq<byte>, at: nat, f: seq<byte>, g: seq<byte>)
    requires at + |f| <= |c| && |f| == |g|
    ensures Splice(c, at, f)[at..at + |f|] == f
    ensures Splice(Splice(c, at, f), at, g) == Splice(c, at, g)
  {
    var s := Splice(c, at, f);
    assert s[..at] == c[..at] && s[at + |g|..] == c[at + |g|..];
  }

  lemma WordsAdd(n: nat, w: nat, d: int, e: int)
    requires WordSize(n)
    ensures ((w + d) % Modulus(n) + e) % Modulus(n) == (w + (d + e)) % Modulus(n)
  {
  }

  /** Additions to the same field add up. */
  lemma AddTwice(at: nat, n: nat, d: int, e: int, c: seq<byte>, big: bool)
    requires Add(at, n, d).Fits(|c|)
    ensures Apply(Add(at, n, e), Apply(Add(at, n, d), c, big), big) == Apply(Add(at, n, d + e), c, big)
  {
    hide Get, Put, Splice, Modulus;
    var w := Get(c[at..at + n], big);
    ModulusIs(n);
    GetPut((w + d) % Modulus(n), n, big);
    WordsAdd(n, w, d, e);
    SpliceOver(c, at, Put((w + d) % Modulus(n), n, big), Put((w + d + e) % Modulus(n), n, big));
  }

  lemma SplicesCommute(c: seq<byte>, a: nat, f: seq<byte>, b: nat, g: seq<byte>)
    requires a + |f| <= b && b + |g| <= |c|
    ensures Splice(Splice(c, a, f), b, g) == Splice(Splice(c, b, g), a, f)
    ensures Splice(c, a, f)[b..b + |g|] == c[b..b + |g|]
    ensures Splice(c, b, g)[a..a + |f|] == c[a..a + |f|]
  {
    var mid := c[a + |f|..b];
    var r := c[..a] + f + mid + g + c[b + |g|..];
    var s, t := Splice(c, a, f), Splice(c, b, g);
    assert s[..b] == c[..a] + f + mid && s[b + |g|..] == c[b + |g|..];
    assert t[..a] == c[..a] && t[a + |f|..] == mid + g + c[b + |g|..];
    assert Splice(s, b, g) == r;
    assert Splice(t, a, f) == r;
  }

  /** Edits of separate fields commute. */
  lemma ApplyCommutes(p: Patch, q: Patch, c: seq<byte>, big: bool)
    requires p.Fits(|c|) && q.Fits(|c|) && Apart(p, q)
    ensures Apply(p, Apply(q, c, big), big) == Apply(q, Apply(p, c, big), big)
  {
    hide NewField, Splice;
    var f, g := NewField(p, FieldOf(p, c), big), NewField(q, FieldOf(q, c), big);
    if p.at + p.Size() <= q.at {
      SplicesCommute(c, p.at, f, q.at, g);
    } else {
      SplicesCommute(c, q.at, g, p.at, f);
    }
  }

  lemma {:induction false} CommutesPast(p: Patch, qs: seq<Patch>, c: seq<byte>, big: bool)
    requires p.Fits(|c|) && AllFit(qs, |c|)
    requires forall i :: 0 <= i < |qs| ==> Apart(p, qs[i])
    ensures Apply(p, ApplyAll(qs, c, big), big) == ApplyAll(qs, Apply(p, c, big), big)
  {
    hide Apply;
    if qs != [] {
      var n := |qs| - 1;
      CommutesPast(p, qs[..n], c, big);
      ApplyCommutes(p, qs[n], ApplyAll(qs[..n], c, big), big);
    }
  }

  /** The additions of `ps`, `qs` and their sums `rs`, field by field. */
  predicate Sums(ps: seq<Patch>, qs: seq<Patch>, rs: seq<Patch>) {
    && |ps| == |qs| == |rs|
    && forall i :: 0 <= i < |ps| ==>
      && ps[i].Add? && qs[i].Add? && rs[i].Add?
      && ps[i].at == qs[i].at == rs[i].at && ps[i].size == qs[i].size == rs[i].size
      && rs[i].delta == ps[i].delta + qs[i].delta
  }

  predicate Separate(ps: seq<Patch>)
    requires forall i :: 0 <= i < |ps| ==> ps[i].Valid()
  {
    forall i, j :: 0 <= i < j < |ps| ==> Apart(ps[i], ps[j])
  }

  /** One pass of additions after another is a single pass with the sums, provided the fields do not
      overlap. */
  lemma {:induction false} TwoPasses(ps: seq<Patch>, qs: seq<Patch>, rs: seq<Patch>, c: seq<byte>, big: bool)
    requires Sums(ps, qs, rs) && AllFit(ps, |c|) && AllFit(qs, |c|) && AllFit(rs, |c|) && Separate(ps)
    ensures ApplyAll(qs, ApplyAll(ps, c, big), big) == ApplyAll(rs, c, big)
  {
    hide Apply;
    if ps != [] {
      var n := |ps| - 1;
      var c1 := ApplyAll(ps[..n], c, big);
      TwoPasses(ps[..n], qs[..n], rs[..n], c, big);
      CommutesPast(ps[n], qs[..n], c1, big);
      AddTwice(ps[n].at, ps[n].size, ps[n].delta, qs[n].delta, ApplyAll(qs[..n], c1, big), big);
    }
  }

  // ---- equal modulo the word -------------------------------------------

  /** Edits of the same kind, of the same bits of the same word. */
  predicate SameKind(p: Patch, q: Patch) {
    && p.Valid() && q.Valid() && p.Add? == q.Add? && p.Fill? == q.Fill? && p.at == q.at && p.Size() == q.Size()
    && (p.Fill? ==> p.shift == q.shift && p.bits == q.bits)
  }

  /** Two edits that leave the same word whatever they find. */
  predicate SameWord(p: Patch, q: Patch) {
    && SameKind(p, q)
    && match p
       case Add(_, n, d) => (d - q.delta) % Modulus(n) == 0
       case Fill(_, _, v, s, b) => (v / Pow2(s)) % Pow2(b) == (q.value / Pow2(s)) % Pow2(b)
       case Rev32(_, v) => (v - q.value) % TWO32 == 0
  }

  lemma ModEqual(a: int, b: int, m: int)
    requires m > 0 && (a - b) % m == 0
    ensures a % m == b % m
  {
    var k := (a - b) / m;
    assert a - b == m * k;
    assert a == b + m * k;
    ModShift(b, k, m);
  }

  lemma ModShift(b: int, k: int, m: int)
    requires m > 0
    ensures (b + m * k) % m == b % m
  {
    var q, r := b / m, b % m;
    assert b == m * q + r;
    assert b + m * k == m * (q + k) + r by {
      assert m * (q + k) == m * q + m * k;
    }
    ModOf(b + m * k, q + k, r, m);
  }

  lemma ModOf(x: int, q: int, r: int, m: int)
    requires m > 0 && x == m * q + r && 0 <= r < m
    ensures x % m == r
  {
    var d := x / m - q;
    assert x == m * (x / m) + x % m;
    assert m * d == r - x % m by {
      assert m * d == m * (x / m) - m * q;
    }
    assert d >= 1 ==> m * d >= m;
    assert d <= -1 ==> m * d <= -m;
  }

  lemma ModSame(a: int, b: int, m: int)
    requires m > 0
    ensures (a - b) % m == 0 <==> a % m == b % m
  {
    if (a - b) % m == 0 {
      ModEqual(a, b, m);
    } else if a % m == b % m {
      assert a == m * (a / m) + a % m && b == m * (b / m) + b % m;
      assert a - b == m * (a / m - b / m) + 0 by {
        assert m * (a / m - b / m) == m * (a / m) - m * (b / m);
      }
      ModOf(a - b, a / m - b / m, 0, m);
    }
  }

  lemma MulAssoc(a: int, b: int, c: int)
    ensures a * b * c == a * (b * c)
  {
  }

  lemma {:induction false} Pow2Adds(a: nat, b: nat)
    ensures Pow2(a + b) == Pow2(a) * Pow2(b)
  {
    if a > 0 {
      Pow2Adds(a - 1, b);
      MulAssoc(2, Pow2(a - 1), Pow2(b));
    }
  }

  lemma Pow2Is32()
    ensures Pow2(32) == TWO32
  {
    Pow2Adds(16, 16);
    Pow2Adds(8, 8);
    assert Pow2(4) == 16;
    Pow2Adds(4, 4);
  }

  lemma DivShift(x: int, k: int, m: int)
    requires m > 0
    ensures (x + m * k) / m == x / m + k
  {
    ModShift(x, k, m);
    assert x + m * k == m * ((x + m * k) / m) + x % m;
    assert x == m * (x / m) + x % m;
    var d := (x + m * k) / m - (x / m + k);
    assert m * d == 0 by {
      assert m * d == m * ((x + m * k) / m) - (m * (x / m) + m * k);
    }
    assert d >= 1 ==> m * d >= m;
    assert d <= -1 ==> m * d <= -m;
  }

  lemma DivModSame(v: int, w: int, a: int, b: int, c: int, k: int)
    requires a > 0 && b > 0 && v == w + a * (b * c) * k
    ensures (v / a) % b == (w / a) % b
  {
    MulAssoc(a, b * c, k);
    MulAssoc(b, c, k);
    DivShift(w, b * (c * k), a);
    ModShift(w / a, c * k, b);
  }

  /** Bits `shift` to `shift + bits`, all below 32, depend on the value modulo 2^32 only. */
  lemma BitsSame(v: int, w: int, shift: nat, bits: nat)
    requires shift + bits <= 32 && (v - w) % TWO32 == 0
    ensures (v / Pow2(shift)) % Pow2(bits) == (w / Pow2(shift)) % Pow2(bits)
  {
    hide Pow2;
    var rest := 32 - shift - bits;
    Pow2Is32();
    Pow2Adds(shift, bits + rest);
    Pow2Adds(bits, rest);
    DivModSame(v, w, Pow2(shift), Pow2(bits), Pow2(rest), (v - w) / TWO32);
  }

  lemma SameWordIs(p: Patch, q: Patch, w: nat)
    requires SameWord(p, q)
    ensures Word(p, w) == Word(q, w)
  {
    hide Modulus;
    match p
    case Add(_, n, d) => ModSame(w + d, w + q.delta, Modulus(n));
    case Fill(_, n, v, s, b) =>
    case Rev32(_, v) => ModSame(w + v, w + q.value, TWO32);
  }

  lemma {:induction false} SameEdits(ps: seq<Patch>, qs: seq<Patch>, c: seq<byte>, big: bool)
    requires |ps| == |qs| && AllFit(ps, |c|) && AllFit(qs, |c|)
    requires forall i :: 0 <= i < |ps| ==> SameWord(ps[i], qs[i])
    ensures ApplyAll(ps, c, big) == ApplyAll(qs, c, big)
  {
    hide Apply, SameWord;
    if ps != [] {
      var n := |ps| - 1;
      SameEdits(ps[..n], qs[..n], c, big);
      SameEdit(ps[n], qs[n], ApplyAll(ps[..n], c, big), big);
    }
  }

  lemma SameEdit(p: Patch, q: Patch, c: seq<byte>, big: bool)
    requires p.Fits(|c|) && q.Fits(|c|) && SameWord(p, q)
    ensures Apply(p, c, big) == Apply(q, c, big)
  {
    hide Splice, Word, Put, Get, PutLe, Modulus;
    SameWordIs(p, q, Get(FieldOf(p, c), big));
  }

  lemma SpliceApart(c: seq<byte>, at: nat, f: seq<byte>, lo: nat, hi: nat)
    requires at + |f| <= |c| && lo <= hi <= |c| && (hi <= at || at + |f| <= lo)
    ensures Splice(c, at, f)[lo..hi] == c[lo..hi]
  {
  }

  /** What separate edits leave in each field. */
  lemma {:induction false} FieldAfter(ps: seq<Patch>, c: seq<byte>, big: bool, k: nat)
    requires AllFit(ps, |c|) && Separate(ps) && k < |ps|
    ensures FieldOf(ps[k], ApplyAll(ps, c, big)) == NewField(ps[k], FieldOf(ps[k], c), big)
  {
    hide NewField, Splice;
    var n := |ps| - 1;
    var c1 := ApplyAll(ps[..n], c, big);
    var f := NewField(ps[n], FieldOf(ps[n], c1), big);
    assert ApplyAll(ps, c, big) == Splice(c1, ps[n].at, f);
    if k < n {
      FieldAfter(ps[..n], c, big, k);
      SpliceApart(c1, ps[n].at, f, ps[k].at, ps[k].at + ps[k].Size());
    } else {
      FieldUntouched(ps[..n], c, big, ps[n]);
      SpliceOver(c1, ps[n].at, f, f);
    }
  }

  /** A byte outside every field stays. */
  lemma {:induction false} ByteUntouched(ps: seq<Patch>, c: seq<byte>, big: bool, j: nat)
    requires AllFit(ps, |c|) && j < |c|
    requires forall i :: 0 <= i < |ps| ==> j < ps[i].at || ps[i].at + ps[i].Size() <= j
    ensures ApplyAll(ps, c, big)[j] == c[j]
  {
    hide NewField;
    if ps != [] {
      ByteUntouched(ps[..|ps| - 1], c, big, j);
    }
  }

  lemma {:induction false} FieldUntouched(qs: seq<Patch>, c: seq<byte>, big: bool, p: Patch)
    requires AllFit(qs, |c|) && p.Fits(|c|)
    requires forall i :: 0 <= i < |qs| ==> Apart(qs[i], p)
    ensures FieldOf(p, ApplyAll(qs, c, big)) == FieldOf(p, c)
  {
    hide NewField, Splice;
    if qs != [] {
      var n := |qs| - 1;
      FieldUntouched(qs[..n], c, big, p);
      var c1 := ApplyAll(qs[..n], c, big);
      SpliceApart(c1, qs[n].at, NewField(qs[n], FieldOf(qs[n], c1), big), p.at, p.at + p.Size());
    }
  }

  /** The bits of a field are bits of its word. */
  predicate InWord(p: Patch)
    requires p.Valid()
  {
    p.Fill? ==> p.bits <= 8 * p.size
  }

  /** Separate edits of the same fields leave the same contents exactly when each leaves the same word. */
  lemma SameContents(ps: seq<Patch>, qs: seq<Patch>, c: seq<byte>, big: bool)
    requires |ps| == |qs| && AllFit(ps, |c|) && AllFit(qs, |c|) && Separate(ps) && Separate(qs)
    requires forall i :: 0 <= i < |ps| ==> SameKind(ps[i], qs[i]) && InWord(ps[i])
    ensures ApplyAll(ps, c, big) == ApplyAll(qs, c, big) <==> forall i :: 0 <= i < |ps| ==> SameWord(ps[i], qs[i])
  {
    hide ApplyAll, NewField, SameWord, InWord;
    if forall i :: 0 <= i < |ps| ==> SameWord(ps[i], qs[i]) {
      SameEdits(ps, qs, c, big);
    }
    if ApplyAll(ps, c, big) == ApplyAll(qs, c, big) {
      forall i | 0 <= i < |ps|
        ensures SameWord(ps[i], qs[i])
      {
        FieldAfter(ps, c, big, i);
        FieldAfter(qs, c, big, i);
        SameFields(ps[i], qs[i], FieldOf(ps[i], c), big);
      }
    }
  }

  lemma SameFields(p: Patch, q: Patch, field: seq<byte>, big: bool)
    requires SameKind(p, q) && InWord(p) && |field| == p.Size()
    requires NewField(p, field, big) == NewField(q, field, big)
    ensures SameWord(p, q)
  {
    hide Put, Get, PutLe, GetBe, Modulus, Word;
    var w := Get(field, big);
    ModulusIs(p.Size());
    WordBelow(p, w);
    WordBelow(q, w);
    if p.Rev32? {
      GetPutLe(Word(p, w), 4);
      GetPutLe(Word(q, w), 4);
    } else {
      GetPut(Word(p, w), p.size, big);
      GetPut(Word(q, w), p.size, big);
    }
    WordSame(p, q, w);
  }

  lemma WordBelow(p: Patch, w: nat)
    requires p.Valid()
    ensures Word(p, w) < Modulus(p.Size())
  {
  }

  lemma WordSame(p: Patch, q: Patch, w: nat)
    requires SameKind(p, q) && InWord(p) && Word(p, w) == Word(q, w)
    ensures SameWord(p, q)
  {
    hide Modulus, Pow2;
    match p
    case Add(_, n, d) => ModSame(w + d, w + q.delta, Modulus(n));
    case Fill(_, n, v, s, b) =>
      BitsBelow(n, b);
      FilledSame(w - w % Pow2(b), (v / Pow2(s)) % Pow2(b), (q.value / Pow2(s)) % Pow2(b), Modulus(n));
    case Rev32(_, v) => ModSame(w + v, w + q.value, TWO32);
  }

  lemma FilledSame(w: int, x: nat, y: nat, m: nat)
    requires x < m && y < m && (w + x) % m == (w + y) % m
    ensures x == y
  {
    ModSame(w + x, w + y, m);
    if x > y {
      ModOf(x - y, 0, x - y, m);
    } else if y > x {
      ModSame(w + y, w + x, m);
      ModOf(y - x, 0, y - x, m);
    }
  }

  lemma BitsBelow(n: nat, b: nat)
    requires WordSize(n) && b <= 8 * n
    ensures Pow2(b) <= Modulus(n)
  {
    Pow2Values();
    Pow2Grows(b, 8 * n);
  }

  lemma {:induction false} Pow2Grows(a: nat, b: nat)
    requires a <= b
    ensures Pow2(a) <= Pow2(b)
  {
    if a < b {
      Pow2Grows(a, b - 1);
    }
  }

  lemma Pow2Values()
    ensures Pow2(8) == 256 && Pow2(16) == 0x1_0000 && Pow2(32) == TWO32 && Pow2(64) == TWO64
  {
    assert Pow2(4) == 16;
    Pow2Adds(4, 4);
    Pow2Adds(8, 8);
    Pow2Is32();
    Pow2Adds(32, 32);
  }

  // ---- a field whose value moves ---------------------------------------

  /** Whether the bits from `shift` on stay when a value that ends in `low` moves by `d`. */
  predicate BitsKept(low: int, d: int, shift: nat, bits: nat) {
    (low % Pow2(shift) + d) % Pow2(shift + bits) < Pow2(shift)
  }

  lemma DivModProduct(x: int, a: int, b: int)
    requires a > 0 && b > 0
    ensures a * b > 0 && x % (a * b) == a * ((x / a) % b) + x % a
  {
    var q, r := x / a, x % a;
    var k, j := q / b, q % b;
    assert x == a * q + r && q == b * k + j;
    assert a * q == a * b * k + a * j by {
      MulAssoc(a, b, k);
    }
    assert a * j <= a * (b - 1);
    assert a * (b - 1) == a * b - a;
    ModOf(x, k, a * j + r, a * b);
  }

  lemma LowPart(x: int, a: int, b: int)
    requires a > 0 && b > 0
    ensures a * b > 0 && ((x / a) % b == 0 <==> x % (a * b) < a)
  {
    DivModProduct(x, a, b);
    var j, r := (x / a) % b, x % a;
    assert j >= 1 ==> a * j >= a;
  }

  lemma KeptIff(w: int, d: int, a: int, b: int)
    requires a > 0 && b > 0
    ensures a * b > 0 && (((w + d) / a) % b == (w / a) % b <==> (w % a + d) % (a * b) < a)
  {
    var q, x := w / a, w % a + d;
    LowPart(x, a, b);
    assert w + d == x + a * q;
    DivShift(x, q, a);
    assert (w + d) / a - q == x / a;
    ModSame((w + d) / a, q, b);
  }

  /** A field keeps its bits when its value moves by `d` (modulo the 32-bit word) exactly under that
      condition. */
  lemma MovedBits(v: int, w: int, d: int, shift: nat, bits: nat)
    requires shift + bits <= 32 && (v - w - d) % TWO32 == 0
    ensures (v / Pow2(shift)) % Pow2(bits) == (w / Pow2(shift)) % Pow2(bits) <==> BitsKept(w, d, shift, bits)
  {
    hide Pow2;
    assert v - (w + d) == v - w - d;
    BitsSame(v, w + d, shift, bits);
    Pow2Adds(shift, bits);
    KeptIff(w, d, Pow2(shift), Pow2(bits));
  }

  /** For a field that starts at bit 0 only the move counts; a move by whole words never shows. */
  lemma BitsKeptIs(low: int, d: int, shift: nat, bits: nat)
    requires shift + bits <= 32
    ensures shift == 0 ==> (BitsKept(low, d, shift, bits) <==> d % Pow2(bits) == 0)
    ensures d % TWO32 == 0 ==> BitsKept(low, d, shift, bits)
  {
    hide BitsKept;
    if shift == 0 {
      FromBitZero(low, d, bits);
    }
    if d % TWO32 == 0 {
      ModSame(low, low + d, TWO32);
      assert (low - low - d) % TWO32 == 0 by {
        ModSame(0, d, TWO32);
      }
      MovedBits(low, low, d, shift, bits);
    }
  }

  lemma FromBitZero(low: int, d: int, bits: nat)
    ensures BitsKept(low, d, 0, bits) <==> d % Pow2(bits) == 0
  {
    assert Pow2(0) == 1;
  }
}
